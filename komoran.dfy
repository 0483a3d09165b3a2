/** Komoran.java as an object: the analyzer's fields, each pass as a method that changes
    them, and the two entry points analyze and analyzeWithSpacing. Every method is proved
    to leave the state that the matching function of the Passes and Scanning modules
    computes from the state it started in. */
module Analyzer {
  import opened Wrappers
  import opened JavaText
  import opened KomoranTypes
  import opened UnicodeBlocks
  import opened LatticeNodes
  import opened Lattices
  import opened SymbolRuns
  import opened Orders
  import opened Passes
  import opened Scanning

  class Komoran {
    const res: Resources
    const userDic: Option<Trie<seq<ScoredTag>>>        // None: setUserDic never called
    const fwd: Option<map<string, seq<Pair>>>          // None: setFWDic never called
    var lattice: Lattice
    var prevPos: string
    var prevMorph: string
    var prevBeginIdx: int
    // The units each trie's cursor has been fed since it was last reset.
    var regularCursor: seq<char>
    var irregularCursor: seq<char>
    var userCursor: seq<char>

    function Cfg(): Config {
      Config(res, userDic)
    }

    ghost predicate Valid()
      reads this
    {
      ValidConfig(Cfg()) && lattice.oracle == res.lattice && (userDic.None? ==> userCursor == [])
    }

    /** Everything the passes read or change. */
    function State(): Scan
      reads this, lattice
    {
      Scan(lattice.calls, Buffer(prevPos, prevMorph, prevBeginIdx),
           Cursors(regularCursor, irregularCursor, userCursor))
    }

    /** A Komoran over loaded resources and, optionally, a user and a forward dictionary. */
    constructor (res: Resources, userDic: Option<Trie<seq<ScoredTag>>>,
                 fwd: Option<map<string, seq<Pair>>>)
      requires ValidResources(res)
      ensures Valid() && fresh(lattice)
      ensures this.res == res && this.userDic == userDic && this.fwd == fwd
      ensures State() == Start
    {
      this.res, this.userDic, this.fwd := res, userDic, fwd;
      lattice := new Lattice(res.lattice);
      prevPos, prevMorph, prevBeginIdx := "", "", 0;
      regularCursor, irregularCursor, userCursor := [], [], [];
    }

    // ------------------------------------------------------------ continuous symbols

    /** continiousSymbolParsing(c, i). */
    method ContinuousSymbolParsing(c: char, i: int)
      requires Valid()
      modifies this, lattice
      ensures Valid() && lattice == old(lattice)
      ensures State() == ContinuousStep(Cfg(), old(State()), c, i)
    {
      var curPos := "";
      if res.classes.isEnglish(c) {
        curPos := SL;
      } else if res.classes.isNumeric(c) {
        curPos := SN;
      } else if res.classes.isChinese(c) {
        curPos := SH;
      } else if res.classes.isForeign(c) {
        curPos := SL;
      }
      assert curPos == ContinuousClass(res.classes, c);
      ghost var next := RunStep(Buffer(prevPos, prevMorph, prevBeginIdx), curPos, c, i);
      SpanCallsOfOne(res, next.1);
      if curPos == prevPos {
        prevMorph := prevMorph + [c];
      } else {
        if prevPos == SL {
          lattice.Put(prevBeginIdx, i, prevMorph, prevPos, res.tagId(prevPos), res.slScore);
        } else if prevPos == SN {
          lattice.Put(prevBeginIdx, i, prevMorph, prevPos, res.tagId(prevPos), res.snScore);
        } else if prevPos == SH {
          lattice.Put(prevBeginIdx, i, prevMorph, prevPos, res.tagId(prevPos), res.shScore);
        }
        prevBeginIdx := i;
        prevMorph := [c];
        prevPos := curPos;
      }
    }

    /** consumeContiniousSymbolParserBuffer(in), for the unit string `units`. */
    method ConsumeBuffer(units: string)
      requires Valid()
      modifies lattice
      ensures Valid()
      ensures State() == ConsumeStep(Cfg(), old(State()), |units|)
    {
      ghost var spans := FlushRun(Buffer(prevPos, prevMorph, prevBeginIdx), |units|);
      if !IsBlank(prevPos) {
        if prevPos == SL {
          lattice.Put(prevBeginIdx, |units|, prevMorph, prevPos, res.tagId(prevPos), res.slScore);
        } else if prevPos == SH {
          lattice.Put(prevBeginIdx, |units|, prevMorph, prevPos, res.tagId(prevPos), res.shScore);
        } else if prevPos == SN {
          lattice.Put(prevBeginIdx, |units|, prevMorph, prevPos, res.tagId(prevPos), res.snScore);
        } else {
          assert spans == [];
        }
      } else {
        assert spans == [];
      }
      SpanCallsOfOne(res, spans);
    }

    // ------------------------------------------------------------ generic symbols

    /** symbolParsing(jaso, idx): whether it put an SW span. */
    method SymbolParsing(jaso: char, idx: int) returns (inserted: bool)
      requires Valid()
      modifies lattice
      ensures Valid()
      ensures inserted <==> !SymbolExcluded(res, jaso)
      ensures State() == SymbolStep(Cfg(), old(State()), jaso, idx)
    {
      var block := BlockOf(jaso);
      if res.classes.isDigit(jaso) {
        inserted := false;
      } else if block == BasicLatin {
        if ('A' <= jaso <= 'Z') || ('a' <= jaso <= 'z') {
          inserted := false;
        } else if GetValue(res.observation, [jaso]).Some? {
          inserted := false;
        } else if jaso == ' ' {
          inserted := false;
        } else {
          lattice.Put(idx, idx + 1, [jaso], SW, res.tagId(SW), res.swScore);
          inserted := true;
        }
      } else if IsHangulBlock(block) {
        inserted := false;
      } else if IsKatakanaBlock(block) {
        inserted := false;
      } else if IsCjkBlock(block) {
        inserted := false;
      } else {
        lattice.Put(idx, idx + 1, [jaso], SW, res.tagId(SW), res.swScore);
        inserted := true;
      }
      assert inserted == IsGenericSymbol(res, jaso);
    }

    // ------------------------------------------------------------ dictionary passes

    /** The loops userDicParsing and regularParsing share: for each morpheme of the match
        map, in the order `morphes` of its keySet, one put per scored tag over the span
        ending at curIndex. */
    method InsertMatches(morphes: seq<string>, m: map<string, seq<ScoredTag>>, curIndex: int)
      requires forall k :: 0 <= k < |morphes| ==> morphes[k] in m
      modifies lattice
      ensures lattice.calls == old(lattice.calls) + DictCalls(morphes, m, curIndex)
    {
      for k := 0 to |morphes|
        invariant lattice.calls == old(lattice.calls) + DictCalls(morphes[..k], m, curIndex)
      {
        var morph := morphes[k];
        var beginIdx := curIndex - |morph| + 1;
        var endIdx := curIndex + 1;
        var scoredTags := m[morph];
        InsertTags(beginIdx, endIdx, morph, scoredTags);
        DictCallsSnoc(morphes, m, curIndex, k);
      }
      assert morphes[..|morphes|] == morphes;
    }

    /** The inner loop: one put per scored tag of `morph`, in list order. */
    method InsertTags(beginIdx: int, endIdx: int, morph: string, scoredTags: seq<ScoredTag>)
      modifies lattice
      ensures lattice.calls == old(lattice.calls) + TagCalls(beginIdx, endIdx, morph, scoredTags)
    {
      for j := 0 to |scoredTags|
        invariant lattice.calls == old(lattice.calls) + TagCalls(beginIdx, endIdx, morph, scoredTags)[..j]
      {
        var scoredTag := scoredTags[j];
        TagCallsAt(beginIdx, endIdx, morph, scoredTags, j);
        lattice.Put(beginIdx, endIdx, morph, scoredTag.tag, scoredTag.tagId, scoredTag.score);
      }
      assert TagCalls(beginIdx, endIdx, morph, scoredTags)[..|scoredTags|]
             == TagCalls(beginIdx, endIdx, morph, scoredTags);
    }

    /** userDicParsing(jaso, curIndex): whether the user dictionary reported matches. */
    method UserDicParsing(jaso: char, curIndex: int) returns (found: bool)
      requires Valid()
      modifies this, lattice
      ensures Valid() && lattice == old(lattice)
      ensures found <==> UserMatches(Cfg(), old(State()), jaso).Some?
      ensures State() == UserDicStep(Cfg(), old(State()), jaso, curIndex)
    {
      if userDic.None? {
        return false;
      }
      userCursor := userCursor + [jaso];
      var morphScoredTagsMap := userDic.value.step(userCursor);
      if morphScoredTagsMap.None? {
        return false;
      }
      var morphes := res.keyOrder(morphScoredTagsMap.value.Keys);
      assert IsEnumeration(morphes, morphScoredTagsMap.value.Keys);
      InsertMatches(morphes, morphScoredTagsMap.value, curIndex);
      return true;
    }

    /** regularParsing(jaso, curIndex): whether the regular dictionary reported matches. */
    method RegularParsing(jaso: char, curIndex: int) returns (found: bool)
      requires Valid()
      modifies this, lattice
      ensures Valid() && lattice == old(lattice)
      ensures found <==> RegularMatches(Cfg(), old(State()), jaso).Some?
      ensures State() == RegularStep(Cfg(), old(State()), jaso, curIndex)
    {
      regularCursor := regularCursor + [jaso];
      var morphScoredTagsMap := res.observation.step(regularCursor);
      if morphScoredTagsMap.None? {
        return false;
      }
      var morphes := res.keyOrder(morphScoredTagsMap.value.Keys);
      assert IsEnumeration(morphes, morphScoredTagsMap.value.Keys);
      InsertMatches(morphes, morphScoredTagsMap.value, curIndex);
      return true;
    }

    /** irregularParsing(jaso, curIndex): whether the irregular dictionary reported matches. */
    method IrregularParsing(jaso: char, curIndex: int) returns (found: bool)
      requires Valid()
      modifies this, lattice
      ensures Valid() && lattice == old(lattice)
      ensures found <==> IrregularMatches(Cfg(), old(State()), jaso).Some?
      ensures State() == IrregularStep(Cfg(), old(State()), jaso, curIndex)
    {
      irregularCursor := irregularCursor + [jaso];
      var morphIrrNodesMap := res.irrTrie.step(irregularCursor);
      if morphIrrNodesMap.None? {
        return false;
      }
      var morphs := res.keyOrder(morphIrrNodesMap.value.Keys);
      assert IsEnumeration(morphs, morphIrrNodesMap.value.Keys);
      InsertIrregularMatches(morphs, morphIrrNodesMap.value, curIndex);
      return true;
    }

    /** irregularParsing's loops: for each morpheme of the match map, in the order `morphs`
        of its keySet,
        one irregular put per node over the span ending at curIndex. */
    method InsertIrregularMatches(morphs: seq<string>, m: map<string, seq<IrregularNode>>, curIndex: int)
      requires forall k :: 0 <= k < |morphs| ==> morphs[k] in m
      modifies lattice
      ensures lattice.calls == old(lattice.calls) + IrregularCalls(morphs, m, curIndex)
    {
      for k := 0 to |morphs|
        invariant lattice.calls == old(lattice.calls) + IrregularCalls(morphs[..k], m, curIndex)
      {
        var morph := morphs[k];
        var irrNodes := m[morph];
        var beginIdx := curIndex - |morph| + 1;
        var endIdx := curIndex + 1;
        InsertNodes(beginIdx, endIdx, irrNodes);
        IrregularCallsSnoc(morphs, m, curIndex, k);
      }
      assert morphs[..|morphs|] == morphs;
    }

    /** The inner loop of irregularParsing: one irregular put per node, in list order. */
    method InsertNodes(beginIdx: int, endIdx: int, irrNodes: seq<IrregularNode>)
      modifies lattice
      ensures lattice.calls == old(lattice.calls) + NodeCalls(beginIdx, endIdx, irrNodes)
    {
      for j := 0 to |irrNodes|
        invariant lattice.calls == old(lattice.calls) + NodeCalls(beginIdx, endIdx, irrNodes)[..j]
      {
        NodeCallsAt(beginIdx, endIdx, irrNodes, j);
        lattice.PutIrregular(beginIdx, endIdx, irrNodes[j]);
      }
      assert NodeCalls(beginIdx, endIdx, irrNodes)[..|irrNodes|] == NodeCalls(beginIdx, endIdx, irrNodes);
    }

    // ------------------------------------------------------------ irregular extension

    /** irregularExtends(jaso, curIndex). The HashSet of pending nodes is a sequence in
        insertion order, appended in the order the set iterates in. */
    method IrregularExtends(jaso: char, curIndex: int)
      requires Valid()
      modifies lattice
      ensures Valid()
      ensures State() == ExtendStep(Cfg(), old(State()), jaso, curIndex)
    {
      var prevLatticeNodes := lattice.GetNodeList(curIndex);
      if prevLatticeNodes.None? {
        return;
      }
      var nodes := prevLatticeNodes.value;
      var extendedIrrNodeList := ExtendNodes(nodes, jaso, curIndex);
      ghost var pending := PendingExtensions(res, nodes, jaso, curIndex);
      var order := res.setOrder(|extendedIrrNodeList|);
      assert IsPermutation(order, |extendedIrrNodeList|);
      AppendPending(extendedIrrNodeList, pending, order);
    }

    /** irregularExtends' loop over the node list: the resolving puts in list order, and
        the pending extensions built along the way. */
    method ExtendNodes(nodes: seq<NodeValue>, jaso: char, curIndex: int)
      returns (extendedIrrNodeList: seq<LatticeNode>)
      modifies lattice
      ensures lattice.calls == old(lattice.calls) + ResolvedExtensions(res, nodes, jaso, curIndex)
      ensures Holds(extendedIrrNodeList, PendingExtensions(res, nodes, jaso, curIndex))
    {
      extendedIrrNodeList := [];
      NothingAppended(old(lattice.calls));
      for k := 0 to |nodes|
        invariant lattice.calls == old(lattice.calls) + ResolvedExtensions(res, nodes[..k], jaso, curIndex)
        invariant Holds(extendedIrrNodeList, PendingExtensions(res, nodes[..k], jaso, curIndex))
      {
        ghost var before := lattice.calls;
        var extended := ExtendNode(nodes[k], jaso, curIndex);
        ResolvedStep(res, nodes, jaso, curIndex, k, old(lattice.calls), before, lattice.calls);
        PendingStep(res, nodes, jaso, curIndex, k, extendedIrrNodeList, extended);
        if extended.Some? {
          extendedIrrNodeList := extendedIrrNodeList + [extended.value];
        }
      }
      assert nodes[..|nodes|] == nodes;
    }

    /** The body of irregularExtends' loop for one node: the pending extension it builds
        through the setters when the node can grow, and the puts that resolve it. */
    method ExtendNode(prevLatticeNode: NodeValue, jaso: char, curIndex: int) returns (extended: Option<LatticeNode>)
      modifies lattice
      ensures lattice.calls == old(lattice.calls) + ResolvedOf(res, prevLatticeNode, jaso, curIndex)
      ensures extended.Some? <==> Grows(res, prevLatticeNode, jaso)
      ensures extended.Some? ==> fresh(extended.value) && extended.value.morphTag.Some?
                                 && extended.value.View() == Extended(res, prevLatticeNode, jaso, curIndex)
    {
      extended := None;
      if prevLatticeNode.morphTag.tagId == res.irregularId {
        var lastMorph := prevLatticeNode.morphTag.morph;
        if HasChild(res.observation, lastMorph + [jaso]) {
          var extendedIrregularNode := new LatticeNode.Blank();
          extendedIrregularNode.SetBeginIdx(prevLatticeNode.beginIdx);
          extendedIrregularNode.SetEndIdx(curIndex + 1);
          extendedIrregularNode.SetMorphTag(
            Some(MorphTag(prevLatticeNode.morphTag.morph + [jaso], res.irregularTag, res.irregularId)));
          extendedIrregularNode.SetPrevNodeIdx(prevLatticeNode.prevNodeIdx);
          extendedIrregularNode.SetScore(prevLatticeNode.score);
          extended := Some(extendedIrregularNode);
        }
        var lastScoredTags := GetValue(res.observation, lastMorph + [jaso]);
        if lastScoredTags.Some? {
          InsertTags(prevLatticeNode.beginIdx, curIndex + 1, prevLatticeNode.morphTag.morph + [jaso],
                     lastScoredTags.value);
        }
      }
    }

    /** The last loop of irregularExtends: every pending node is appended, in the order
        `order` the HashSet iterates in. */
    method AppendPending(extendedIrrNodeList: seq<LatticeNode>, ghost pending: seq<NodeValue>,
                         order: seq<nat>)
      requires Holds(extendedIrrNodeList, pending) && IsPermutation(order, |pending|)
      modifies lattice
      ensures lattice.calls == old(lattice.calls) + Appends(pending, order)
    {
      for k := 0 to |order|
        invariant lattice.calls == old(lattice.calls) + Appends(pending, order)[..k]
      {
        AppendsAt(pending, order, k);
        lattice.AppendNode(extendedIrrNodeList[order[k]]);
      }
      assert Appends(pending, order)[..|order|] == Appends(pending, order);
    }

    // ------------------------------------------------------------ analyze

    /** The six passes, in the order both entry points run them on unit c at index i. */
    method RunPasses(c: char, i: int)
      requires Valid()
      modifies this, lattice
      ensures Valid() && lattice == old(lattice)
      ensures State() == UnitStep(Cfg(), old(State()), c, i)
    {
      ContinuousSymbolParsing(c, i);
      var inserted := SymbolParsing(c, i);
      var found := UserDicParsing(c, i);
      found := RegularParsing(c, i);
      found := IrregularParsing(c, i);
      IrregularExtends(c, i);
    }

    /** The passes over every unit of u, in order. */
    method ScanUnits(u: string)
      requires Valid()
      modifies this, lattice
      ensures Valid() && lattice == old(lattice)
      ensures State() == ScanPrefix(Cfg(), old(State()), u, |u|)
    {
      ghost var s0 := State();
      for i := 0 to |u|
        invariant Valid() && lattice == old(lattice)
        invariant State() == ScanPrefix(Cfg(), s0, u, i)
      {
        RunPasses(u[i], i);
      }
    }

    /** The resets at the head of analyze's loop body: the trie cursors, a new lattice and
        the run buffer. */
    method ResetForToken()
      requires Valid()
      modifies this
      ensures Valid() && fresh(lattice)
      ensures State() == Start
    {
      irregularCursor := [];
      regularCursor := [];
      if userDic.Some? {
        userCursor := [];
      }
      lattice := new Lattice(res.lattice);
      prevPos, prevMorph, prevBeginIdx := "", "", 0;
    }

    /** From the reset state: the passes over a token's units, the flush of the run
        buffer, setLastIdx and appendEndNode. */
    method ScanToken(u: string)
      requires Valid() && State() == Start
      modifies this, lattice
      ensures Valid() && lattice == old(lattice)
      ensures State() == TokenScan(Cfg(), u)
    {
      ScanUnits(u);
      FinishToken(u);
    }

    /** The flush of the run buffer over u, setLastIdx(|u|) and appendEndNode(). */
    method FinishToken(u: string)
      requires Valid()
      modifies lattice
      ensures Valid()
      ensures State() == TokenEnd(Cfg(), old(State()), |u|)
    {
      ConsumeBuffer(u);
      lattice.SetLastIdx(|u|);
      var inserted := lattice.AppendEndNode();
    }

    /** The body of analyze's loop for a trimmed, non-blank token: the forward-dictionary
        pairs, then the cursors, lattice and buffer reset, the passes over the token's
        units, the flush, the end node, and the pairs of the best path. */
    method AnalyzeOneToken(token: string) returns (pairs: seq<Pair>)
      requires Valid()
      modifies this
      ensures Valid() && fresh(lattice)
      ensures pairs == AnalyzeToken(Cfg(), fwd, token).pairs
      ensures State() == AnalyzeToken(Cfg(), fwd, token).scan
    {
      var fwdLookupResult := LookupFwd(fwd, token);
      pairs := if fwdLookupResult.Some? then fwdLookupResult.value else [];
      ResetForToken();
      var jasoUnits := res.parse(token);
      ScanToken(jasoUnits);
      var shortestPathList := lattice.FindPath();
      if shortestPathList.None? {
        pairs := pairs + [Pair(token, NA)];
      } else {
        pairs := pairs + Reverse(shortestPathList.value);
      }
    }

    /** analyze(sentence): None is Java's null, returned at the first blank token. */
    method Analyze(sentence: string) returns (r: Option<seq<Pair>>)
      requires Valid()
      modifies this
      ensures Valid()
      ensures r == AnalyzeSpec(Cfg(), fwd, sentence, old(State())).result
      ensures State() == AnalyzeSpec(Cfg(), fwd, sentence, old(State())).last
    {
      var resultList: seq<Pair> := [];
      var tokens := JavaSplit(sentence, ' ');
      ghost var outs := TokenOuts(Cfg(), fwd, tokens);
      ghost var init := State();
      for k := 0 to |tokens|
        invariant Valid()
        invariant AnalyzeTokens(outs[..k], init) == Outcome(Some(resultList), State())
      {
        AnalyzeTokensSnoc(outs, init, k);
        var token := Trim(tokens[k]);
        if |token| == 0 {
          NullStays(outs, init, k + 1);
          return None;
        }
        var pairs := AnalyzeOneToken(token);
        resultList := resultList + pairs;
      }
      assert outs[..|tokens|] == outs;
      r := Some(resultList);
    }

    // ------------------------------------------------------------ analyzeWithSpacing

    /** setLastIdx(end) and appendEndNode(); when no node reached end, the NA node over
        the units after prevStart and a second appendEndNode(). A Java exception is
        returned as its class name, with the calls made before it kept. */
    method FinaliseAt(u: string, prevStart: int, end: int) returns (thrown: Option<string>)
      requires Valid() && -1 <= prevStart < end <= |u|
      modifies lattice
      ensures Valid()
      ensures (lattice.calls, thrown) == Finalise(res, u, old(lattice.calls), prevStart, end)
    {
      thrown := None;
      lattice.SetLastIdx(end);
      var inserted := lattice.AppendEndNode();
      assert lattice.calls == old(lattice.calls) + [SetLastIdx(end), AppendEnd];
      if !inserted {
        var morphTag := MorphTag(u[prevStart + 1..end], NA, res.tagId(NA));
        var nodeList := lattice.GetNodeList(prevStart);
        if nodeList.None? {
          return Some("NullPointerException");
        }
        if nodeList.value == [] {
          return Some("IndexOutOfBoundsException");
        }
        var latticeNode := new LatticeNode(prevStart + 1, end, Some(morphTag), nodeList.value[0].score);
        latticeNode.SetPrevNodeIdx(0);
        lattice.AppendNode(latticeNode);
        inserted := lattice.AppendEndNode();
        ghost var c2 := old(lattice.calls) + [SetLastIdx(end), AppendEnd];
        assert lattice.calls == c2 + [Append(NaNode(res, u, prevStart + 1, end, nodeList.value[0].score)), AppendEnd];
      }
    }

    /** analyzeWithSpacing's loop over the units of u, stopped by the first exception. */
    method SpacingLoop(u: string) returns (prevStartSymbolIdx: int, thrown: Option<string>, ghost n: nat)
      requires Valid()
      modifies this, lattice
      ensures Valid() && lattice == old(lattice)
      ensures n <= |u| && (thrown.None? ==> n == |u|)
      ensures SpacingPrefix(Cfg(), old(State()), u, n) == Spacing(State(), prevStartSymbolIdx, thrown)
    {
      prevStartSymbolIdx := -1;
      thrown := None;
      for i := 0 to |u|
        invariant Valid() && lattice == old(lattice)
        invariant SpacingPrefix(Cfg(), old(State()), u, i) == Spacing(State(), prevStartSymbolIdx, None)
      {
        var next, t := SpacingIteration(u, i, prevStartSymbolIdx, old(State()));
        if t.Some? {
          n, thrown, prevStartSymbolIdx := i + 1, t, next;
          return;
        }
        prevStartSymbolIdx := next;
      }
      n := |u|;
    }

    /** One iteration of analyzeWithSpacing's loop at unit i: at a space the lattice is
        finalised there and i becomes prevStartSymbolIdx; then the six passes run. */
    method SpacingIteration(u: string, i: nat, prevStart: int, ghost s0: Scan) returns (next: int, thrown: Option<string>)
      requires Valid() && i < |u| && SpacingPrefix(Cfg(), s0, u, i) == Spacing(State(), prevStart, None)
      modifies this, lattice
      ensures Valid() && lattice == old(lattice)
      ensures SpacingPrefix(Cfg(), s0, u, i + 1) == Spacing(State(), next, thrown)
    {
      next := prevStart;
      thrown := None;
      if u[i] == ' ' {
        thrown := FinaliseAt(u, prevStart, i);
        if thrown.Some? {
          return;
        }
        next := i;
      }
      RunPasses(u[i], i);
    }

    /** After the loop: the flush of the run buffer and the finalisation at the end. */
    method SpacingFinish(u: string, prevStart: int) returns (thrown: Option<string>)
      requires Valid() && -1 <= prevStart < |u|
      modifies lattice
      ensures Valid()
      ensures SpacingClose(Cfg(), u, Spacing(old(State()), prevStart, None)) == Spacing(State(), prevStart, thrown)
    {
      ConsumeBuffer(u);
      thrown := FinaliseAt(u, prevStart, |u|);
    }

    /** analyzeWithSpacing(sentence): the whole sentence in one lattice, finalised at every
        space. The trie cursors are not reset. */
    method AnalyzeWithSpacing(sentence: string) returns (r: Result<seq<Pair>>)
      requires Valid()
      modifies this
      ensures Valid() && fresh(lattice)
      ensures r == SpacingResult(Cfg(), old(State()).cursors, sentence)
      ensures State() == SpacingEnd(Cfg(), Scan([], EmptyBuffer, old(State()).cursors), res.parse(sentence)).scan
    {
      lattice := new Lattice(res.lattice);
      prevPos, prevMorph, prevBeginIdx := "", "", 0;
      var jasoUnits := res.parse(sentence);
      ghost var s0 := State();
      var prevStartSymbolIdx, thrown, n := SpacingLoop(jasoUnits);
      if thrown.Some? {
        ThrownStays(Cfg(), s0, jasoUnits, n);
        return Thrown(thrown.value);
      }
      thrown := SpacingFinish(jasoUnits, prevStartSymbolIdx);
      if thrown.Some? {
        return Thrown(thrown.value);
      }
      var shortestPathList := lattice.FindPath();
      if shortestPathList.None? {
        r := Ok([Pair(sentence, NA)]);
      } else {
        r := Ok(Reverse(shortestPathList.value));
      }
    }
  }

  /** The nodes of `list` have their morphTag set and hold the values `pending`, in order. */
  ghost predicate Holds(list: seq<LatticeNode>, pending: seq<NodeValue>)
    reads list
  {
    |list| == |pending|
    && forall j :: 0 <= j < |list| ==> list[j].morphTag.Some? && list[j].View() == pending[j]
  }

  lemma NothingAppended(calls: seq<LatticeCall>)
    ensures calls + [] == calls
  {
  }

  /** The calls of irregularExtends' loop one node further. */
  lemma ResolvedStep(res: Resources, nodes: seq<NodeValue>, c: char, i: int, k: nat,
                     c0: seq<LatticeCall>, before: seq<LatticeCall>, after: seq<LatticeCall>)
    requires k < |nodes|
    requires before == c0 + ResolvedExtensions(res, nodes[..k], c, i)
    requires after == before + ResolvedOf(res, nodes[k], c, i)
    ensures after == c0 + ResolvedExtensions(res, nodes[..k + 1], c, i)
  {
    ResolvedSnoc(res, nodes, c, i, k);
  }

  /** The pending nodes of irregularExtends' loop one node further. */
  lemma PendingStep(res: Resources, nodes: seq<NodeValue>, c: char, i: int, k: nat,
                    list: seq<LatticeNode>, extended: Option<LatticeNode>)
    requires k < |nodes| && Holds(list, PendingExtensions(res, nodes[..k], c, i))
    requires extended.Some? <==> Grows(res, nodes[k], c)
    requires extended.Some? ==> extended.value.morphTag.Some?
                                && extended.value.View() == Extended(res, nodes[k], c, i)
    ensures extended.Some? ==> Holds(list + [extended.value], PendingExtensions(res, nodes[..k + 1], c, i))
    ensures extended.None? ==> Holds(list, PendingExtensions(res, nodes[..k + 1], c, i))
  {
    PendingSnoc(res, nodes, c, i, k);
  }

  /** The puts for at most one span. */
  lemma SpanCallsOfOne(res: Resources, spans: seq<Span>)
    requires |spans| <= 1
    ensures SpanCalls(res, spans) == if spans == [] then [] else [SpanCall(res, spans[0])]
  {
  }

  lemma TagCallsAt(b: int, e: int, morph: string, tags: seq<ScoredTag>, j: nat)
    requires j < |tags|
    ensures TagCalls(b, e, morph, tags)[..j + 1]
              == TagCalls(b, e, morph, tags)[..j] + [Put(b, e, morph, tags[j].tag, tags[j].tagId, tags[j].score)]
  {
    var r := TagCalls(b, e, morph, tags);
    assert r[..j + 1] == r[..j] + [r[j]];
  }

  lemma NodeCallsAt(b: int, e: int, nodes: seq<IrregularNode>, j: nat)
    requires j < |nodes|
    ensures NodeCalls(b, e, nodes)[..j + 1] == NodeCalls(b, e, nodes)[..j] + [PutIrregular(b, e, nodes[j])]
  {
    var r := NodeCalls(b, e, nodes);
    assert r[..j + 1] == r[..j] + [r[j]];
  }

  lemma DictCallsSnoc(order: seq<string>, m: map<string, seq<ScoredTag>>, i: int, k: nat)
    requires k < |order| && forall j :: 0 <= j < |order| ==> order[j] in m
    ensures DictCalls(order[..k + 1], m, i)
              == DictCalls(order[..k], m, i) + TagCalls(i - |order[k]| + 1, i + 1, order[k], m[order[k]])
  {
    assert order[..k + 1][..k] == order[..k];
  }

  lemma IrregularCallsSnoc(order: seq<string>, m: map<string, seq<IrregularNode>>, i: int, k: nat)
    requires k < |order| && forall j :: 0 <= j < |order| ==> order[j] in m
    ensures IrregularCalls(order[..k + 1], m, i)
              == IrregularCalls(order[..k], m, i) + NodeCalls(i - |order[k]| + 1, i + 1, m[order[k]])
  {
    assert order[..k + 1][..k] == order[..k];
  }

  lemma PendingSnoc(res: Resources, nodes: seq<NodeValue>, c: char, i: int, k: nat)
    requires k < |nodes|
    ensures PendingExtensions(res, nodes[..k + 1], c, i)
              == PendingExtensions(res, nodes[..k], c, i)
                 + if Grows(res, nodes[k], c) then [Extended(res, nodes[k], c, i)] else []
  {
    assert nodes[..k + 1][..k] == nodes[..k];
  }

  lemma ResolvedSnoc(res: Resources, nodes: seq<NodeValue>, c: char, i: int, k: nat)
    requires k < |nodes|
    ensures ResolvedExtensions(res, nodes[..k + 1], c, i)
              == ResolvedExtensions(res, nodes[..k], c, i) + ResolvedOf(res, nodes[k], c, i)
  {
    assert nodes[..k + 1][..k] == nodes[..k];
  }

  lemma AppendsAt(pending: seq<NodeValue>, order: seq<nat>, k: nat)
    requires forall j :: 0 <= j < |order| ==> order[j] < |pending|
    requires k < |order|
    ensures Appends(pending, order)[..k + 1] == Appends(pending, order)[..k] + [Append(pending[order[k]])]
  {
    var r := Appends(pending, order);
    assert r[..k + 1] == r[..k] + [r[k]];
  }
}
