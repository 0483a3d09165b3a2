/** The six lattice-population passes of Komoran.java as functions of the scan state: the
    calls made on the lattice so far, the continuous-symbol buffer and the three trie
    cursors. The Komoran class (komoran.dfy) is proved to change its state exactly as these
    functions say. */
module Passes {
  import opened Wrappers
  import opened KomoranTypes
  import opened UnicodeBlocks
  import opened SymbolRuns
  import opened Orders

  /** The units each trie has been fed since its cursor was last reset. */
  datatype Cursors = Cursors(regular: seq<char>, irregular: seq<char>, user: seq<char>)

  /** Everything a pass reads or changes. */
  datatype Scan = Scan(calls: seq<LatticeCall>, buffer: Buffer, cursors: Cursors)

  /** What stays fixed during an analysis: the resources and the optional user dictionary. */
  datatype Config = Config(res: Resources, userDic: Option<Trie<seq<ScoredTag>>>)

  ghost predicate ValidConfig(cfg: Config) {
    ValidResources(cfg.res)
  }

  /** A pass only ever adds calls to the lattice: `after` starts with `before`. */
  predicate Extends(before: seq<LatticeCall>, after: seq<LatticeCall>) {
    |before| <= |after| && after[..|before|] == before
  }

  // ---------------------------------------------------------------- continuous symbols

  /** The class continiousSymbolParsing gives a unit (the first test that holds wins). */
  function ContinuousClass(cc: CharClasses, c: char): (pos: string)
    ensures pos == "" || IsRunClass(pos)
  {
    if cc.isEnglish(c) then SL
    else if cc.isNumeric(c) then SN
    else if cc.isChinese(c) then SH
    else if cc.isForeign(c) then SL
    else ""
  }

  /** SCORE.SL, SCORE.SN or SCORE.SH. */
  function ClassScore(res: Resources, pos: string): Score {
    if pos == SL then res.slScore else if pos == SN then res.snScore else res.shScore
  }

  /** The lattice.put that makes a detected run into a lattice span. */
  function SpanCall(res: Resources, sp: Span): LatticeCall {
    Put(sp.beginIdx, sp.endIdx, sp.morph, sp.pos, res.tagId(sp.pos), ClassScore(res, sp.pos))
  }

  function SpanCalls(res: Resources, spans: seq<Span>): (r: seq<LatticeCall>)
    ensures |r| == |spans|
  {
    seq(|spans|, k requires 0 <= k < |spans| => SpanCall(res, spans[k]))
  }

  /** continiousSymbolParsing(c, i): the run buffer takes one step, and a run that the step
      closes becomes one put over `[prevBeginIdx, i)`; the cursors are not touched. */
  function ContinuousStep(cfg: Config, s: Scan, c: char, i: int): (r: Scan)
    ensures r.cursors == s.cursors && Extends(s.calls, r.calls)
    ensures r.buffer == RunStep(s.buffer, ContinuousClass(cfg.res.classes, c), c, i).0
    ensures |r.calls| <= |s.calls| + 1
    ensures |r.calls| == |s.calls| + 1 <==>
              ContinuousClass(cfg.res.classes, c) != s.buffer.pos && IsRunClass(s.buffer.pos)
    ensures |r.calls| == |s.calls| + 1 ==>
              r.calls[|s.calls|] == SpanCall(cfg.res, Span(s.buffer.beginIdx, i, s.buffer.morph, s.buffer.pos))
  {
    var next := RunStep(s.buffer, ContinuousClass(cfg.res.classes, c), c, i);
    s.(calls := s.calls + SpanCalls(cfg.res, next.1), buffer := next.0)
  }

  /** consumeContiniousSymbolParserBuffer over a unit string of length n: a buffered run of
      class SL, SN or SH becomes one put over `[prevBeginIdx, n)`. */
  function ConsumeStep(cfg: Config, s: Scan, n: int): (r: Scan)
    ensures r.cursors == s.cursors && r.buffer == s.buffer && Extends(s.calls, r.calls)
    ensures |r.calls| <= |s.calls| + 1
    ensures |r.calls| == |s.calls| + 1 <==> IsRunClass(s.buffer.pos)
    ensures |r.calls| == |s.calls| + 1 ==>
              r.calls[|s.calls|] == SpanCall(cfg.res, Span(s.buffer.beginIdx, n, s.buffer.morph, s.buffer.pos))
  {
    s.(calls := s.calls + SpanCalls(cfg.res, FlushRun(s.buffer, n)))
  }

  // ---------------------------------------------------------------- generic symbols

  predicate IsAsciiLetter(c: char) {
    ('A' <= c <= 'Z') || ('a' <= c <= 'z')
  }

  /** The units symbolParsing leaves alone: digits, ASCII letters, the space, ASCII units
      the regular dictionary holds on their own, and Hangul, Katakana and CJK units. */
  predicate SymbolExcluded(res: Resources, c: char) {
    res.classes.isDigit(c) || IsAsciiLetter(c) || c == ' '
    || (c as int <= 0x7F && [c] in res.observation.entries)
    || IsHangulBlock(BlockOf(c)) || IsKatakanaBlock(BlockOf(c)) || IsCjkBlock(BlockOf(c))
  }

  /** The decision symbolParsing takes for unit c: true when it inserts an SW span. */
  function IsGenericSymbol(res: Resources, c: char): (r: bool)
    ensures r <==> !SymbolExcluded(res, c)
  {
    var block := BlockOf(c);
    if res.classes.isDigit(c) then false
    else if block == BasicLatin then
      if IsAsciiLetter(c) then false
      else if GetValue(res.observation, [c]).Some? then false
      else if c == ' ' then false
      else true
    else if IsHangulBlock(block) then false
    else if IsKatakanaBlock(block) then false
    else if IsCjkBlock(block) then false
    else true
  }

  /** symbolParsing(c, i): one SW put over `[i, i+1)` holding the unit, or nothing. */
  function SymbolStep(cfg: Config, s: Scan, c: char, i: int): (r: Scan)
    ensures r.cursors == s.cursors && r.buffer == s.buffer && Extends(s.calls, r.calls)
    ensures r.calls != s.calls <==> !SymbolExcluded(cfg.res, c)
    ensures r.calls != s.calls ==>
              r.calls == s.calls + [Put(i, i + 1, [c], SW, cfg.res.tagId(SW), cfg.res.swScore)]
  {
    if IsGenericSymbol(cfg.res, c) then
      s.(calls := s.calls + [Put(i, i + 1, [c], SW, cfg.res.tagId(SW), cfg.res.swScore)])
    else s
  }

  // ---------------------------------------------------------------- dictionary matches

  /** One lattice.put per scored tag of morpheme `morph` over `[b, e)`, in list order. */
  function TagCalls(b: int, e: int, morph: string, tags: seq<ScoredTag>): (r: seq<LatticeCall>)
    ensures |r| == |tags|
  {
    seq(|tags|, k requires 0 <= k < |tags| => Put(b, e, morph, tags[k].tag, tags[k].tagId, tags[k].score))
  }

  /** The puts for one morpheme are puts over its span carrying its tags, and no tag of it
      is missed. */
  lemma TagCallsMeaning(b: int, e: int, morph: string, tags: seq<ScoredTag>)
    ensures forall k :: 0 <= k < |TagCalls(b, e, morph, tags)| ==>
              var r := TagCalls(b, e, morph, tags);
              r[k].Put? && r[k].beginIdx == b && r[k].endIdx == e && r[k].morph == morph
              && ScoredTag(r[k].tag, r[k].tagId, r[k].score) in tags
    ensures forall t :: t in tags ==> Put(b, e, morph, t.tag, t.tagId, t.score) in TagCalls(b, e, morph, tags)
  {
    var r := TagCalls(b, e, morph, tags);
    forall t | t in tags
      ensures Put(b, e, morph, t.tag, t.tagId, t.score) in r
    {
      var k :| 0 <= k < |tags| && tags[k] == t;
      assert r[k] == Put(b, e, morph, t.tag, t.tagId, t.score);
    }
  }

  /** A put for a match `morph` of `m` ending at unit i: it ends at i+1, spans |morph|
      units, and carries one of the tags stored under morph. */
  predicate IsDictSpan(call: LatticeCall, m: map<string, seq<ScoredTag>>, i: int) {
    call.Put? && call.endIdx == i + 1 && call.endIdx - call.beginIdx == |call.morph|
    && call.morph in m && ScoredTag(call.tag, call.tagId, call.score) in m[call.morph]
  }

  /** The puts a dictionary pass makes for the matches `m` ending at unit i, visiting the
      morphemes in `order` (the keySet's iteration order). */
  function DictCalls(order: seq<string>, m: map<string, seq<ScoredTag>>, i: int): seq<LatticeCall>
    requires forall k :: 0 <= k < |order| ==> order[k] in m
  {
    if order == [] then []
    else
      var morph := order[|order| - 1];
      DictCalls(order[..|order| - 1], m, i) + TagCalls(i - |morph| + 1, i + 1, morph, m[morph])
  }

  /** Every put a dictionary pass makes is a match span of a visited morpheme. */
  lemma {:induction false} DictCallsAreMatchSpans(order: seq<string>, m: map<string, seq<ScoredTag>>, i: int)
    requires forall k :: 0 <= k < |order| ==> order[k] in m
    ensures forall k :: 0 <= k < |DictCalls(order, m, i)| ==>
              IsDictSpan(DictCalls(order, m, i)[k], m, i) && DictCalls(order, m, i)[k].morph in order
  {
    if order != [] {
      var front' := order[..|order| - 1];
      var morph := order[|order| - 1];
      DictCallsAreMatchSpans(front', m, i);
      var front := DictCalls(front', m, i);
      var last := TagCalls(i - |morph| + 1, i + 1, morph, m[morph]);
      forall k | 0 <= k < |front + last|
        ensures IsDictSpan((front + last)[k], m, i) && (front + last)[k].morph in order
      {
        if k < |front| {
          var j :| 0 <= j < |front'| && front'[j] == front[k].morph;
          assert order[j] == front[k].morph;
        } else {
          assert (front + last)[k] == last[k - |front|];
        }
      }
    }
  }

  /** Every scored tag of every visited match gets its put. */
  lemma {:induction false} DictCallsCoverMatches(order: seq<string>, m: map<string, seq<ScoredTag>>, i: int)
    requires forall k :: 0 <= k < |order| ==> order[k] in m
    ensures forall key, t :: key in order && key in m && t in m[key] ==>
              Put(i - |key| + 1, i + 1, key, t.tag, t.tagId, t.score) in DictCalls(order, m, i)
  {
    if order != [] {
      var front' := order[..|order| - 1];
      var morph := order[|order| - 1];
      DictCallsCoverMatches(front', m, i);
      var front := DictCalls(front', m, i);
      var last := TagCalls(i - |morph| + 1, i + 1, morph, m[morph]);
      assert DictCalls(order, m, i) == front + last;
      forall key, t | key in order && key in m && t in m[key]
        ensures Put(i - |key| + 1, i + 1, key, t.tag, t.tagId, t.score) in front + last
      {
        if key != morph {
          var j :| 0 <= j < |order| && order[j] == key;
          assert front'[j] == key;
          assert Put(i - |key| + 1, i + 1, key, t.tag, t.tagId, t.score) in front;
        } else {
          TagCallsMeaning(i - |morph| + 1, i + 1, morph, m[morph]);
        }
      }
    }
  }

  /** The puts for the matches under `keys` as an order-free multiset: the puts of every
      scored tag of every key, whatever order the keys are visited in. */
  ghost function DictBag(keys: set<string>, m: map<string, seq<ScoredTag>>, i: int): multiset<LatticeCall>
    requires keys <= m.Keys
    decreases keys
  {
    if keys == {} then multiset{}
    else
      var key :| key in keys;
      DictBag(keys - {key}, m, i) + multiset(TagCalls(i - |key| + 1, i + 1, key, m[key]))
  }

  /** Any key can be taken out of the bag first. */
  lemma {:induction false} DictBagRemove(keys: set<string>, m: map<string, seq<ScoredTag>>, i: int, key: string)
    requires keys <= m.Keys && key in keys
    ensures DictBag(keys, m, i) == DictBag(keys - {key}, m, i) + multiset(TagCalls(i - |key| + 1, i + 1, key, m[key]))
    decreases keys
  {
    var k0 :| k0 in keys && DictBag(keys, m, i)
                 == DictBag(keys - {k0}, m, i) + multiset(TagCalls(i - |k0| + 1, i + 1, k0, m[k0]));
    if k0 != key {
      DictBagRemove(keys - {k0}, m, i, key);
      DictBagRemove(keys - {key}, m, i, k0);
      assert keys - {k0} - {key} == keys - {key} - {k0};
    }
  }

  /** Visiting the keys in any enumeration order puts exactly the calls of the bag. */
  lemma {:induction false} DictCallsBag(order: seq<string>, keys: set<string>, m: map<string, seq<ScoredTag>>, i: int)
    requires keys <= m.Keys && IsEnumeration(order, keys)
    ensures multiset(DictCalls(order, m, i)) == DictBag(keys, m, i)
  {
    if order == [] {
      assert keys == {};
    } else {
      EnumerationFront(order, keys);
      DictCallsBag(order[..|order| - 1], keys - {order[|order| - 1]}, m, i);
      DictBagStep(order[..|order| - 1], order[|order| - 1], keys, m, i);
      assert order[..|order| - 1] + [order[|order| - 1]] == order;
    }
  }

  /** The induction step of DictCallsBag: the last visited key adds its puts to the bag of
      the keys before it. */
  lemma DictBagStep(front: seq<string>, last: string, keys: set<string>, m: map<string, seq<ScoredTag>>, i: int)
    requires keys <= m.Keys && last in keys && forall k :: 0 <= k < |front| ==> front[k] in m
    requires multiset(DictCalls(front, m, i)) == DictBag(keys - {last}, m, i)
    ensures multiset(DictCalls(front + [last], m, i)) == DictBag(keys, m, i)
  {
    DictBagRemove(keys, m, i, last);
    DictCallsLastBag(front, last, m, i);
  }

  /** The calls of the last visited key come after those of the keys before it, as a bag. */
  lemma DictCallsLastBag(front: seq<string>, last: string, m: map<string, seq<ScoredTag>>, i: int)
    requires last in m && forall k :: 0 <= k < |front| ==> front[k] in m
    ensures multiset(DictCalls(front + [last], m, i)) == multiset(DictCalls(front, m, i)) + multiset(TagCalls(i - |last| + 1, i + 1, last, m[last]))
  {
    assert (front + [last])[..|front|] == front;
  }

  /** The puts of one morpheme carry that morpheme, and each scored tag is put as often as
      the list holds it. */
  lemma {:induction false} TagCallsCount(b: int, e: int, morph: string, tags: seq<ScoredTag>, call: LatticeCall)
    ensures call.Put? && call.beginIdx == b && call.endIdx == e && call.morph == morph ==>
              multiset(TagCalls(b, e, morph, tags))[call] == multiset(tags)[ScoredTag(call.tag, call.tagId, call.score)]
    ensures !(call.Put? && call.morph == morph) ==> multiset(TagCalls(b, e, morph, tags))[call] == 0
  {
    if tags != [] {
      var front := tags[..|tags| - 1];
      var t := tags[|tags| - 1];
      TagCallsCount(b, e, morph, front, call);
      assert tags == front + [t];
      assert TagCalls(b, e, morph, tags) == TagCalls(b, e, morph, front) + [Put(b, e, morph, t.tag, t.tagId, t.score)];
    }
  }

  /** Every put in the bag is over one of its keys. */
  lemma {:induction false} DictBagMorphs(keys: set<string>, m: map<string, seq<ScoredTag>>, i: int, call: LatticeCall)
    requires keys <= m.Keys
    ensures !(call.Put? && call.morph in keys) ==> DictBag(keys, m, i)[call] == 0
    decreases keys
  {
    if keys != {} {
      var k0 :| k0 in keys && DictBag(keys, m, i)
                   == DictBag(keys - {k0}, m, i) + multiset(TagCalls(i - |k0| + 1, i + 1, k0, m[k0]));
      DictBagMorphs(keys - {k0}, m, i, call);
      TagCallsCount(i - |k0| + 1, i + 1, k0, m[k0], call);
    }
  }

  /** Exactly one put per scored tag of every match: the put of tag t over the span of
      `key` occurs as often as t is stored under `key`. */
  lemma DictBagCount(m: map<string, seq<ScoredTag>>, i: int, key: string, t: ScoredTag)
    requires key in m
    ensures DictBag(m.Keys, m, i)[Put(i - |key| + 1, i + 1, key, t.tag, t.tagId, t.score)] == multiset(m[key])[t]
  {
    var call := Put(i - |key| + 1, i + 1, key, t.tag, t.tagId, t.score);
    DictBagRemove(m.Keys, m, i, key);
    DictBagMorphs(m.Keys - {key}, m, i, call);
    TagCallsCount(i - |key| + 1, i + 1, key, m[key], call);
  }

  /** An irregular put for a match of `m` ending at unit i: it ends at i+1, spans as many
      units as the matched morpheme, and carries one of the nodes stored under it. */
  predicate IsIrregularSpan(call: LatticeCall, m: map<string, seq<IrregularNode>>, i: int) {
    call.PutIrregular? && call.endIdx == i + 1
    && exists key :: key in m && call.endIdx - call.beginIdx == |key| && call.irregular in m[key]
  }

  /** The irregular puts for the node list of one morpheme. */
  function NodeCalls(b: int, e: int, nodes: seq<IrregularNode>): (r: seq<LatticeCall>)
    ensures |r| == |nodes|
  {
    seq(|nodes|, k requires 0 <= k < |nodes| => PutIrregular(b, e, nodes[k]))
  }

  /** The irregular puts for one morpheme are over its span carrying its nodes, and no node
      of it is missed. */
  lemma NodeCallsMeaning(b: int, e: int, nodes: seq<IrregularNode>)
    ensures forall k :: 0 <= k < |NodeCalls(b, e, nodes)| ==>
              var r := NodeCalls(b, e, nodes);
              r[k].PutIrregular? && r[k].beginIdx == b && r[k].endIdx == e && r[k].irregular in nodes
    ensures forall nd :: nd in nodes ==> PutIrregular(b, e, nd) in NodeCalls(b, e, nodes)
  {
    var r := NodeCalls(b, e, nodes);
    forall nd | nd in nodes
      ensures PutIrregular(b, e, nd) in r
    {
      var k :| 0 <= k < |nodes| && nodes[k] == nd;
      assert r[k] == PutIrregular(b, e, nd);
    }
  }

  /** The puts irregularParsing makes for the irregular matches `m` ending at unit i,
      visiting the morphemes in `order`. */
  function IrregularCalls(order: seq<string>, m: map<string, seq<IrregularNode>>, i: int)
    : seq<LatticeCall>
    requires forall k :: 0 <= k < |order| ==> order[k] in m
  {
    if order == [] then []
    else
      var morph := order[|order| - 1];
      IrregularCalls(order[..|order| - 1], m, i) + NodeCalls(i - |morph| + 1, i + 1, m[morph])
  }

  /** Every irregular put is a span of a match, carrying one of its nodes. */
  lemma {:induction false} IrregularCallsAreSpans(order: seq<string>, m: map<string, seq<IrregularNode>>, i: int)
    requires forall k :: 0 <= k < |order| ==> order[k] in m
    ensures forall k :: 0 <= k < |IrregularCalls(order, m, i)| ==> IsIrregularSpan(IrregularCalls(order, m, i)[k], m, i)
  {
    if order != [] {
      var morph := order[|order| - 1];
      IrregularCallsAreSpans(order[..|order| - 1], m, i);
      var front := IrregularCalls(order[..|order| - 1], m, i);
      var last := NodeCalls(i - |morph| + 1, i + 1, m[morph]);
      forall k | 0 <= k < |front + last|
        ensures IsIrregularSpan((front + last)[k], m, i)
      {
        if k >= |front| {
          var x := last[k - |front|];
          assert (front + last)[k] == x;
          assert x.endIdx - x.beginIdx == |morph| && x.irregular in m[morph];
        }
      }
    } else {
      assert IrregularCalls(order, m, i) == [];
    }
  }

  /** Every node of every visited match gets its irregular put. */
  lemma {:induction false} IrregularCallsCover(order: seq<string>, m: map<string, seq<IrregularNode>>, i: int)
    requires forall k :: 0 <= k < |order| ==> order[k] in m
    ensures forall key, nd :: key in order && key in m && nd in m[key] ==>
              PutIrregular(i - |key| + 1, i + 1, nd) in IrregularCalls(order, m, i)
  {
    if order != [] {
      var front' := order[..|order| - 1];
      var morph := order[|order| - 1];
      IrregularCallsCover(front', m, i);
      forall key, nd | key in order && key in m && nd in m[key]
        ensures PutIrregular(i - |key| + 1, i + 1, nd) in IrregularCalls(order, m, i)
      {
        if key != morph {
          var j :| 0 <= j < |order| && order[j] == key;
          assert front'[j] == key;
        } else {
          NodeCallsMeaning(i - |morph| + 1, i + 1, m[morph]);
        }
      }
    }
  }

  /** The irregular puts for the matches under `keys` as an order-free multiset: one per
      node of every key, whatever order the keys are visited in. */
  ghost function IrregularBag(keys: set<string>, m: map<string, seq<IrregularNode>>, i: int): multiset<LatticeCall>
    requires keys <= m.Keys
    decreases keys
  {
    if keys == {} then multiset{}
    else
      var key :| key in keys;
      IrregularBag(keys - {key}, m, i) + multiset(NodeCalls(i - |key| + 1, i + 1, m[key]))
  }

  /** Any key can be taken out of the bag first. */
  lemma {:induction false} IrregularBagRemove(keys: set<string>, m: map<string, seq<IrregularNode>>, i: int, key: string)
    requires keys <= m.Keys && key in keys
    ensures IrregularBag(keys, m, i) == IrregularBag(keys - {key}, m, i) + multiset(NodeCalls(i - |key| + 1, i + 1, m[key]))
    decreases keys
  {
    var k0 :| k0 in keys && IrregularBag(keys, m, i)
                 == IrregularBag(keys - {k0}, m, i) + multiset(NodeCalls(i - |k0| + 1, i + 1, m[k0]));
    if k0 != key {
      IrregularBagRemove(keys - {k0}, m, i, key);
      IrregularBagRemove(keys - {key}, m, i, k0);
      assert keys - {k0} - {key} == keys - {key} - {k0};
    }
  }

  /** Visiting the keys in any enumeration order puts exactly the calls of the bag. */
  lemma {:induction false} IrregularCallsBag(order: seq<string>, keys: set<string>, m: map<string, seq<IrregularNode>>, i: int)
    requires keys <= m.Keys && IsEnumeration(order, keys)
    ensures multiset(IrregularCalls(order, m, i)) == IrregularBag(keys, m, i)
  {
    if order == [] {
      assert keys == {};
    } else {
      EnumerationFront(order, keys);
      IrregularCallsBag(order[..|order| - 1], keys - {order[|order| - 1]}, m, i);
      IrregularBagStep(order[..|order| - 1], order[|order| - 1], keys, m, i);
      assert order[..|order| - 1] + [order[|order| - 1]] == order;
    }
  }

  /** The induction step of IrregularCallsBag: the last visited key adds its puts to the
      bag of the keys before it. */
  lemma IrregularBagStep(front: seq<string>, last: string, keys: set<string>, m: map<string, seq<IrregularNode>>, i: int)
    requires keys <= m.Keys && last in keys && forall k :: 0 <= k < |front| ==> front[k] in m
    requires multiset(IrregularCalls(front, m, i)) == IrregularBag(keys - {last}, m, i)
    ensures multiset(IrregularCalls(front + [last], m, i)) == IrregularBag(keys, m, i)
  {
    IrregularBagRemove(keys, m, i, last);
    IrregularCallsLastBag(front, last, m, i);
  }

  /** The calls of the last visited key come after those of the keys before it, as a bag. */
  lemma IrregularCallsLastBag(front: seq<string>, last: string, m: map<string, seq<IrregularNode>>, i: int)
    requires last in m && forall k :: 0 <= k < |front| ==> front[k] in m
    ensures multiset(IrregularCalls(front + [last], m, i)) == multiset(IrregularCalls(front, m, i)) + multiset(NodeCalls(i - |last| + 1, i + 1, m[last]))
  {
    assert (front + [last])[..|front|] == front;
  }

  /** The irregular puts of one morpheme are over its span, and each node is put as often
      as the list holds it. */
  lemma {:induction false} NodeCallsCount(b: int, e: int, nodes: seq<IrregularNode>, call: LatticeCall)
    ensures call.PutIrregular? && call.beginIdx == b && call.endIdx == e ==>
              multiset(NodeCalls(b, e, nodes))[call] == multiset(nodes)[call.irregular]
    ensures !(call.PutIrregular? && call.beginIdx == b) ==> multiset(NodeCalls(b, e, nodes))[call] == 0
  {
    if nodes != [] {
      var front := nodes[..|nodes| - 1];
      var nd := nodes[|nodes| - 1];
      NodeCallsCount(b, e, front, call);
      assert nodes == front + [nd];
      assert NodeCalls(b, e, nodes) == NodeCalls(b, e, front) + [PutIrregular(b, e, nd)];
    }
  }

  /** A call that starts where no key's span starts is not in the bag. */
  lemma {:induction false} IrregularBagSpans(keys: set<string>, m: map<string, seq<IrregularNode>>, i: int, call: LatticeCall)
    requires keys <= m.Keys
    ensures (!call.PutIrregular? || forall k :: k in keys ==> i - |k| + 1 != call.beginIdx) ==>
              IrregularBag(keys, m, i)[call] == 0
    decreases keys
  {
    if keys != {} {
      var k0 :| k0 in keys && IrregularBag(keys, m, i)
                   == IrregularBag(keys - {k0}, m, i) + multiset(NodeCalls(i - |k0| + 1, i + 1, m[k0]));
      IrregularBagSpans(keys - {k0}, m, i, call);
      NodeCallsCount(i - |k0| + 1, i + 1, m[k0], call);
    }
  }

  /** Every node of a match is put at least as often as the match lists it, and exactly as
      often when no other match has the same length (an irregular put does not carry its
      morpheme, so equal-length matches share their spans). */
  lemma IrregularBagCount(m: map<string, seq<IrregularNode>>, i: int, key: string, nd: IrregularNode)
    requires key in m
    ensures IrregularBag(m.Keys, m, i)[PutIrregular(i - |key| + 1, i + 1, nd)] >= multiset(m[key])[nd]
    ensures (forall k :: k in m && k != key ==> |k| != |key|) ==>
              IrregularBag(m.Keys, m, i)[PutIrregular(i - |key| + 1, i + 1, nd)] == multiset(m[key])[nd]
  {
    var call := PutIrregular(i - |key| + 1, i + 1, nd);
    IrregularBagRemove(m.Keys, m, i, key);
    IrregularBagSpans(m.Keys - {key}, m, i, call);
    NodeCallsCount(i - |key| + 1, i + 1, m[key], call);
  }

  /** The calls a dictionary pass adds for the matches `m` ending at unit i: only match
      spans, and one for every scored tag of every match. */
  predicate DictSpansAdded(before: seq<LatticeCall>, after: seq<LatticeCall>,
                           m: map<string, seq<ScoredTag>>, i: int)
  {
    Extends(before, after)
    && (forall k :: |before| <= k < |after| ==> IsDictSpan(after[k], m, i))
    && (forall key, t :: key in m && t in m[key] ==>
          Put(i - |key| + 1, i + 1, key, t.tag, t.tagId, t.score) in after[|before|..])
  }

  /** What the user dictionary's get(jaso) answers at this unit (null without a user
      dictionary). */
  function UserMatches(cfg: Config, s: Scan, c: char): Option<map<string, seq<ScoredTag>>> {
    match cfg.userDic
    case None => None
    case Some(t) => t.step(s.cursors.user + [c])
  }

  /** userDicParsing(c, i): with a user dictionary its cursor takes the unit; nothing is
      inserted when it reports no match, and otherwise every match span. */
  function UserDicStep(cfg: Config, s: Scan, c: char, i: int): (r: Scan)
    requires ValidConfig(cfg)
    ensures r.buffer == s.buffer && Extends(s.calls, r.calls)
    ensures r.cursors == if cfg.userDic.None? then s.cursors
                         else s.cursors.(user := s.cursors.user + [c])
    ensures UserMatches(cfg, s, c).None? ==> r.calls == s.calls
    ensures UserMatches(cfg, s, c).Some? ==> DictSpansAdded(s.calls, r.calls, UserMatches(cfg, s, c).value, i)
  {
    if cfg.userDic.None? then s
    else
      var fed := s.cursors.(user := s.cursors.user + [c]);
      match UserMatches(cfg, s, c)
      case None => s.(cursors := fed)
      case Some(m) =>
        var order := cfg.res.keyOrder(m.Keys);
        assert IsEnumeration(order, m.Keys);
        var r := s.(calls := s.calls + DictCalls(order, m, i), cursors := fed);
        assert r.calls[|s.calls|..] == DictCalls(order, m, i);
        DictCallsAreMatchSpans(order, m, i);
        DictCallsCoverMatches(order, m, i);
        r
  }

  /** What the regular dictionary's get(jaso) answers at this unit. */
  function RegularMatches(cfg: Config, s: Scan, c: char): Option<map<string, seq<ScoredTag>>> {
    cfg.res.observation.step(s.cursors.regular + [c])
  }

  /** regularParsing(c, i): the regular cursor takes the unit; nothing is inserted when it
      reports no match, and otherwise every match span. */
  function RegularStep(cfg: Config, s: Scan, c: char, i: int): (r: Scan)
    requires ValidConfig(cfg)
    ensures r.buffer == s.buffer && Extends(s.calls, r.calls)
    ensures r.cursors == s.cursors.(regular := s.cursors.regular + [c])
    ensures RegularMatches(cfg, s, c).None? ==> r.calls == s.calls
    ensures RegularMatches(cfg, s, c).Some? ==> DictSpansAdded(s.calls, r.calls, RegularMatches(cfg, s, c).value, i)
  {
    var fed := s.cursors.(regular := s.cursors.regular + [c]);
    match RegularMatches(cfg, s, c)
    case None => s.(cursors := fed)
    case Some(m) =>
      var order := cfg.res.keyOrder(m.Keys);
      assert IsEnumeration(order, m.Keys);
      var r := s.(calls := s.calls + DictCalls(order, m, i), cursors := fed);
      assert r.calls[|s.calls|..] == DictCalls(order, m, i);
      DictCallsAreMatchSpans(order, m, i);
      DictCallsCoverMatches(order, m, i);
      r
  }

  /** What the irregular dictionary's get(jaso) answers at this unit. */
  function IrregularMatches(cfg: Config, s: Scan, c: char): Option<map<string, seq<IrregularNode>>> {
    cfg.res.irrTrie.step(s.cursors.irregular + [c])
  }

  /** irregularParsing(c, i): the irregular cursor takes the unit; nothing is inserted when
      it reports no match, and otherwise one irregular put per node of every match. */
  function IrregularStep(cfg: Config, s: Scan, c: char, i: int): (r: Scan)
    requires ValidConfig(cfg)
    ensures r.buffer == s.buffer && Extends(s.calls, r.calls)
    ensures r.cursors == s.cursors.(irregular := s.cursors.irregular + [c])
    ensures IrregularMatches(cfg, s, c).None? ==> r.calls == s.calls
    ensures forall k :: |s.calls| <= k < |r.calls| ==>
              IrregularMatches(cfg, s, c).Some? && IsIrregularSpan(r.calls[k], IrregularMatches(cfg, s, c).value, i)
    ensures forall key, nd :: (IrregularMatches(cfg, s, c).Some? && key in IrregularMatches(cfg, s, c).value
              && nd in IrregularMatches(cfg, s, c).value[key]) ==>
              PutIrregular(i - |key| + 1, i + 1, nd) in r.calls[|s.calls|..]
  {
    var fed := s.cursors.(irregular := s.cursors.irregular + [c]);
    match IrregularMatches(cfg, s, c)
    case None => s.(cursors := fed)
    case Some(m) =>
      var order := cfg.res.keyOrder(m.Keys);
      assert IsEnumeration(order, m.Keys);
      var r := s.(calls := s.calls + IrregularCalls(order, m, i), cursors := fed);
      assert r.calls[|s.calls|..] == IrregularCalls(order, m, i);
      IrregularCallsAreSpans(order, m, i);
      IrregularCallsCover(order, m, i);
      r
  }

  /** userDicParsing puts exactly the bag of its matches: each scored tag of each match as
      often as the dictionary stores it, and nothing else. */
  lemma UserDicStepExact(cfg: Config, s: Scan, c: char, i: int)
    requires ValidConfig(cfg) && UserMatches(cfg, s, c).Some?
    ensures var m := UserMatches(cfg, s, c).value;
            multiset(UserDicStep(cfg, s, c, i).calls[|s.calls|..]) == DictBag(m.Keys, m, i)
  {
    var m := UserMatches(cfg, s, c).value;
    var order := cfg.res.keyOrder(m.Keys);
    assert IsEnumeration(order, m.Keys);
    DictCallsBag(order, m.Keys, m, i);
    assert UserDicStep(cfg, s, c, i).calls[|s.calls|..] == DictCalls(order, m, i);
  }

  /** regularParsing puts exactly the bag of its matches. */
  lemma RegularStepExact(cfg: Config, s: Scan, c: char, i: int)
    requires ValidConfig(cfg) && RegularMatches(cfg, s, c).Some?
    ensures var m := RegularMatches(cfg, s, c).value;
            multiset(RegularStep(cfg, s, c, i).calls[|s.calls|..]) == DictBag(m.Keys, m, i)
  {
    var m := RegularMatches(cfg, s, c).value;
    var order := cfg.res.keyOrder(m.Keys);
    assert IsEnumeration(order, m.Keys);
    DictCallsBag(order, m.Keys, m, i);
    assert RegularStep(cfg, s, c, i).calls[|s.calls|..] == DictCalls(order, m, i);
  }

  /** irregularParsing puts exactly the bag of its matches: one irregular put per node of
      every match, and nothing else. */
  lemma IrregularStepExact(cfg: Config, s: Scan, c: char, i: int)
    requires ValidConfig(cfg) && IrregularMatches(cfg, s, c).Some?
    ensures var m := IrregularMatches(cfg, s, c).value;
            multiset(IrregularStep(cfg, s, c, i).calls[|s.calls|..]) == IrregularBag(m.Keys, m, i)
  {
    var m := IrregularMatches(cfg, s, c).value;
    var order := cfg.res.keyOrder(m.Keys);
    assert IsEnumeration(order, m.Keys);
    IrregularCallsBag(order, m.Keys, m, i);
    assert IrregularStep(cfg, s, c, i).calls[|s.calls|..] == IrregularCalls(order, m, i);
  }

  // ---------------------------------------------------------------- irregular extension

  /** A node carrying the irregular placeholder tag. */
  predicate IsIrregular(res: Resources, n: NodeValue) {
    n.morphTag.tagId == res.irregularId
  }

  /** The pending node irregularExtends builds from `n` with setters: same begin,
      predecessor and score, one unit longer, still an irregular placeholder. */
  function Extended(res: Resources, n: NodeValue, c: char, i: int): NodeValue {
    NodeValue(n.beginIdx, i + 1, MorphTag(n.morphTag.morph + [c], res.irregularTag, res.irregularId),
              n.score, n.prevNodeIdx)
  }

  /** Node `n` can grow by unit c: it is irregular and the regular trie continues past its
      morpheme extended by c. */
  predicate Grows(res: Resources, n: NodeValue, c: char) {
    IsIrregular(res, n) && HasChild(res.observation, n.morphTag.morph + [c])
  }

  /** A direct put resolving node `n` extended by c to a tag the regular dictionary stores
      for its morpheme. */
  predicate Resolves(res: Resources, n: NodeValue, c: char, i: int, call: LatticeCall) {
    var morph := n.morphTag.morph + [c];
    IsIrregular(res, n) && call.Put? && call.beginIdx == n.beginIdx && call.endIdx == i + 1
    && call.morph == morph && morph in res.observation.entries
    && ScoredTag(call.tag, call.tagId, call.score) in res.observation.entries[morph]
  }

  /** The HashSet contents of irregularExtends, in insertion order: one extension per node
      that grows. LatticeNode keeps Object's identity equality, so no two are merged. */
  function PendingExtensions(res: Resources, nodes: seq<NodeValue>, c: char, i: int): (r: seq<NodeValue>)
    ensures |r| <= |nodes|
  {
    if nodes == [] then []
    else
      var n := nodes[|nodes| - 1];
      PendingExtensions(res, nodes[..|nodes| - 1], c, i)
      + if Grows(res, n, c) then [Extended(res, n, c, i)] else []
  }

  /** Every pending node extends a node of the list that grows. */
  lemma {:induction false} PendingSound(res: Resources, nodes: seq<NodeValue>, c: char, i: int)
    ensures forall k :: 0 <= k < |PendingExtensions(res, nodes, c, i)| ==>
              exists j :: 0 <= j < |nodes| && Grows(res, nodes[j], c)
                          && PendingExtensions(res, nodes, c, i)[k] == Extended(res, nodes[j], c, i)
  {
    if nodes != [] {
      var front := nodes[..|nodes| - 1];
      PendingSound(res, front, c, i);
      var p := PendingExtensions(res, front, c, i);
      var r := PendingExtensions(res, nodes, c, i);
      var last := nodes[|nodes| - 1];
      assert r == p + if Grows(res, last, c) then [Extended(res, last, c, i)] else [];
      forall k | 0 <= k < |r|
        ensures exists j :: 0 <= j < |nodes| && Grows(res, nodes[j], c) && r[k] == Extended(res, nodes[j], c, i)
      {
        if k < |p| {
          assert r[k] == p[k];
          var j :| 0 <= j < |front| && Grows(res, front[j], c) && p[k] == Extended(res, front[j], c, i);
          assert nodes[j] == front[j];
        } else {
          assert Grows(res, last, c) && r[k] == Extended(res, last, c, i);
        }
      }
    } else {
      assert PendingExtensions(res, nodes, c, i) == [];
    }
  }

  /** Every node of the list that grows has its extension pending. */
  lemma {:induction false} PendingComplete(res: Resources, nodes: seq<NodeValue>, c: char, i: int)
    ensures forall j :: 0 <= j < |nodes| && Grows(res, nodes[j], c) ==>
              Extended(res, nodes[j], c, i) in PendingExtensions(res, nodes, c, i)
  {
    if nodes != [] {
      var front := nodes[..|nodes| - 1];
      PendingComplete(res, front, c, i);
      forall j | 0 <= j < |nodes| && Grows(res, nodes[j], c)
        ensures Extended(res, nodes[j], c, i) in PendingExtensions(res, nodes, c, i)
      {
        if j < |front| {
          assert nodes[j] == front[j];
        }
      }
    }
  }

  /** The direct puts for one node: one per tag the regular dictionary stores under its
      morpheme extended by c. */
  function ResolvedOf(res: Resources, n: NodeValue, c: char, i: int): seq<LatticeCall> {
    if IsIrregular(res, n) then
      match GetValue(res.observation, n.morphTag.morph + [c])
      case None => []
      case Some(tags) => TagCalls(n.beginIdx, i + 1, n.morphTag.morph + [c], tags)
    else []
  }

  /** The direct puts of irregularExtends, in node-list order. */
  function ResolvedExtensions(res: Resources, nodes: seq<NodeValue>, c: char, i: int): seq<LatticeCall>
  {
    if nodes == [] then []
    else ResolvedExtensions(res, nodes[..|nodes| - 1], c, i) + ResolvedOf(res, nodes[|nodes| - 1], c, i)
  }

  /** Every direct put resolves an irregular node of the list. */
  lemma {:induction false} ResolvedSound(res: Resources, nodes: seq<NodeValue>, c: char, i: int)
    ensures forall k :: 0 <= k < |ResolvedExtensions(res, nodes, c, i)| ==>
              exists j :: 0 <= j < |nodes| && Resolves(res, nodes[j], c, i, ResolvedExtensions(res, nodes, c, i)[k])
  {
    if nodes != [] {
      var front := nodes[..|nodes| - 1];
      ResolvedSound(res, front, c, i);
      var q := ResolvedExtensions(res, front, c, i);
      var last := ResolvedOf(res, nodes[|nodes| - 1], c, i);
      var r := ResolvedExtensions(res, nodes, c, i);
      assert r == q + last;
      forall k | 0 <= k < |r|
        ensures exists j :: 0 <= j < |nodes| && Resolves(res, nodes[j], c, i, r[k])
      {
        if k < |q| {
          assert r[k] == q[k];
          var j :| 0 <= j < |front| && Resolves(res, front[j], c, i, q[k]);
          assert nodes[j] == front[j];
        } else {
          assert r[k] == last[k - |q|];
          assert Resolves(res, nodes[|nodes| - 1], c, i, r[k]);
        }
      }
    } else {
      assert ResolvedExtensions(res, nodes, c, i) == [];
    }
  }

  /** Every tag the regular dictionary stores for an irregular node's morpheme extended by c
      gets its direct put. */
  lemma {:induction false} ResolvedComplete(res: Resources, nodes: seq<NodeValue>, c: char, i: int)
    ensures forall j, t :: (0 <= j < |nodes| && IsIrregular(res, nodes[j])
              && nodes[j].morphTag.morph + [c] in res.observation.entries
              && t in res.observation.entries[nodes[j].morphTag.morph + [c]]) ==>
              Put(nodes[j].beginIdx, i + 1, nodes[j].morphTag.morph + [c], t.tag, t.tagId, t.score)
                in ResolvedExtensions(res, nodes, c, i)
  {
    if nodes != [] {
      var front := nodes[..|nodes| - 1];
      ResolvedComplete(res, front, c, i);
      var q := ResolvedExtensions(res, front, c, i);
      var last := ResolvedOf(res, nodes[|nodes| - 1], c, i);
      assert ResolvedExtensions(res, nodes, c, i) == q + last;
      forall j, t | 0 <= j < |nodes| && IsIrregular(res, nodes[j])
                    && nodes[j].morphTag.morph + [c] in res.observation.entries
                    && t in res.observation.entries[nodes[j].morphTag.morph + [c]]
        ensures Put(nodes[j].beginIdx, i + 1, nodes[j].morphTag.morph + [c], t.tag, t.tagId, t.score) in q + last
      {
        if j < |front| {
          assert nodes[j] == front[j];
        } else {
          var morph := nodes[j].morphTag.morph + [c];
          TagCallsMeaning(nodes[j].beginIdx, i + 1, morph, res.observation.entries[morph]);
        }
      }
    }
  }

  /** The appendNode calls for the pending nodes, in the set's iteration order. */
  function Appends(pending: seq<NodeValue>, order: seq<nat>): (r: seq<LatticeCall>)
    requires forall k :: 0 <= k < |order| ==> order[k] < |pending|
    ensures |r| == |order|
    ensures forall k :: 0 <= k < |r| ==> r[k].Append? && r[k].node in pending
  {
    seq(|order|, k requires 0 <= k < |order| => Append(pending[order[k]]))
  }

  /** One appendNode per pending node, in insertion order. */
  function AppendsOf(pending: seq<NodeValue>): seq<LatticeCall> {
    seq(|pending|, k requires 0 <= k < |pending| => Append(pending[k]))
  }

  /** Whatever order the set iterates in, every pending node is appended exactly once. */
  lemma {:induction false} AppendsArePermutation(pending: seq<NodeValue>, order: seq<nat>)
    requires IsPermutation(order, |pending|)
    ensures multiset(Appends(pending, order)) == multiset(AppendsOf(pending))
  {
    var n := |pending|;
    if n > 0 {
      PermutationCovers(order, n, n - 1);
      var p :| 0 <= p < |order| && order[p] == n - 1;
      var order' := order[..p] + order[p + 1..];
      var pending' := pending[..n - 1];
      RemoveLast(order, n, p);
      AppendsArePermutation(pending', order');
      AppendsSplit(pending, order, p);
      SpliceBag(Appends(pending', order'), p, Append(pending[n - 1]));
      AppendsOfSnoc(pending);
    }
  }

  /** Slotting x in anywhere adds it to the bag. */
  lemma SpliceBag<T>(a: seq<T>, p: nat, x: T)
    requires p <= |a|
    ensures multiset(a[..p] + [x] + a[p..]) == multiset(a) + multiset{x}
  {
    assert a == a[..p] + a[p..];
  }

  /** The appends in insertion order end with the last pending node. */
  lemma AppendsOfSnoc(pending: seq<NodeValue>)
    requires pending != []
    ensures AppendsOf(pending) == AppendsOf(pending[..|pending| - 1]) + [Append(pending[|pending| - 1])]
  {
  }

  /** Appending along `order` is appending along `order` without the last position, with
      the last pending node slotted in where `order` visits it. */
  lemma AppendsSplit(pending: seq<NodeValue>, order: seq<nat>, p: nat)
    requires IsPermutation(order, |pending|) && |pending| > 0
    requires p < |order| && order[p] == |pending| - 1
    requires IsPermutation(order[..p] + order[p + 1..], |pending| - 1)
    ensures Appends(pending, order)
              == Appends(pending[..|pending| - 1], order[..p] + order[p + 1..])[..p]
                 + [Append(pending[|pending| - 1])]
                 + Appends(pending[..|pending| - 1], order[..p] + order[p + 1..])[p..]
  {
    var order' := order[..p] + order[p + 1..];
    var a := Appends(pending[..|pending| - 1], order');
    var whole := Appends(pending, order);
    forall k | 0 <= k < |whole|
      ensures whole[k] == (a[..p] + [Append(pending[|pending| - 1])] + a[p..])[k]
    {
      if k < p {
        assert order'[k] == order[k];
      } else if k > p {
        assert order'[k - 1] == order[k];
      }
    }
  }

  /** irregularExtends(c, i): with no node list at i nothing happens; otherwise the direct
      puts come first and the pending extensions are appended after them. */
  function ExtendStep(cfg: Config, s: Scan, c: char, i: int): (r: Scan)
    requires ValidConfig(cfg)
    ensures r.buffer == s.buffer && r.cursors == s.cursors && Extends(s.calls, r.calls)
    ensures cfg.res.lattice.nodeList(s.calls, i).None? ==> r.calls == s.calls
    ensures cfg.res.lattice.nodeList(s.calls, i).Some? ==>
              var nodes := cfg.res.lattice.nodeList(s.calls, i).value;
              var resolved := ResolvedExtensions(cfg.res, nodes, c, i);
              |s.calls| + |resolved| <= |r.calls|
              && r.calls[..|s.calls| + |resolved|] == s.calls + resolved
              && multiset(r.calls[|s.calls| + |resolved|..])
                   == multiset(AppendsOf(PendingExtensions(cfg.res, nodes, c, i)))
  {
    match cfg.res.lattice.nodeList(s.calls, i)
    case None => s
    case Some(nodes) =>
      var pending := PendingExtensions(cfg.res, nodes, c, i);
      var resolved := ResolvedExtensions(cfg.res, nodes, c, i);
      var order := cfg.res.setOrder(|pending|);
      assert IsPermutation(order, |pending|);
      AppendsArePermutation(pending, order);
      var r := s.(calls := s.calls + resolved + Appends(pending, order));
      assert r.calls[|s.calls| + |resolved|..] == Appends(pending, order);
      assert r.calls[..|s.calls| + |resolved|] == s.calls + resolved;
      r
  }

  // ---------------------------------------------------------------- one unit

  /** The six passes Komoran.java runs on each unit, in their fixed order. */
  function UnitStep(cfg: Config, s: Scan, c: char, i: int): (r: Scan)
    requires ValidConfig(cfg)
    ensures Extends(s.calls, r.calls)
    ensures Extends(s.calls + SpanCalls(cfg.res, RunStep(s.buffer, ContinuousClass(cfg.res.classes, c), c, i).1),
                    r.calls)
    ensures r.buffer == RunStep(s.buffer, ContinuousClass(cfg.res.classes, c), c, i).0
    ensures r.cursors.regular == s.cursors.regular + [c]
    ensures r.cursors.irregular == s.cursors.irregular + [c]
    ensures r.cursors.user == if cfg.userDic.None? then s.cursors.user else s.cursors.user + [c]
  {
    var s1 := ContinuousStep(cfg, s, c, i);
    var s2 := SymbolStep(cfg, s1, c, i);
    var s3 := UserDicStep(cfg, s2, c, i);
    var s4 := RegularStep(cfg, s3, c, i);
    var s5 := IrregularStep(cfg, s4, c, i);
    ExtendsTransitive(s1.calls, s2.calls, s3.calls);
    ExtendsTransitive(s1.calls, s3.calls, s4.calls);
    ExtendsTransitive(s1.calls, s4.calls, s5.calls);
    var r := ExtendStep(cfg, s5, c, i);
    ExtendsTransitive(s1.calls, s5.calls, r.calls);
    ExtendsTransitive(s.calls, s1.calls, r.calls);
    r
  }

  lemma ExtendsTransitive(a: seq<LatticeCall>, b: seq<LatticeCall>, c: seq<LatticeCall>)
    requires Extends(a, b) && Extends(b, c)
    ensures Extends(a, c)
  {
    assert c[..|a|] == c[..|b|][..|a|];
  }
}
