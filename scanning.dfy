/** The scans Komoran.java runs over a unit string, as functions: the per-token scan of
    `analyze` and the whole-sentence scan of `analyzeWithSpacing`, with the results each
    one returns. */
module Scanning {
  import opened Wrappers
  import opened JavaText
  import opened KomoranTypes
  import opened SymbolRuns
  import opened Passes

  // ---------------------------------------------------------------- the unit loop

  /** A fresh lattice with the run buffer cleared and every trie cursor reset. */
  const Start := Scan([], EmptyBuffer, Cursors([], [], []))

  /** The class continiousSymbolParsing gives each unit of u. */
  function Classes(cfg: Config, u: string): (kinds: seq<string>)
    ensures |kinds| == |u|
    ensures forall k :: 0 <= k < |u| ==> kinds[k] == ContinuousClass(cfg.res.classes, u[k])
  {
    seq(|u|, k requires 0 <= k < |u| => ContinuousClass(cfg.res.classes, u[k]))
  }

  /** The state after the six passes have run on the first n units of u. */
  function ScanPrefix(cfg: Config, s0: Scan, u: string, n: nat): Scan
    requires ValidConfig(cfg) && n <= |u|
  {
    if n == 0 then s0 else UnitStep(cfg, ScanPrefix(cfg, s0, u, n - 1), u[n - 1], n - 1)
  }

  /** The scan state agrees with the run detector's state `runs`: the same buffer, and every
      run the detector has closed has been put into the lattice. */
  ghost predicate FollowsRuns(res: Resources, runs: (Buffer, seq<Span>), s: Scan) {
    s.buffer == runs.0 && forall k :: 0 <= k < |runs.1| ==> SpanCall(res, runs.1[k]) in s.calls
  }

  /** Over a scan from a cleared buffer, the buffer is the run detector's buffer and every
      run the detector has closed has been put into the lattice. */
  lemma ScanFollowsRuns(cfg: Config, s0: Scan, u: string, n: nat)
    requires ValidConfig(cfg) && n <= |u| && s0.buffer == EmptyBuffer
    ensures FollowsRuns(cfg.res, RunScan(Classes(cfg, u), u, n), ScanPrefix(cfg, s0, u, n))
  {
    var kinds := Classes(cfg, u);
    var i := 0;
    while i < n
      invariant i <= n
      invariant FollowsRuns(cfg.res, RunScan(kinds, u, i), ScanPrefix(cfg, s0, u, i))
    {
      var prev := RunScan(kinds, u, i);
      var next := RunStep(prev.0, kinds[i], u[i], i);
      assert kinds[i] == ContinuousClass(cfg.res.classes, u[i]);
      UnitFollowsRun(cfg, ScanPrefix(cfg, s0, u, i), u[i], i, prev, next);
      assert RunScan(kinds, u, i + 1) == (next.0, prev.1 + next.1);
      i := i + 1;
    }
  }

  /** One unit of the scan moves the buffer like the run detector and puts the run the
      detector closes. */
  lemma UnitFollowsRun(cfg: Config, s: Scan, c: char, i: int,
                       prev: (Buffer, seq<Span>), next: (Buffer, seq<Span>))
    requires ValidConfig(cfg)
    requires FollowsRuns(cfg.res, prev, s)
    requires next == RunStep(prev.0, ContinuousClass(cfg.res.classes, c), c, i)
    ensures FollowsRuns(cfg.res, (next.0, prev.1 + next.1), UnitStep(cfg, s, c, i))
  {
    var r := UnitStep(cfg, s, c, i);
    PutsKept(cfg.res, s.calls, r.calls, prev.1, next.1);
  }

  /** Spans already put stay put, and the spans a step emits are put after them. */
  lemma PutsKept(res: Resources, before: seq<LatticeCall>, after: seq<LatticeCall>,
                 done: seq<Span>, emitted: seq<Span>)
    requires forall k :: 0 <= k < |done| ==> SpanCall(res, done[k]) in before
    requires Extends(before + SpanCalls(res, emitted), after)
    ensures forall k :: 0 <= k < |done + emitted| ==> SpanCall(res, (done + emitted)[k]) in after
  {
    var mid := before + SpanCalls(res, emitted);
    forall k | 0 <= k < |done + emitted|
      ensures SpanCall(res, (done + emitted)[k]) in after
    {
      if k < |done| {
        var x := SpanCall(res, done[k]);
        var j :| 0 <= j < |before| && before[j] == x;
        assert mid[j] == x;
        assert after[j] == x;
      } else {
        var x := SpanCall(res, emitted[k - |done|]);
        assert mid[|before| + k - |done|] == x;
        assert after[|before| + k - |done|] == x;
      }
    }
  }

  // ---------------------------------------------------------------- analyze

  /** The lattice calls for one token's unit string u: the six passes on every unit, the
      flush of the run buffer, then setLastIdx(|u|) and appendEndNode(). */
  function TokenScan(cfg: Config, u: string): Scan
    requires ValidConfig(cfg)
  {
    TokenEnd(cfg, ScanPrefix(cfg, Start, u, |u|), |u|)
  }

  /** The end of a token's scan of n units: the flush, setLastIdx(n) and appendEndNode(). */
  function TokenEnd(cfg: Config, p: Scan, n: int): Scan
    requires ValidConfig(cfg)
  {
    var s := ConsumeStep(cfg, p, n);
    s.(calls := s.calls + [SetLastIdx(n), AppendEnd])
  }

  /** Every maximal run of SL, SN or SH units of a token becomes a lattice put over exactly
      that run, whatever else the other passes put. */
  lemma EveryRunIsPut(cfg: Config, u: string, b: int, e: int)
    requires ValidConfig(cfg)
    requires IsMaximalRun(Classes(cfg, u), b, e) && IsRunClass(Classes(cfg, u)[b])
    ensures SpanCall(cfg.res, Span(b, e, u[b..e], Classes(cfg, u)[b])) in TokenScan(cfg, u).calls
  {
    var kinds := Classes(cfg, u);
    AllRunsAreMaximalRuns(kinds, u);
    ScanFollowsRuns(cfg, Start, u, |u|);
    var s := ScanPrefix(cfg, Start, u, |u|);
    FlushedRunsArePut(cfg, RunScan(kinds, u, |u|), s, |u|);
    assert ConsumeStep(cfg, s, |u|).calls <= TokenScan(cfg, u).calls;
  }

  /** Once the buffer is flushed, every run the detector found has been put. */
  lemma FlushedRunsArePut(cfg: Config, runs: (Buffer, seq<Span>), s: Scan, n: int)
    requires FollowsRuns(cfg.res, runs, s)
    ensures forall x :: x in runs.1 + FlushRun(runs.0, n) ==> SpanCall(cfg.res, x) in ConsumeStep(cfg, s, n).calls
  {
    var t := ConsumeStep(cfg, s, n);
    forall x | x in runs.1 + FlushRun(runs.0, n)
      ensures SpanCall(cfg.res, x) in t.calls
    {
      if x in runs.1 {
        var k :| 0 <= k < |runs.1| && runs.1[k] == x;
        var j :| 0 <= j < |s.calls| && s.calls[j] == SpanCall(cfg.res, x);
        assert t.calls[j] == SpanCall(cfg.res, x);
      } else {
        assert IsRunClass(runs.0.pos) && x == Span(s.buffer.beginIdx, n, s.buffer.morph, s.buffer.pos);
        assert t.calls[|s.calls|] == SpanCall(cfg.res, x);
      }
    }
  }

  /** lookupFwd(token): the pairs the forward dictionary stores for the token, or null. */
  function LookupFwd(fwd: Option<map<string, seq<Pair>>>, token: string): (r: Option<seq<Pair>>)
    ensures r.Some? <==> fwd.Some? && token in fwd.value
    ensures r.Some? ==> r.value == fwd.value[token]
  {
    match fwd
    case None => None
    case Some(m) => if token in m then Some(m[token]) else None
  }

  /** The pairs of a decoded path, or `(text, "NA")` when the lattice found none. */
  function PathPairs(path: Option<seq<Pair>>, text: string): (r: seq<Pair>)
    ensures path.None? ==> r == [Pair(text, NA)]
    ensures path.Some? ==> |r| == |path.value|
    ensures path.Some? ==> forall k :: 0 <= k < |r| ==> r[k] == path.value[|r| - 1 - k]
  {
    match path
    case None => [Pair(text, NA)]
    case Some(p) => Reverse(p)
  }

  /** What analyzing one trimmed token yields: its pairs (the forward-dictionary pairs, if
      any, followed by the outcome of its own lattice) and the scan it leaves behind. */
  datatype TokenOut = TokenOut(pairs: seq<Pair>, scan: Scan)

  function AnalyzeToken(cfg: Config, fwd: Option<map<string, seq<Pair>>>, token: string): TokenOut
    requires ValidConfig(cfg)
  {
    var hit := LookupFwd(fwd, token);
    var scan := TokenScan(cfg, cfg.res.parse(token));
    TokenOut((if hit.Some? then hit.value else []) + PathPairs(cfg.res.lattice.path(scan.calls), token), scan)
  }

  /** A forward-dictionary hit does not replace the token's analysis: the stored pairs are
      put in front of exactly what the token yields with no forward dictionary. */
  lemma FwdHitStillAnalysed(cfg: Config, fwd: Option<map<string, seq<Pair>>>, token: string)
    requires ValidConfig(cfg)
    ensures var hit := LookupFwd(fwd, token);
            AnalyzeToken(cfg, fwd, token).pairs
              == (if hit.Some? then hit.value else []) + AnalyzeToken(cfg, None, token).pairs
    ensures AnalyzeToken(cfg, fwd, token).scan == AnalyzeToken(cfg, None, token).scan
  {
    assert LookupFwd(None, token) == None;
  }

  /** What analyze has built after some tokens: the result so far (None once it has
      returned null) and the scan of the last token it analysed. */
  datatype Outcome = Outcome(result: Option<seq<Pair>>, last: Scan)

  /** analyze's loop from the state `init`, where `outs[k]` is what token k yields once
      trimmed, or None when it is blank: null as soon as a token is blank, otherwise each
      token's pairs in order, leaving the scan of the last token analysed. */
  function AnalyzeTokens(outs: seq<Option<TokenOut>>, init: Scan): Outcome
  {
    if outs == [] then Outcome(Some([]), init)
    else
      var p := AnalyzeTokens(outs[..|outs| - 1], init);
      var out := outs[|outs| - 1];
      if p.result.None? then p
      else if out.None? then Outcome(None, p.last)
      else Outcome(Some(p.result.value + out.value.pairs), out.value.scan)
  }

  /** What each token yields once trimmed, None for a blank token. */
  function TokenOuts(cfg: Config, fwd: Option<map<string, seq<Pair>>>, tokens: seq<string>)
    : (outs: seq<Option<TokenOut>>)
    requires ValidConfig(cfg)
    ensures |outs| == |tokens|
    ensures forall k :: 0 <= k < |tokens| ==> (outs[k].None? <==> IsBlank(tokens[k]))
  {
    seq(|tokens|, k requires 0 <= k < |tokens| =>
          if IsBlank(tokens[k]) then None else Some(AnalyzeToken(cfg, fwd, Trim(tokens[k]))))
  }

  /** analyze(sentence) from the state `init`. */
  function AnalyzeSpec(cfg: Config, fwd: Option<map<string, seq<Pair>>>, sentence: string, init: Scan)
    : Outcome
    requires ValidConfig(cfg)
  {
    AnalyzeTokens(TokenOuts(cfg, fwd, JavaSplit(sentence, ' ')), init)
  }

  /** analyze's loop one token further. */
  lemma AnalyzeTokensSnoc(outs: seq<Option<TokenOut>>, init: Scan, k: nat)
    requires k < |outs|
    ensures AnalyzeTokens(outs[..k + 1], init)
              == var p := AnalyzeTokens(outs[..k], init);
                 if p.result.None? then p
                 else if outs[k].None? then Outcome(None, p.last)
                 else Outcome(Some(p.result.value + outs[k].value.pairs), outs[k].value.scan)
  {
    assert outs[..k + 1][..k] == outs[..k];
  }

  /** Once analyze has returned null, the later tokens change nothing. */
  lemma {:induction false} NullStays(outs: seq<Option<TokenOut>>, init: Scan, n: nat)
    requires n <= |outs| && AnalyzeTokens(outs[..n], init).result.None?
    ensures AnalyzeTokens(outs, init) == AnalyzeTokens(outs[..n], init)
  {
    if n == |outs| {
      assert outs[..n] == outs;
    } else {
      var front := outs[..|outs| - 1];
      assert front[..n] == outs[..n];
      NullStays(front, init, n);
    }
  }

  /** Every token's pairs, one token after another. */
  function AllPairs(outs: seq<Option<TokenOut>>): seq<Pair> {
    if outs == [] then []
    else AllPairs(outs[..|outs| - 1]) + match outs[|outs| - 1] case None => [] case Some(o) => o.pairs
  }

  /** analyze's loop returns null exactly when some token is blank, and otherwise the pairs
      of every token in order, leaving the scan of the last token. */
  lemma {:induction false} AnalyzeNullIffBlank(outs: seq<Option<TokenOut>>, init: Scan)
    ensures AnalyzeTokens(outs, init).result.None? <==> exists k :: 0 <= k < |outs| && outs[k].None?
    ensures AnalyzeTokens(outs, init).result.Some? ==>
              AnalyzeTokens(outs, init).result.value == AllPairs(outs)
              && (outs != [] ==> AnalyzeTokens(outs, init).last == outs[|outs| - 1].value.scan)
  {
    if outs != [] {
      var front := outs[..|outs| - 1];
      AnalyzeNullIffBlank(front, init);
      if exists k :: 0 <= k < |front| && front[k].None? {
        var k :| 0 <= k < |front| && front[k].None?;
        assert outs[k] == front[k];
      } else if outs[|outs| - 1].Some? {
        forall k | 0 <= k < |outs|
          ensures outs[k].Some?
        {
          if k < |front| {
            assert outs[k] == front[k];
          }
        }
      }
    }
  }

  /** What analyze returns does not depend on the trie cursors, the lattice and the run
      buffer earlier calls left behind, given the same keySet and HashSet iteration orders.
      Each token is analysed from the reset state (Komoran.ResetForToken ensures
      `State() == Start`), so the earlier state only reaches the state analyze leaves,
      never its result; this lemma states that consequence of the fold. */
  lemma AnalyzeIgnoresEarlierState(cfg: Config, fwd: Option<map<string, seq<Pair>>>, sentence: string,
                                   init: Scan, init': Scan)
    requires ValidConfig(cfg)
    ensures AnalyzeSpec(cfg, fwd, sentence, init).result == AnalyzeSpec(cfg, fwd, sentence, init').result
  {
    var outs := TokenOuts(cfg, fwd, JavaSplit(sentence, ' '));
    AnalyzeNullIffBlank(outs, init);
    AnalyzeNullIffBlank(outs, init');
  }

  /** A blank first token makes analyze's loop return null at once, changing nothing. */
  lemma {:induction false} BlankFirstTokenStops(outs: seq<Option<TokenOut>>, init: Scan)
    requires outs != [] && outs[0].None?
    ensures AnalyzeTokens(outs, init) == Outcome(None, init)
  {
    if |outs| == 1 {
      assert AnalyzeTokens(outs[..0], init) == Outcome(Some([]), init);
    } else {
      var front := outs[..|outs| - 1];
      assert front[0] == outs[0];
      BlankFirstTokenStops(front, init);
    }
  }

  /** analyze(sentence) returns null exactly when the sentence has a blank token. */
  lemma AnalyzeNullIffBlankToken(cfg: Config, fwd: Option<map<string, seq<Pair>>>, sentence: string,
                                 init: Scan)
    requires ValidConfig(cfg)
    ensures AnalyzeSpec(cfg, fwd, sentence, init).result.None? <==>
              exists k :: 0 <= k < |JavaSplit(sentence, ' ')| && IsBlank(JavaSplit(sentence, ' ')[k])
  {
    var tokens := JavaSplit(sentence, ' ');
    var outs := TokenOuts(cfg, fwd, tokens);
    AnalyzeNullIffBlank(outs, init);
    if exists k :: 0 <= k < |outs| && outs[k].None? {
      var k :| 0 <= k < |outs| && outs[k].None?;
      assert IsBlank(tokens[k]);
    }
  }

  /** The empty sentence splits into one empty token, so analyze returns null. */
  lemma EmptySentenceIsNull(cfg: Config, fwd: Option<map<string, seq<Pair>>>, init: Scan)
    requires ValidConfig(cfg)
    ensures AnalyzeSpec(cfg, fwd, "", init) == Outcome(None, init)
  {
    var tokens := JavaSplit("", ' ');
    assert tokens == [""] && IsBlank(tokens[0]);
    BlankFirstTokenStops(TokenOuts(cfg, fwd, tokens), init);
  }

  /** A sentence made only of spaces has no tokens, so analyze returns an empty list and
      changes nothing. */
  lemma SpacesOnlyIsEmpty(cfg: Config, fwd: Option<map<string, seq<Pair>>>, sentence: string, init: Scan)
    requires ValidConfig(cfg)
    requires sentence != [] && forall k :: 0 <= k < |sentence| ==> sentence[k] == ' '
    ensures AnalyzeSpec(cfg, fwd, sentence, init) == Outcome(Some([]), init)
  {
    OnlySeparatorsSplitToNothing(sentence, ' ');
  }

  /** A sentence starting with a space, with a word after it, yields an empty first token,
      so analyze returns null and changes nothing. */
  lemma LeadingSpaceIsNull(cfg: Config, fwd: Option<map<string, seq<Pair>>>, sentence: string,
                           j: nat, init: Scan)
    requires ValidConfig(cfg)
    requires |sentence| > 0 && sentence[0] == ' ' && j < |sentence| && sentence[j] != ' '
    ensures AnalyzeSpec(cfg, fwd, sentence, init) == Outcome(None, init)
  {
    LeadingSeparatorGivesEmptyToken(sentence, ' ', j);
    BlankFirstSentenceToken(cfg, fwd, sentence, init);
  }

  /** A sentence whose first token is blank makes analyze return null, changing nothing. */
  lemma BlankFirstSentenceToken(cfg: Config, fwd: Option<map<string, seq<Pair>>>, sentence: string,
                                init: Scan)
    requires ValidConfig(cfg)
    requires |JavaSplit(sentence, ' ')| > 0 && JavaSplit(sentence, ' ')[0] == []
    ensures AnalyzeSpec(cfg, fwd, sentence, init) == Outcome(None, init)
  {
    BlankFirstTokenAnalysis(cfg, fwd, JavaSplit(sentence, ' '), init);
  }

  /** Token-level form: a blank first token stops the whole analysis. */
  lemma BlankFirstTokenAnalysis(cfg: Config, fwd: Option<map<string, seq<Pair>>>,
                                tokens: seq<string>, init: Scan)
    requires ValidConfig(cfg)
    requires |tokens| > 0 && tokens[0] == []
    ensures AnalyzeTokens(TokenOuts(cfg, fwd, tokens), init) == Outcome(None, init)
  {
    var outs := TokenOuts(cfg, fwd, tokens);
    assert IsBlank(tokens[0]);
    assert outs[0].None?;
    BlankFirstTokenStops(outs, init);
  }

  // ---------------------------------------------------------------- analyzeWithSpacing

  /** The sentence scan: the state of the passes, prevStartSymbolIdx, and the exception
      that ended the scan, if one did. */
  datatype Spacing = Spacing(scan: Scan, prevStart: int, thrown: Option<string>)

  /** The fallback node over the units `[b, e)`: tag NA, the given score, predecessor 0. */
  function NaNode(res: Resources, u: string, b: int, e: int, score: Score): (n: NodeValue)
    requires 0 <= b <= e <= |u|
    ensures n.beginIdx == b && n.endIdx == e && n.morphTag.morph == u[b..e]
    ensures n.morphTag.tag == NA && n.prevNodeIdx == 0
  {
    NodeValue(b, e, MorphTag(u[b..e], NA, res.tagId(NA)), score, 0)
  }

  /** Finalising the lattice at `end`: setLastIdx and appendEndNode; when no node reached
      `end`, an NA node over the units since the last space, scored like the first node of
      getNodeList(prevStart), and a second appendEndNode. A null node list throws a
      NullPointerException and an empty one an IndexOutOfBoundsException; the calls made
      before the exception stay made. */
  function Finalise(res: Resources, u: string, calls: seq<LatticeCall>, prevStart: int, end: int)
    : (r: (seq<LatticeCall>, Option<string>))
    requires -1 <= prevStart < end <= |u|
    ensures |r.0| >= |calls| + 2 && r.0[..|calls|] == calls
    ensures r.0[|calls|..|calls| + 2] == [SetLastIdx(end), AppendEnd]
    ensures res.lattice.endInserted(calls + [SetLastIdx(end)]) ==> r == (calls + [SetLastIdx(end), AppendEnd], None)
    ensures r.1 == Some("NullPointerException") <==>
              !res.lattice.endInserted(calls + [SetLastIdx(end)])
              && res.lattice.nodeList(calls + [SetLastIdx(end), AppendEnd], prevStart).None?
    ensures r.1 == Some("IndexOutOfBoundsException") <==>
              !res.lattice.endInserted(calls + [SetLastIdx(end)])
              && res.lattice.nodeList(calls + [SetLastIdx(end), AppendEnd], prevStart) == Some([])
    ensures r.1.Some? ==> r.0 == calls + [SetLastIdx(end), AppendEnd]
    ensures r.1.None? && !res.lattice.endInserted(calls + [SetLastIdx(end)]) ==>
              var nodes := res.lattice.nodeList(calls + [SetLastIdx(end), AppendEnd], prevStart);
              nodes.Some? && nodes.value != []
              && r.0 == calls + [SetLastIdx(end), AppendEnd,
                                 Append(NaNode(res, u, prevStart + 1, end, nodes.value[0].score)), AppendEnd]
  {
    var c1 := calls + [SetLastIdx(end)];
    var c2 := calls + [SetLastIdx(end), AppendEnd];
    if res.lattice.endInserted(c1) then (c2, None)
    else
      match res.lattice.nodeList(c2, prevStart)
      case None => (c2, Some("NullPointerException"))
      case Some(nodes) =>
        if nodes == [] then (c2, Some("IndexOutOfBoundsException"))
        else (c2 + [Append(NaNode(res, u, prevStart + 1, end, nodes[0].score)), AppendEnd], None)
  }

  /** One iteration of analyzeWithSpacing's loop at unit i: at a space the lattice is
      finalised there first and the space becomes prevStartSymbolIdx; then the passes run. */
  function SpacingUnit(cfg: Config, u: string, p: Spacing, i: nat): (q: Spacing)
    requires ValidConfig(cfg) && i < |u| && -1 <= p.prevStart < i
    ensures q.thrown.None? ==> p.thrown.None? && q.prevStart == if u[i] == ' ' then i else p.prevStart
    ensures -1 <= q.prevStart <= i
  {
    if p.thrown.Some? then p
    else
      var f := if u[i] == ' ' then Finalise(cfg.res, u, p.scan.calls, p.prevStart, i) else (p.scan.calls, None);
      if f.1.Some? then Spacing(p.scan.(calls := f.0), p.prevStart, f.1)
      else Spacing(UnitStep(cfg, p.scan.(calls := f.0), u[i], i), if u[i] == ' ' then i else p.prevStart, None)
  }

  /** The sentence scan after its first n units. */
  function SpacingPrefix(cfg: Config, s0: Scan, u: string, n: nat): (r: Spacing)
    requires ValidConfig(cfg) && n <= |u|
    ensures -1 <= r.prevStart < n
    ensures r.thrown.None? ==> r.prevStart == LastSpace(u, n)
  {
    if n == 0 then Spacing(s0, -1, None)
    else SpacingUnit(cfg, u, SpacingPrefix(cfg, s0, u, n - 1), n - 1)
  }

  /** The sentence scan at its end: the run buffer is flushed and the lattice finalised at
      the last index. */
  function SpacingEnd(cfg: Config, s0: Scan, u: string): Spacing
    requires ValidConfig(cfg)
  {
    var p := SpacingPrefix(cfg, s0, u, |u|);
    if p.thrown.Some? then p else SpacingClose(cfg, u, p)
  }

  /** The flush and the final finalisation after the last unit. */
  function SpacingClose(cfg: Config, u: string, p: Spacing): Spacing
    requires ValidConfig(cfg) && -1 <= p.prevStart < |u|
  {
    var s := ConsumeStep(cfg, p.scan, |u|);
    var f := Finalise(cfg.res, u, s.calls, p.prevStart, |u|);
    Spacing(s.(calls := f.0), p.prevStart, f.1)
  }

  /** analyzeWithSpacing(sentence), starting from the trie cursors left by earlier calls. */
  function SpacingResult(cfg: Config, cursors: Cursors, sentence: string): Result<seq<Pair>>
    requires ValidConfig(cfg)
  {
    var e := SpacingEnd(cfg, Scan([], EmptyBuffer, cursors), cfg.res.parse(sentence));
    if e.thrown.Some? then Thrown(e.thrown.value)
    else Ok(PathPairs(cfg.res.lattice.path(e.scan.calls), sentence))
  }

  /** Once an exception is thrown, the later units change nothing. */
  lemma {:induction false} ThrownStays(cfg: Config, s0: Scan, u: string, n: nat)
    requires ValidConfig(cfg) && n <= |u| && SpacingPrefix(cfg, s0, u, n).thrown.Some?
    ensures SpacingPrefix(cfg, s0, u, |u|) == SpacingPrefix(cfg, s0, u, n)
    decreases |u| - n
  {
    if n < |u| {
      ThrownStays(cfg, s0, u, n + 1);
    }
  }

  /** The position of the last space among the first n units, or -1. */
  function LastSpace(u: string, n: nat): (r: int)
    requires n <= |u|
    ensures -1 <= r < n
  {
    if n == 0 then -1 else if u[n - 1] == ' ' then n - 1 else LastSpace(u, n - 1)
  }

  /** prevStartSymbolIdx is the position of the last space seen so far, or -1: so every NA
      fallback node covers exactly the units since the last space, none of them a space. */
  lemma PrevStartIsLastSpace(cfg: Config, s0: Scan, u: string, n: nat)
    requires ValidConfig(cfg) && n <= |u|
    requires SpacingPrefix(cfg, s0, u, n).thrown.None?
    ensures SpacingPrefix(cfg, s0, u, n).prevStart == LastIndexOf(u[..n], ' ')
    ensures ' ' !in u[SpacingPrefix(cfg, s0, u, n).prevStart + 1..n]
  {
    LastSpaceIsLastIndexOf(u, n);
    var p := SpacingPrefix(cfg, s0, u, n).prevStart;
    assert u[..n][p + 1..] == u[p + 1..n];
  }

  /** The last space is String.lastIndexOf(' ') of the prefix. */
  lemma {:induction false} LastSpaceIsLastIndexOf(u: string, n: nat)
    requires n <= |u|
    ensures LastSpace(u, n) == LastIndexOf(u[..n], ' ')
  {
    if n > 0 {
      LastSpaceIsLastIndexOf(u, n - 1);
      assert u[..n][..n - 1] == u[..n - 1];
    }
  }
}
