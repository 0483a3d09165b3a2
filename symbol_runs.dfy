/** The continuous-symbol run detector of Komoran.java (continiousSymbolParsing and
    consumeContiniousSymbolParserBuffer) on its own: a three-field buffer that groups
    adjacent units of one class and emits the group lazily, when the class changes or at
    the final flush. `kinds[j]` is the class of unit `j` ("SL", "SN", "SH" or ""). */
module SymbolRuns {
  import opened JavaText

  /** The classes that produce a span; any other class (in practice "") never does. */
  predicate IsRunClass(pos: string) {
    pos == "SL" || pos == "SN" || pos == "SH"
  }

  /** The fields prevPos, prevMorph and prevBeginIdx. */
  datatype Buffer = Buffer(pos: string, morph: string, beginIdx: int)

  /** A span the detector asks the lattice to hold: `[beginIdx, endIdx)` tagged `pos`. */
  datatype Span = Span(beginIdx: int, endIdx: int, morph: string, pos: string)

  /** The buffer as each analysis resets it. */
  const EmptyBuffer := Buffer("", "", 0)

  /** One call of continiousSymbolParsing for unit `c` of class `cur` at position `i`: the new
      buffer and the span it emits (none, or the finished run `[prevBeginIdx, i)`). */
  function RunStep(b: Buffer, cur: string, c: char, i: int): (Buffer, seq<Span>)
  {
    if cur == b.pos then
      (b.(morph := b.morph + [c]), [])
    else
      var emitted := if IsRunClass(b.pos) then [Span(b.beginIdx, i, b.morph, b.pos)] else [];
      (Buffer(cur, [c], i), emitted)
  }

  /** consumeContiniousSymbolParserBuffer over a unit string of length n. */
  function FlushRun(b: Buffer, n: int): (r: seq<Span>)
    ensures r == if IsRunClass(b.pos) then [Span(b.beginIdx, n, b.morph, b.pos)] else []
  {
    assert IsRunClass(b.pos) ==> !IsTrimmed(b.pos[0]);
    if !IsBlank(b.pos) then
      if IsRunClass(b.pos) then [Span(b.beginIdx, n, b.morph, b.pos)] else []
    else []
  }

  /** The buffer and the spans emitted after the first n units. */
  function RunScan(kinds: seq<string>, u: seq<char>, n: nat): (Buffer, seq<Span>)
    requires n <= |u| == |kinds|
  {
    if n == 0 then (EmptyBuffer, [])
    else
      var prev := RunScan(kinds, u, n - 1);
      var next := RunStep(prev.0, kinds[n - 1], u[n - 1], n - 1);
      (next.0, prev.1 + next.1)
  }

  /** Every span of a whole scan followed by the final flush. */
  function AllRuns(kinds: seq<string>, u: seq<char>): seq<Span>
    requires |u| == |kinds|
  {
    var r := RunScan(kinds, u, |u|);
    r.1 + FlushRun(r.0, |u|)
  }

  /** `[b, e)` is a maximal run of one class: it cannot be widened on either side. */
  ghost predicate IsMaximalRun(kinds: seq<string>, b: int, e: int) {
    0 <= b < e <= |kinds|
    && (forall j :: b <= j < e ==> kinds[j] == kinds[b])
    && (b == 0 || kinds[b - 1] != kinds[b])
    && (e == |kinds| || kinds[e] != kinds[b])
  }

  /** A span that is a maximal SL/SN/SH run, holding exactly its units. */
  ghost predicate SpanIsRun(kinds: seq<string>, u: seq<char>, s: Span)
    requires |u| == |kinds|
  {
    IsMaximalRun(kinds, s.beginIdx, s.endIdx)
    && s.pos == kinds[s.beginIdx] && IsRunClass(s.pos)
    && s.morph == u[s.beginIdx..s.endIdx]
  }

  /** Left to right and pairwise disjoint. */
  ghost predicate Ordered(spans: seq<Span>) {
    forall k :: 0 <= k < |spans| - 1 ==> spans[k].endIdx <= spans[k + 1].beginIdx
  }

  /** The buffer invariant after n units: prevMorph is the unit substring
      `[prevBeginIdx, n)`, every unit in it has class prevPos, and the unit before it has
      another class. */
  ghost predicate BufferHolds(kinds: seq<string>, u: seq<char>, n: nat, b: Buffer)
    requires n <= |u| == |kinds|
  {
    0 <= b.beginIdx <= n
    && b.morph == u[b.beginIdx..n]
    && (forall j :: b.beginIdx <= j < n ==> kinds[j] == b.pos)
    && (b.beginIdx > 0 ==> kinds[b.beginIdx - 1] != b.pos)
    && (n > 0 ==> b.beginIdx < n)
    && (n == 0 ==> b.pos == "")
  }

  /** One step keeps the buffer invariant. */
  lemma StepKeepsBuffer(kinds: seq<string>, u: seq<char>, n: nat, b: Buffer)
    requires n < |u| == |kinds|
    requires BufferHolds(kinds, u, n, b)
    ensures BufferHolds(kinds, u, n + 1, RunStep(b, kinds[n], u[n], n).0)
  {
    assert u[b.beginIdx..n + 1] == u[b.beginIdx..n] + [u[n]];
    if kinds[n] != b.pos && n > 0 {
      assert kinds[n - 1] == b.pos;
    }
  }

  /** What has been emitted after n units, relative to the buffer's start. */
  ghost predicate EmittedHold(kinds: seq<string>, u: seq<char>, spans: seq<Span>, upTo: int)
    requires |u| == |kinds|
  {
    (forall k :: 0 <= k < |spans| ==> SpanIsRun(kinds, u, spans[k]) && spans[k].endIdx <= upTo)
    && Ordered(spans)
    && (forall b, e :: IsMaximalRun(kinds, b, e) && e <= upTo && IsRunClass(kinds[b])
          ==> Span(b, e, u[b..e], kinds[b]) in spans)
  }

  /** A maximal run that ends inside the units seen so far, past the buffer's start, is the
      buffered run itself. */
  lemma RunPastBufferIsBuffer(kinds: seq<string>, u: seq<char>, n: nat, buf: Buffer, b: int, e: int)
    requires n <= |u| == |kinds|
    requires BufferHolds(kinds, u, n, buf)
    requires IsMaximalRun(kinds, b, e) && buf.beginIdx < e <= n
    ensures b == buf.beginIdx && e == n && kinds[b] == buf.pos
  {
    assert kinds[e - 1] == buf.pos && kinds[e - 1] == kinds[b];
  }

  /** The span a class change emits is a maximal run. */
  lemma EmittedIsRun(kinds: seq<string>, u: seq<char>, n: nat, buf: Buffer)
    requires n <= |u| == |kinds|
    requires BufferHolds(kinds, u, n, buf) && IsRunClass(buf.pos)
    requires n == |u| || kinds[n] != buf.pos
    ensures SpanIsRun(kinds, u, Span(buf.beginIdx, n, buf.morph, buf.pos))
  {
  }

  /** Emitting the buffered run at n keeps every maximal run ending by n emitted. */
  lemma EmitKeepsComplete(kinds: seq<string>, u: seq<char>, n: nat, buf: Buffer,
                          spans: seq<Span>, out: seq<Span>)
    requires n <= |u| == |kinds|
    requires BufferHolds(kinds, u, n, buf) && EmittedHold(kinds, u, spans, buf.beginIdx)
    requires out == if IsRunClass(buf.pos) then [Span(buf.beginIdx, n, buf.morph, buf.pos)] else []
    ensures forall b, e :: IsMaximalRun(kinds, b, e) && e <= n && IsRunClass(kinds[b])
              ==> Span(b, e, u[b..e], kinds[b]) in spans + out
  {
    forall b, e | IsMaximalRun(kinds, b, e) && e <= n && IsRunClass(kinds[b])
      ensures Span(b, e, u[b..e], kinds[b]) in spans + out
    {
      if e > buf.beginIdx {
        RunPastBufferIsBuffer(kinds, u, n, buf, b, e);
        assert (spans + out)[|spans|] == Span(b, e, u[b..e], kinds[b]);
      } else {
        assert Span(b, e, u[b..e], kinds[b]) in spans;
      }
    }
  }

  /** Emitting the buffered run at n keeps the emitted spans sound and ordered. */
  lemma EmitKeepsSound(kinds: seq<string>, u: seq<char>, n: nat, buf: Buffer,
                       spans: seq<Span>, out: seq<Span>)
    requires n <= |u| == |kinds|
    requires n == |u| || kinds[n] != buf.pos
    requires BufferHolds(kinds, u, n, buf) && EmittedHold(kinds, u, spans, buf.beginIdx)
    requires out == if IsRunClass(buf.pos) then [Span(buf.beginIdx, n, buf.morph, buf.pos)] else []
    ensures forall k :: 0 <= k < |spans + out| ==>
              SpanIsRun(kinds, u, (spans + out)[k]) && (spans + out)[k].endIdx <= n
    ensures Ordered(spans + out)
  {
    if IsRunClass(buf.pos) {
      EmittedIsRun(kinds, u, n, buf);
    }
  }

  /** Both invariants of a scan state after n units. */
  ghost predicate ScanHolds(kinds: seq<string>, u: seq<char>, n: nat, r: (Buffer, seq<Span>))
    requires n <= |u| == |kinds|
  {
    BufferHolds(kinds, u, n, r.0) && EmittedHold(kinds, u, r.1, r.0.beginIdx)
  }

  /** One step of the scan keeps the buffer invariant and the emitted-spans invariant. */
  lemma StepKeepsScan(kinds: seq<string>, u: seq<char>, n: nat,
                      prev: (Buffer, seq<Span>), next: (Buffer, seq<Span>))
    requires n < |u| == |kinds|
    requires ScanHolds(kinds, u, n, prev)
    requires next == RunStep(prev.0, kinds[n], u[n], n)
    ensures ScanHolds(kinds, u, n + 1, (next.0, prev.1 + next.1))
  {
    var buf, spans := prev.0, prev.1;
    StepKeepsBuffer(kinds, u, n, buf);
    if kinds[n] != buf.pos {
      EmitKeepsSound(kinds, u, n, buf, spans, next.1);
      EmitKeepsComplete(kinds, u, n, buf, spans, next.1);
    } else {
      assert spans + next.1 == spans;
    }
  }

  /** The scan invariant: the buffer invariant, and every span emitted so far is a maximal
      run lying before the buffer, in order, with every such run emitted. */
  lemma {:induction false} RunScanInvariant(kinds: seq<string>, u: seq<char>, n: nat)
    requires n <= |u| == |kinds|
    ensures ScanHolds(kinds, u, n, RunScan(kinds, u, n))
  {
    if n > 0 {
      RunScanInvariant(kinds, u, n - 1);
      var prev := RunScan(kinds, u, n - 1);
      var next := RunStep(prev.0, kinds[n - 1], u[n - 1], n - 1);
      StepKeepsScan(kinds, u, n - 1, prev, next);
      assert RunScan(kinds, u, n) == (next.0, prev.1 + next.1);
    }
  }

  /** Over a whole scan plus the final flush the emitted spans are exactly the maximal runs
      of one SL/SN/SH class, left to right and pairwise disjoint, each holding its own
      units. */
  lemma {:induction false} AllRunsAreMaximalRuns(kinds: seq<string>, u: seq<char>)
    requires |u| == |kinds|
    ensures forall k :: 0 <= k < |AllRuns(kinds, u)| ==> SpanIsRun(kinds, u, AllRuns(kinds, u)[k])
    ensures Ordered(AllRuns(kinds, u))
    ensures forall b, e :: IsMaximalRun(kinds, b, e) && IsRunClass(kinds[b])
              ==> Span(b, e, u[b..e], kinds[b]) in AllRuns(kinds, u)
  {
    var n := |u|;
    RunScanInvariant(kinds, u, n);
    var r := RunScan(kinds, u, n);
    assert ScanHolds(kinds, u, n, r);
    var buf, spans := r.0, r.1;
    var out := if IsRunClass(buf.pos) then [Span(buf.beginIdx, n, buf.morph, buf.pos)] else [];
    assert IsRunClass(buf.pos) ==> buf.pos[0] == 'S';
    assert FlushRun(buf, n) == out;
    EmitKeepsSound(kinds, u, n, buf, spans, out);
    EmitKeepsComplete(kinds, u, n, buf, spans, out);
  }

  /** The class "" (and any class other than SL, SN and SH) never produces a span, and every
      span is non-empty. */
  lemma AllRunsShape(kinds: seq<string>, u: seq<char>, k: nat)
    requires |u| == |kinds| && k < |AllRuns(kinds, u)|
    ensures IsRunClass(AllRuns(kinds, u)[k].pos) && AllRuns(kinds, u)[k].pos != ""
    ensures 0 <= AllRuns(kinds, u)[k].beginIdx < AllRuns(kinds, u)[k].endIdx <= |u|
  {
    AllRunsAreMaximalRuns(kinds, u);
    assert SpanIsRun(kinds, u, AllRuns(kinds, u)[k]);
  }
}
