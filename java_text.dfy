/** The few java.lang.String and java.util.Collections operations the analyzer relies on,
    written out with the JDK's documented behaviour. */
module JavaText {

  /** The characters `String.trim()` strips: every code point up to U+0020. */
  predicate IsTrimmed(c: char) {
    c <= ' '
  }

  /** `s.trim().length() == 0`: every character is trimmable. */
  predicate IsBlank(s: string) {
    forall k :: 0 <= k < |s| ==> IsTrimmed(s[k])
  }

  /** The first index at or after i whose character is kept by `trim()`, or |s|. */
  function TrimStartIdx(s: string, i: nat): (b: nat)
    requires i <= |s|
    ensures i <= b <= |s|
    ensures forall k :: i <= k < b ==> IsTrimmed(s[k])
    ensures b < |s| ==> !IsTrimmed(s[b])
    decreases |s| - i
  {
    if i < |s| && IsTrimmed(s[i]) then TrimStartIdx(s, i + 1) else i
  }

  /** One past the last index in [b, e) whose character is kept by `trim()`, or b. */
  function TrimEndIdx(s: string, b: nat, e: nat): (r: nat)
    requires b <= e <= |s|
    ensures b <= r <= e
    ensures forall k :: r <= k < e ==> IsTrimmed(s[k])
    ensures r > b ==> !IsTrimmed(s[r - 1])
  {
    if e > b && IsTrimmed(s[e - 1]) then TrimEndIdx(s, b, e - 1) else e
  }

  /** `String.trim()`: the substring left after removing the leading and the trailing
      characters up to U+0020; empty exactly when every character is trimmable. */
  function Trim(s: string): (r: string)
    ensures r == [] <==> IsBlank(s)
    ensures r != [] ==> !IsTrimmed(r[0]) && !IsTrimmed(r[|r| - 1])
    ensures exists b, e :: 0 <= b <= e <= |s| && r == s[b..e] && IsBlank(s[..b]) && IsBlank(s[e..])
  {
    var b := TrimStartIdx(s, 0);
    var e := TrimEndIdx(s, b, |s|);
    assert b < |s| ==> e > b;
    assert IsBlank(s[..b]) && IsBlank(s[e..]);
    s[b..e]
  }

  /** Trimming a trimmed string changes nothing. */
  lemma TrimIdempotent(s: string)
    ensures Trim(Trim(s)) == Trim(s)
  {
    var t := Trim(s);
    if t != [] {
      assert TrimStartIdx(t, 0) == 0;
      assert TrimEndIdx(t, 0, |t|) == |t|;
      assert t[0..|t|] == t;
    }
  }

  /** Joins pieces with one separator between neighbours. */
  function Join(parts: seq<string>, sep: char): string
  {
    if parts == [] then []
    else if |parts| == 1 then parts[0]
    else parts[0] + [sep] + Join(parts[1..], sep)
  }

  /** Every piece between separators, empty ones included (n separators give n+1 pieces). */
  function SplitAll(s: string, sep: char): (parts: seq<string>)
    ensures |parts| >= 1
    ensures forall k :: 0 <= k < |parts| ==> sep !in parts[k]
    ensures Join(parts, sep) == s
    decreases |s|
  {
    if s == [] then [[]]
    else
      var rest := SplitAll(s[1..], sep);
      if s[0] == sep then
        assert [s[0]] + s[1..] == s;
        [[]] + rest
      else
        var parts := [[s[0]] + rest[0]] + rest[1..];
        assert parts[1..] == rest[1..];
        assert [s[0]] + s[1..] == s;
        parts
  }

  /** The trailing-empty-string removal that `String.split` performs with limit 0. */
  function DropTrailingEmpty(parts: seq<string>): (r: seq<string>)
    ensures |r| <= |parts| && r == parts[..|r|]
    ensures r == [] || r[|r| - 1] != []
    ensures forall k :: |r| <= k < |parts| ==> parts[k] == []
  {
    if parts != [] && parts[|parts| - 1] == [] then DropTrailingEmpty(parts[..|parts| - 1])
    else parts
  }

  /** `s.split(String.valueOf(sep))` for a separator that is not a regular-expression
      metacharacter: the whole string when the separator does not occur (so `""` gives
      `[""]`), otherwise every piece with the trailing empty ones removed. */
  function JavaSplit(s: string, sep: char): (r: seq<string>)
    ensures forall k :: 0 <= k < |r| ==> sep !in r[k]
  {
    if sep !in s then [s] else DropTrailingEmpty(SplitAll(s, sep))
  }

  /** A string made only of separators splits into no token at all. */
  lemma {:induction false} OnlySeparatorsSplitToNothing(s: string, sep: char)
    requires s != [] && forall k :: 0 <= k < |s| ==> s[k] == sep
    ensures JavaSplit(s, sep) == []
  {
    assert s[0] == sep;
    AllPiecesEmpty(s, sep);
  }

  lemma {:induction false} AllPiecesEmpty(s: string, sep: char)
    requires forall k :: 0 <= k < |s| ==> s[k] == sep
    ensures forall k :: 0 <= k < |SplitAll(s, sep)| ==> SplitAll(s, sep)[k] == []
    ensures DropTrailingEmpty(SplitAll(s, sep)) == []
    decreases |s|
  {
    if s != [] {
      AllPiecesEmpty(s[1..], sep);
    }
  }

  /** An empty piece survives `String.split` whenever a non-empty piece follows it. */
  lemma EmptyPieceKept(s: string, sep: char, k: nat, later: nat)
    requires k < later < |SplitAll(s, sep)|
    requires SplitAll(s, sep)[k] == [] && SplitAll(s, sep)[later] != []
    ensures k < |JavaSplit(s, sep)| && JavaSplit(s, sep)[k] == []
  {
    var parts := SplitAll(s, sep);
    if sep !in s {
      NoSeparatorOnePiece(s, sep);
    }
    var r := DropTrailingEmpty(parts);
    assert later < |r|;
  }

  lemma {:induction false} NoSeparatorOnePiece(s: string, sep: char)
    requires sep !in s
    ensures SplitAll(s, sep) == [s]
    decreases |s|
  {
    if s != [] {
      assert sep !in s[1..];
      NoSeparatorOnePiece(s[1..], sep);
      assert [s[0]] + s[1..] == s;
    }
  }

  /** A separator in front of a non-separator character yields an empty first token: the
      reason `analyze(" a")` has an empty token. */
  lemma LeadingSeparatorGivesEmptyToken(s: string, sep: char, j: nat)
    requires |s| > 0 && s[0] == sep
    requires j < |s| && s[j] != sep
    ensures |JavaSplit(s, sep)| > 0 && JavaSplit(s, sep)[0] == []
  {
    var rest := SplitAll(s[1..], sep);
    assert SplitAll(s, sep) == [[]] + rest;
    var m := PieceHolding(s[1..], sep, j - 1);
    EmptyPieceKept(s, sep, 0, m + 1);
  }

  /** Some piece of the split holds the non-separator character at position j. */
  lemma {:induction false} PieceHolding(s: string, sep: char, j: nat) returns (m: nat)
    requires j < |s| && s[j] != sep
    ensures m < |SplitAll(s, sep)| && SplitAll(s, sep)[m] != []
    decreases |s|
  {
    var rest := SplitAll(s[1..], sep);
    if j == 0 {
      assert s[0] != sep;
      m := 0;
    } else {
      var m' := PieceHolding(s[1..], sep, j - 1);
      if s[0] == sep {
        m := m' + 1;
      } else {
        m := m';
        if m' > 0 {
          assert SplitAll(s, sep)[m] == rest[m'];
        }
      }
    }
  }

  /** `String.lastIndexOf(c)`: -1 when absent, else the position of the last occurrence. */
  function LastIndexOf(s: string, c: char): (r: int)
    ensures -1 <= r < |s|
    ensures r == -1 <==> c !in s
    ensures r >= 0 ==> s[r] == c && c !in s[r + 1..]
  {
    if s == [] then -1
    else if s[|s| - 1] == c then |s| - 1
    else
      var r := LastIndexOf(s[..|s| - 1], c);
      assert s == s[..|s| - 1] + [s[|s| - 1]];
      assert r >= 0 ==> s[r + 1..] == s[..|s| - 1][r + 1..] + [s[|s| - 1]];
      r
  }

  /** `Collections.reverse`. */
  function Reverse<T>(s: seq<T>): (r: seq<T>)
    ensures |r| == |s|
    ensures forall k :: 0 <= k < |s| ==> r[k] == s[|s| - 1 - k]
  {
    if s == [] then [] else Reverse(s[1..]) + [s[0]]
  }
}
