/** The per-line logic of setUserDic and the line filter of setFWDic (Komoran.java), over
    lines already read from the dictionary file. Reading the file, the corpus parser that
    turns an accepted forward-dictionary line into pairs, and the trie the user entries go
    into are not part of this model: a loader here yields the entries it would put, or the
    lines it would hand to the parser, in file order. */
module DictionaryFiles {
  import opened Wrappers
  import opened JavaText
  import opened KomoranTypes

  // ---------------------------------------------------------------- user dictionary

  /** One `userDic.put(morph, pos, tagId, score)`. */
  datatype UserEntry = UserEntry(morph: string, pos: string, tagId: int, score: Score)

  /** One line of a user dictionary, with `tagId` standing for the tag table's getId. A
      blank line or one that starts with `#` once trimmed gives nothing. Otherwise the
      trimmed line splits at its last tab into the morpheme and its tag; a line without a
      tab is a proper noun (NNP). Every entry scores 0.0. */
  function UserDicLine(tagId: string -> int, line: string): Option<UserEntry>
  {
    var t := Trim(line);
    if |t| == 0 || t[0] == '#' then None
    else
      var lastIdx := LastIndexOf(t, '\t');
      if lastIdx == -1 then Some(UserEntry(Trim(t), NNP, tagId(NNP), 0.0))
      else Some(UserEntry(t[..lastIdx], t[lastIdx + 1..], tagId(t[lastIdx + 1..]), 0.0))
  }

  /** What an entry is: the trimmed line is the morpheme, a tab and the tag, the tag holding
      no tab; or, without a tab, the trimmed line itself tagged NNP. */
  lemma UserDicLineMeaning(tagId: string -> int, line: string)
    ensures var r := UserDicLine(tagId, line);
            && (r.None? <==> IsBlank(line) || Trim(line)[0] == '#')
            && (r.Some? ==> r.value.score == 0.0 && r.value.tagId == tagId(r.value.pos))
            && (r.Some? && '\t' !in Trim(line) ==> r.value.morph == Trim(line) && r.value.pos == NNP)
            && (r.Some? && '\t' in Trim(line) ==>
                  Trim(line) == r.value.morph + ['\t'] + r.value.pos && '\t' !in r.value.pos)
  {
    var t := Trim(line);
    if |t| != 0 && t[0] != '#' {
      var lastIdx := LastIndexOf(t, '\t');
      if lastIdx == -1 {
        TrimIdempotent(line);
      } else {
        assert t == t[..lastIdx] + ['\t'] + t[lastIdx + 1..];
      }
    }
  }

  /** What a line parser yields for the lines of a file, in line order. */
  function Collect<T>(parse: string -> Option<T>, lines: seq<string>): seq<T>
  {
    if lines == [] then []
    else
      Collect(parse, lines[..|lines| - 1])
        + match parse(lines[|lines| - 1]) case None => [] case Some(e) => [e]
  }

  /** Every value collected comes from one line, and every line that yields a value has it
      collected. */
  lemma {:induction false} CollectIsLines<T>(parse: string -> Option<T>, lines: seq<string>)
    ensures forall e :: e in Collect(parse, lines) ==>
              exists k :: 0 <= k < |lines| && parse(lines[k]) == Some(e)
    ensures forall k :: 0 <= k < |lines| && parse(lines[k]).Some? ==>
              parse(lines[k]).value in Collect(parse, lines)
  {
    if lines != [] {
      var front := lines[..|lines| - 1];
      CollectIsLines(parse, front);
      forall e | e in Collect(parse, lines)
        ensures exists k :: 0 <= k < |lines| && parse(lines[k]) == Some(e)
      {
        if e in Collect(parse, front) {
          var k :| 0 <= k < |front| && parse(front[k]) == Some(e);
          assert lines[k] == front[k];
        } else {
          assert parse(lines[|lines| - 1]) == Some(e);
        }
      }
      forall k | 0 <= k < |lines| && parse(lines[k]).Some?
        ensures parse(lines[k]).value in Collect(parse, lines)
      {
        if k < |front| {
          assert lines[k] == front[k];
        }
      }
    }
  }

  /** The entries setUserDic puts for the lines of a file, in line order. */
  function UserDicEntries(tagId: string -> int, lines: seq<string>): seq<UserEntry>
  {
    Collect(line => UserDicLine(tagId, line), lines)
  }

  /** Every entry put comes from one line of the file, and every line that is neither blank
      nor a comment gives its entry. */
  lemma UserDicEntriesAreLines(tagId: string -> int, lines: seq<string>)
    ensures forall e :: e in UserDicEntries(tagId, lines) ==>
              exists k :: 0 <= k < |lines| && UserDicLine(tagId, lines[k]) == Some(e)
    ensures forall k :: 0 <= k < |lines| && UserDicLine(tagId, lines[k]).Some? ==>
              UserDicLine(tagId, lines[k]).value in UserDicEntries(tagId, lines)
  {
    CollectIsLines(line => UserDicLine(tagId, line), lines);
  }

  /** setUserDic's read loop over the lines of the file. */
  method ReadUserDic(tagId: string -> int, lines: seq<string>) returns (entries: seq<UserEntry>)
    ensures entries == UserDicEntries(tagId, lines)
  {
    entries := [];
    for k := 0 to |lines|
      invariant entries == UserDicEntries(tagId, lines[..k])
    {
      assert lines[..k + 1][..k] == lines[..k];
      var entry := UserDicLine(tagId, lines[k]);
      if entry.Some? {
        entries := entries + [entry.value];
      }
    }
    assert lines[..|lines|] == lines;
  }

  // ---------------------------------------------------------------- forward dictionary

  /** What setFWDic's loop does with one line: skip it, hand it to the corpus parser, or
      throw the named exception. */
  datatype FwdVerdict = Skip | Parse | Throw(exception: string)

  /** The guard of setFWDic's loop as written: skip unless the line has exactly two tab
      fields, then test the first character of the first field. An empty first field has
      no first character, so `charAt(0)` throws. */
  function FwdLineAsWritten(line: string): (r: FwdVerdict)
    ensures r.Throw? <==> |JavaSplit(line, '\t')| == 2 && JavaSplit(line, '\t')[0] == []
    ensures r == Parse <==> FwdLineAccepted(line)
  {
    var tmp := JavaSplit(line, '\t');
    if |tmp| != 2 then Skip
    else if |tmp[0]| == 0 then Throw("StringIndexOutOfBoundsException")
    else if tmp[0][0] == '#' then Skip
    else Parse
  }

  /** setFWDic's loop as written: the lines handed to the parser, and whether an exception
      ended the loop. The exception is caught outside the loop, so no later line is read. */
  datatype FwdLoad = FwdLoad(parsed: seq<string>, aborted: bool)

  function FwdLoadAsWritten(lines: seq<string>): (r: FwdLoad)
    ensures r.aborted <==> exists k :: 0 <= k < |lines| && FwdLineAsWritten(lines[k]).Throw?
  {
    if lines == [] then FwdLoad([], false)
    else
      var p := FwdLoadAsWritten(lines[..|lines| - 1]);
      var line := lines[|lines| - 1];
      assert forall k :: 0 <= k < |lines| - 1 ==> lines[..|lines| - 1][k] == lines[k];
      if p.aborted then p
      else
        match FwdLineAsWritten(line)
        case Skip => p
        case Parse => FwdLoad(p.parsed + [line], false)
        case Throw(_) => FwdLoad(p.parsed, true)
  }

  /** A line whose first tab field is empty ends the load: a well-formed entry after it is
      never handed to the parser, although the filter accepts it. */
  lemma EmptyKeyStopsLoading()
    ensures FwdLineAccepted("a\tb")
    ensures FwdLoadAsWritten(["\tX", "a\tb"]) == FwdLoad([], true)
  {
    assert SplitAll("b", '\t') == ["b"];
    assert "\tb"[1..] == "b";
    assert SplitAll("\tb", '\t') == [[], "b"];
    assert "a\tb"[1..] == "\tb";
    assert ['a'] + [] == "a";
    assert SplitAll("a\tb", '\t') == ["a", "b"];
    assert JavaSplit("a\tb", '\t') == ["a", "b"];
    assert SplitAll("X", '\t') == ["X"];
    assert "\tX"[1..] == "X";
    assert SplitAll("\tX", '\t') == [[], "X"];
    assert JavaSplit("\tX", '\t') == [[], "X"];
    var lines := ["\tX", "a\tb"];
    assert lines[..1] == ["\tX"];
    assert lines[..1][..0] == [];
    assert FwdLoadAsWritten(lines[..1]) == FwdLoad([], true);
  }

  /** The filter as intended: exactly two tab fields, the first one non-empty and not a
      comment. */
  predicate FwdLineAccepted(line: string) {
    var tmp := JavaSplit(line, '\t');
    |tmp| == 2 && tmp[0] != [] && tmp[0][0] != '#'
  }

  /** The corrected loop: every accepted line is handed to the parser, in file order. */
  function FwdParsed(lines: seq<string>): seq<string>
  {
    if lines == [] then []
    else
      var line := lines[|lines| - 1];
      FwdParsed(lines[..|lines| - 1]) + if FwdLineAccepted(line) then [line] else []
  }

  /** A line is parsed exactly when it is in the file and the filter accepts it, whatever
      the other lines hold. */
  lemma {:induction false} FwdParsedIsFilter(lines: seq<string>)
    ensures forall line :: line in FwdParsed(lines) <==> line in lines && FwdLineAccepted(line)
  {
    if lines != [] {
      var front := lines[..|lines| - 1];
      FwdParsedIsFilter(front);
      assert lines == front + [lines[|lines| - 1]];
    }
  }

  /** On a file without an empty first field the code as written parses the same lines as
      the corrected loop and never aborts. */
  lemma {:induction false} AsWrittenAgreesWithoutEmptyKeys(lines: seq<string>)
    requires forall k :: 0 <= k < |lines| ==> !FwdLineAsWritten(lines[k]).Throw?
    ensures FwdLoadAsWritten(lines) == FwdLoad(FwdParsed(lines), false)
  {
    if lines != [] {
      var front := lines[..|lines| - 1];
      assert forall k :: 0 <= k < |front| ==> front[k] == lines[k];
      AsWrittenAgreesWithoutEmptyKeys(front);
    }
  }
}
