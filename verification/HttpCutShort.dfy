// Responses cut short, parsed twice as the multi-request engine does when the peer closes:
// in the body or in the headers, and taken for whole; and one that runs into what C leaves
// open (corRestClientMulti.c:880-945).
module HttpCutShort {
  import opened Base
  import opened CStrings
  import opened HttpScan
  import opened HttpChunks
  import opened HttpResponse
  import opened HttpFinal
  import opened HttpMarks

  // "H 200", then "Content-Length: 5", then two bytes of the body.
  const CUT_SHORT: seq<Byte> :=
    [72, SP, 50, 48, 48, CR, LF] + (CONTENT_LENGTH + [COLON, SP, 53, CR, LF]) + [CR, LF, 97, 98]

  // Incomplete for the first parse, for the second a whole response without a body.
  lemma CutShortIsWhole(residue: seq<Byte>)
    ensures CrlfResponse(CUT_SHORT) && Parse(CUT_SHORT) == Incomplete
    ensures Parse(Left(CUT_SHORT, residue)) == Response(200, NOTHING_SAID, NoBody)
  {
    hide Headers, ParseLine, CrlfLines, Left, FindCrlf, ParseCode;
    CutShortStatus(CUT_SHORT);
    CutShortBlock(CUT_SHORT[7..]);
    SecondParse(CUT_SHORT, residue);
  }

  lemma CutShortStatus(s: seq<Byte>)
    requires |s| > 7 && s[..7] == [72, SP, 50, 48, 48, CR, LF]
    ensures FindCrlf(s) == Some(Line(5, 7)) && ParseCode(s[..5]) == Some(200)
  {
    var status := s[..7][..5];
    assert status == s[..5] == [72, SP, 50, 48, 48];
    assert s[..6] == s[..7][..6] && s[..7][6] == s[6] && s[..7][5] == s[5];
    IndexOfIs(s, LF, 6);
    assert status[..1] == [72];
    IndexOfIs(status, SP, 1);
  }

  lemma CutShortBlock(s: seq<Byte>)
    requires s == CONTENT_LENGTH + [COLON, SP, 53, CR, LF] + [CR, LF, 97, 98]
    ensures Headers(s, NOTHING_SAID, ParseLine) == Some(([97, 98], Framing(5, false, true))) && CrlfLines(s)
  {
    var line := CONTENT_LENGTH + [COLON, SP, 53];
    CutShortLine();
    assert s[..17] == line;
    IndexOfIs(s, LF, 18);
    var rest := s[19..];
    assert rest == [CR, LF, 97, 98];
    assert rest[..1] == [CR];
    IndexOfIs(rest, LF, 1);
    assert FindCrlf(rest) == Some(Line(0, 2));
    assert rest[2..] == [97, 98];
  }

  lemma CutShortLine()
    ensures ParseLine(CONTENT_LENGTH + [COLON, SP, 53], NOTHING_SAID) == Framing(5, false, true)
  {
    var line := CONTENT_LENGTH + [COLON, SP, 53];
    assert line[..14] == CONTENT_LENGTH;
    IndexOfIs(line, COLON, 14);
    assert line[15..] == [SP, 53];
    assert [SP, 53][1..] == [53];
    assert SkipBlanks([53]) == [53];
    assert ValueOf(line) == [53];
    CStringOfPlain([53]);
    assert Digits([53], 0) == 5 by { assert [53][1..] == []; }
    assert Named(line, CONTENT_LENGTH);
  }

  // ---------------------------------------------------------------------------
  // Whole lines

  lemma {:induction false} BlockOfWholeLines(s: seq<Byte>, fr: Framing)
    ensures Headers(s, fr, ParseLine).Some? <==> s == [] || s[|s| - 1] == LF || Ended(s)
    decreases |s|
  {
    hide ParseLine;
    IndexOfMeans(s, LF);
    if s != [] && FindCrlf(s).Some? {
      var line := FindCrlf(s).value;
      if line.len != 0 {
        BlockOfWholeLines(s[line.next..], ParseLine(s[..line.len], fr));
      }
    }
  }

  // The lines are whole when the empty line is there, or the bytes stop at some line's end:
  // the header block need not have ended.
  lemma LinesWholeMeans(s: seq<Byte>)
    requires FindCrlf(s).Some? && ParseCode(s[..FindCrlf(s).value.len]).Some?
    ensures LinesWhole(s) <==> HeadersEnded(s) || s[|s| - 1] == LF
  {
    hide ParseCode, Headers, Ended;
    var rest := s[FindCrlf(s).value.next..];
    BlockOfWholeLines(rest, NOTHING_SAID);
    LineEndsInLf(s);
  }

  lemma LineEndsInLf(s: seq<Byte>)
    requires FindCrlf(s).Some?
    ensures s[FindCrlf(s).value.next - 1] == LF
  {
    IndexOfMeans(s, LF);
  }

  // "H 200", then "Content-Length: 5", and no more: headers that have not ended, and yet a
  // second parse takes them for a whole response.
  const HEAD_ONLY: seq<Byte> := [72, SP, 50, 48, 48, CR, LF] + (CONTENT_LENGTH + [COLON, SP, 53, CR, LF])

  lemma HeadOnlyIsWhole(residue: seq<Byte>)
    ensures CrlfResponse(HEAD_ONLY) && LinesWhole(HEAD_ONLY) && !HeadersEnded(HEAD_ONLY)
    ensures Parse(HEAD_ONLY) == Incomplete
    ensures Parse(Left(HEAD_ONLY, residue)) == Response(200, NOTHING_SAID, NoBody)
  {
    hide Headers, ParseLine, CrlfLines, Left, FindCrlf, ParseCode, Ended;
    CutShortStatus(HEAD_ONLY);
    HeadOnlyBlock(HEAD_ONLY[7..]);
    SecondParse(HEAD_ONLY, residue);
  }

  lemma HeadOnlyBlock(s: seq<Byte>)
    requires s == CONTENT_LENGTH + [COLON, SP, 53, CR, LF]
    ensures Headers(s, NOTHING_SAID, ParseLine) == Some(([], Framing(5, false, true))) && CrlfLines(s) && !Ended(s)
  {
    hide ParseLine;
    CutShortLine();
    assert s[..17] == CONTENT_LENGTH + [COLON, SP, 53];
    IndexOfIs(s, LF, 18);
    assert s[19..] == [];
  }

  // ---------------------------------------------------------------------------
  // A negative chunk size

  const LENGTH_LINE: seq<Byte> := CONTENT_LENGTH + [COLON, 57, 57]
  const CHUNKED_LINE: seq<Byte> := TRANSFER_ENCODING + [COLON] + CHUNKED
  const NEGATIVE_SIZE: seq<Byte> := [45, 53, LF, 97, 98, 99]
  const CHUNKED_BODY: seq<Byte> := CHUNKED_LINE + [LF, LF] + NEGATIVE_SIZE
  const LENGTH_BLOCK: seq<Byte> := LENGTH_LINE + [LF, LF] + CHUNKED_BODY

  // "H 200", "Content-Length:99", the empty line, and in the body "Transfer-Encoding:chunked",
  // an empty line, "-5" and three bytes; every line ends in LF alone.
  const NEGATIVE_CHUNK: seq<Byte> := [72, SP, 50, 48, 48, LF] + LENGTH_BLOCK

  // More to come for the check, incomplete for the first parse; the second hands memmove a
  // negative length.
  lemma SecondIsNotDefined(residue: seq<Byte>)
    ensures Check(NEGATIVE_CHUNK) == 1 && Parse(NEGATIVE_CHUNK) == Incomplete
    ensures Parse(Left(NEGATIVE_CHUNK, residue)) == NotDefined
  {
    hide Headers, ParseLine, ScanLine, Left, FindCrlf, ParseCode, Dechunk, FateOf, ScanCode;
    var s := NEGATIVE_CHUNK;
    StatusEndsAtFive(s);
    assert s[6..] == LENGTH_BLOCK;
    LengthBlockIs();
    BodyIsTooShort();
    ChunkedBodyIs();
    NegativeIsUndefined();
    NoText(s[..5]);
    UndefinedExactly(s, residue);
  }

  lemma BodyIsTooShort()
    ensures |CHUNKED_BODY| < 99
  {
  }

  lemma NoText(line: seq<Byte>)
    requires line == [72, SP, 50, 48, 48]
    ensures ParseCode(line).Some? && TextAt(line) == 5
  {
    assert line[..1] == [72];
    IndexOfIs(line, SP, 1);
  }

  lemma StatusEndsAtFive(s: seq<Byte>)
    requires |s| > 6 && s[..6] == [72, SP, 50, 48, 48, LF]
    ensures FindCrlf(s) == Some(Line(5, 6)) && s[..5] == [72, SP, 50, 48, 48] && ParseCode(s[..5]) == Some(200)
  {
    assert s[..5] == s[..6][..5] == [72, SP, 50, 48, 48];
    assert s[..6][5] == s[5] && s[..6][4] == s[4];
    IndexOfIs(s, LF, 5);
    assert s[..5][..1] == [72];
    IndexOfIs(s[..5], SP, 1);
  }

  // Some line, an empty one, and these bytes.
  lemma LineThenEmpty(l: seq<Byte>, rest: seq<Byte>)
    requires l != [] && LF !in l && l[|l| - 1] != CR
    ensures var s := l + [LF, LF] + rest;
            && FindCrlf(s) == Some(Line(|l|, |l| + 1)) && s[..|l|] == l && s[|l| + 1..] == [LF] + rest
            && FindCrlf([LF] + rest) == Some(Line(0, 1)) && ([LF] + rest)[1..] == rest
  {
    var s := l + [LF, LF] + rest;
    assert s[..|l|] == l;
    IndexOfIs(s, LF, |l|);
    IndexOfIs([LF] + rest, LF, 0);
  }

  lemma TwoLines(l: seq<Byte>, rest: seq<Byte>, fr: Framing, read: Reader)
    requires l != [] && LF !in l && l[|l| - 1] != CR
    ensures Headers(l + [LF, LF] + rest, fr, read) == Some((rest, read(l, fr)))
    ensures Colon(l) < |l| ==> FateOf(l + [LF, LF] + rest, false) == Swallowed
  {
    hide FindCrlf, Colon;
    LineThenEmpty(l, rest);
  }

  lemma LengthBlockIs()
    ensures Headers(LENGTH_BLOCK, NOTHING_SAID, ScanLine) == Some((CHUNKED_BODY, Framing(99, false, true)))
    ensures Headers(LENGTH_BLOCK, NOTHING_SAID, ParseLine) == Some((CHUNKED_BODY, Framing(99, false, true)))
    ensures FateOf(LENGTH_BLOCK, false) == Swallowed
  {
    hide Headers, FateOf, ScanLine, ParseLine, Colon;
    LengthLineIs();
    TwoLines(LENGTH_LINE, CHUNKED_BODY, NOTHING_SAID, ScanLine);
    TwoLines(LENGTH_LINE, CHUNKED_BODY, NOTHING_SAID, ParseLine);
  }

  lemma LengthLineIs()
    ensures ScanLine(LENGTH_LINE, NOTHING_SAID) == ParseLine(LENGTH_LINE, NOTHING_SAID) == Framing(99, false, true)
    ensures Colon(LENGTH_LINE) < |LENGTH_LINE| && LF !in LENGTH_LINE
  {
    var l := LENGTH_LINE;
    assert l[..14] == CONTENT_LENGTH;
    IndexOfIs(l, COLON, 14);
    assert l[15..] == [57, 57];
    assert SkipBlanks([57, 57]) == [57, 57];
    assert [57, 57][1..] == [57] && [57 as Byte][1..] == [];
    assert Digits([57, 57], 0) == Digits([57], 9) == Digits([], 99) == 99;
    CStringOfPlain([57, 57]);
    assert Named(l, CONTENT_LENGTH);
  }

  lemma ChunkedBodyIs()
    ensures Headers(CHUNKED_BODY, NOTHING_SAID, ParseLine) == Some((NEGATIVE_SIZE, Framing(-1, true, true)))
  {
    hide Headers, FateOf, ParseLine, Colon;
    ChunkedLineIs();
    TwoLines(CHUNKED_LINE, NEGATIVE_SIZE, NOTHING_SAID, ParseLine);
  }

  lemma ChunkedLineIs()
    ensures ParseLine(CHUNKED_LINE, NOTHING_SAID) == Framing(-1, true, true) && LF !in CHUNKED_LINE
  {
    hide ParseLine, SkipBlanks, CString, ContainsFold;
    var l := CHUNKED_LINE;
    assert l[..17] == TRANSFER_ENCODING;
    IndexOfIs(l, COLON, 17);
    assert l[18..] == CHUNKED;
    ChunkedIsValue();
    ChunkedSays(l);
  }

  lemma ChunkedIsValue()
    ensures SkipBlanks(CHUNKED) == CHUNKED && CString(CHUNKED) == CHUNKED && ContainsFold(CHUNKED, CHUNKED)
  {
    hide CString, Lower;
    CStringOfPlain(CHUNKED);
    assert StartsFold(CHUNKED[0..], CHUNKED);
  }

  lemma ChunkedSays(l: seq<Byte>)
    requires Colon(l) == |TRANSFER_ENCODING| < |l| && StartsFold(l, TRANSFER_ENCODING) && l[Colon(l) + 1..] == CHUNKED
    ensures ParseLine(l, NOTHING_SAID) == Framing(-1, true, true)
  {
    hide Colon, SkipBlanks, CString, ContainsFold, Atoi;
    ChunkedIsValue();
  }

  lemma NegativeIsUndefined()
    ensures Dechunk(NEGATIVE_SIZE) == Undefined
  {
    var s, l := NEGATIVE_SIZE, [45, 53];
    assert s[..2] == l;
    IndexOfIs(s, LF, 2);
    assert FindCrlf(s) == Some(Line(2, 3));
    assert l[1..] == [53] && [53 as Byte][1..] == [];
    assert SkipSpace(l) == l && SkipPrefix([53]) == [53];
    assert HexDigits([53], 0) == HexDigits([], 5) == 5;
    TurnOf(s, Line(2, 3), -5);
    UnfoldedAnswer(s);
  }
}
