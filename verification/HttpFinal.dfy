// When the client may stop reading: a response found complete stays complete, and the same
// response, whatever bytes come after it, exactly when the empty line that ends its headers
// is there (corRestClientParse.c:166-232, corRestClientMulti.c:970-1013).
module HttpFinal {
  import opened Base
  import opened CStrings
  import opened HttpScan
  import opened HttpChunks
  import opened HttpResponse

  // The header block of these lines has its empty line.
  predicate Ended(s: seq<Byte>)
    decreases |s|
  {
    s != [] && FindCrlf(s).Some? && (FindCrlf(s).value.len == 0 || Ended(s[FindCrlf(s).value.next..]))
  }

  predicate HeadersEnded(s: seq<Byte>) {
    FindCrlf(s).Some? && Ended(s[FindCrlf(s).value.next..])
  }

  // ---------------------------------------------------------------------------
  // With the empty line

  lemma LineStays(s: seq<Byte>, more: seq<Byte>)
    requires FindCrlf(s).Some?
    ensures FindCrlf(s + more) == FindCrlf(s)
    ensures var line := FindCrlf(s).value;
            && (s + more)[..line.len] == s[..line.len] && (s + more)[line.next..] == s[line.next..] + more
  {
    var line := FindCrlf(s).value;
    assert (s + more)[..line.next] == s[..line.next];
    CrlfIsLocal(s, s + more);
  }

  lemma {:induction false} HeadersStay(s: seq<Byte>, more: seq<Byte>, fr: Framing, read: Reader)
    requires Ended(s)
    ensures Headers(s, fr, read).Some?
    ensures Headers(s + more, fr, read) == Some((Headers(s, fr, read).value.0 + more, Headers(s, fr, read).value.1))
    decreases |s|
  {
    hide FindCrlf;
    var line := FindCrlf(s).value;
    LineStays(s, more);
    if line.len != 0 {
      HeadersStay(s[line.next..], more, read(s[..line.len], fr), read);
    }
  }

  lemma ScanTurnStays(s: seq<Byte>, more: seq<Byte>)
    requires s != [] && (ScanTurn(s).Chunk? || (ScanTurn(s).answer.Complete?))
    ensures ScanTurn(s + more) == ScanTurn(s)
  {
    hide FindCrlf, SizeLine;
    LineStays(s, more);
    var line := FindCrlf(s).value;
    var rest := s[line.next..];
    var size := SizeLine(s[..line.len]).value;
    assert |rest| >= size + 2 ==> (rest + more)[size] == rest[size] && (rest + more)[size + 1] == rest[size + 1];
  }

  lemma {:induction false} ChunksStay(s: seq<Byte>, more: seq<Byte>)
    requires ScanChunks(s).Complete?
    ensures ScanChunks(s + more) == ScanChunks(s)
    decreases |s|
  {
    hide ScanTurn;
    ScanTurnStays(s, more);
    if ScanTurn(s).Chunk? {
      var next := ScanTurn(s).next;
      assert (s + more)[next..] == s[next..] + more;
      ChunksStay(s[next..], more);
    }
  }

  lemma DechunkTurnStays(s: seq<Byte>, more: seq<Byte>)
    requires s != [] && (DechunkTurn(s).Chunk? || DechunkTurn(s).answer.Whole?)
    ensures DechunkTurn(s + more) == DechunkTurn(s)
  {
    hide FindCrlf, Strtol16;
    LineStays(s, more);
    var line := FindCrlf(s).value;
    var rest := s[line.next..];
    var size := Strtol16(s[..line.len]);
    assert size > 0 && |rest| >= size + 2 ==>
        (rest + more)[size] == rest[size] && (rest + more)[size + 1] == rest[size + 1];
  }

  lemma {:induction false} DataStays(s: seq<Byte>, more: seq<Byte>)
    requires Dechunk(s).Whole?
    ensures Dechunk(s + more) == Dechunk(s)
    decreases |s|
  {
    hide DechunkTurn;
    DechunkTurnStays(s, more);
    if DechunkTurn(s).Chunk? {
      var c := DechunkTurn(s);
      assert (s + more)[c.next..] == s[c.next..] + more;
      assert (s + more)[c.at..c.at + c.size] == s[c.at..c.at + c.size];
      DataStays(s[c.next..], more);
    }
  }

  // The code the check looks at is the same, unless there is none: then it does not matter.
  lemma CodeStays(s: seq<Byte>, more: seq<Byte>, head: nat)
    requires head <= |s|
    ensures ScanCode(s, head).Some? && Bodiless(ScanCode(s, head).value) ==>
            ScanCode(s + more, head) == ScanCode(s, head)
  {
    assert (s + more)[..head] == s[..head];
    var k := FirstSpace(s[..head]);
    if k < head && |s| - (k + 1) >= 3 {
      assert (s + more)[k + 1..] == s[k + 1..] + more;
    }
  }

  lemma CompleteBodyStays(code: Option<int>, code': Option<int>, body: seq<Byte>, more: seq<Byte>, fr: Framing)
    requires CheckBody(code, body, fr) == 0 && (code.Some? && Bodiless(code.value) ==> code' == code)
    ensures CheckBody(code', body + more, fr) == 0
  {
    if fr.chunked {
      ChunksStay(body, more);
    }
  }

  lemma CompleteStays(s: seq<Byte>, more: seq<Byte>)
    requires Check(s) == 0 && HeadersEnded(s)
    ensures Check(s + more) == 0
  {
    hide Headers, FindCrlf, ScanCode, CheckBody, Ended, ScanLine;
    var line := FindCrlf(s).value;
    LineStays(s, more);
    HeadersStay(s[line.next..], more, NOTHING_SAID, ScanLine);
    var (body, fr) := Block(s).value;
    var head := |s| - |body|;
    CodeStays(s, more, head);
    CompleteBodyStays(ScanCode(s, head), ScanCode(s + more, head), body, more, fr);
  }

  lemma ParsedBodyStays(code: int, body: seq<Byte>, more: seq<Byte>, fr: Framing)
    requires ParseBody(code, body, fr).Response? && !ParseBody(code, body, fr).body.ToTheEnd?
    ensures ParseBody(code, body + more, fr) == ParseBody(code, body, fr)
  {
    hide Dechunk;
    if fr.chunked {
      DataStays(body, more);
    } else if fr.contentLength >= 0 {
      assert (body + more)[..fr.contentLength] == body[..fr.contentLength];
    }
  }

  // And it is the same response.
  lemma ResponseStays(s: seq<Byte>, more: seq<Byte>)
    requires PlainResponse(s) && Check(s) == 0 && HeadersEnded(s)
    ensures Parse(s + more) == Parse(s)
  {
    hide Headers, FindCrlf, ParseCode, ParseBody, Ended, ParseLine, Check, PlainResponse;
    var line := FindCrlf(s).value;
    LineStays(s, more);
    HeadersStay(s[line.next..], more, NOTHING_SAID, ParseLine);
    CompleteParses(s);
    if ParseCode(s[..line.len]).Some? {
      var code := ParseCode(s[..line.len]).value;
      var (body, fr) := ParsedBlock(s).value;
      ParsedBodyStays(code, body, more, fr);
    }
  }

  // ---------------------------------------------------------------------------
  // Without it

  const A_LENGTH: seq<Byte> := CONTENT_LENGTH + [COLON, 53, LF, LF]

  // Lines that all ended, and five bytes announced behind them.
  lemma {:induction false} OneLineMore(s: seq<Byte>, fr: Framing)
    requires !Ended(s) && Headers(s, fr, ScanLine).Some?
    ensures Headers(s, fr, ScanLine).value.0 == []
    ensures Headers(s + A_LENGTH, fr, ScanLine) == Some(([], Headers(s, fr, ScanLine).value.1.(contentLength := 5)))
    decreases |s|
  {
    hide FindCrlf, ScanLine;
    if s == [] {
      assert s + A_LENGTH == A_LENGTH;
      LengthLine(fr);
    } else {
      var line := FindCrlf(s).value;
      LineStays(s, A_LENGTH);
      OneLineMore(s[line.next..], ScanLine(s[..line.len], fr));
    }
  }

  lemma LengthLine(fr: Framing)
    ensures Headers(A_LENGTH, fr, ScanLine) == Some(([], fr.(contentLength := 5)))
  {
    var line := CONTENT_LENGTH + [COLON, 53];
    assert A_LENGTH[..16] == line;
    IndexOfIs(A_LENGTH, LF, 16);
    assert A_LENGTH[17..] == [LF];
    assert FindCrlf([LF]) == Some(Line(0, 1));
    assert [LF][1..] == [];
    LengthIsFive(fr);
  }

  lemma LengthIsFive(fr: Framing)
    ensures ScanLine(CONTENT_LENGTH + [COLON, 53], fr) == fr.(contentLength := 5)
  {
    var line := CONTENT_LENGTH + [COLON, 53];
    assert line[..14] == CONTENT_LENGTH;
    IndexOfIs(line, COLON, 14);
    assert line[15..] == [53];
    assert SkipBlanks([53]) == [53];
    assert Digits([53], 0) == 5 by { assert [53][1..] == []; }
    assert Named(line, CONTENT_LENGTH);
  }

  lemma TooSoon(s: seq<Byte>)
    requires Check(s) == 0 && !HeadersEnded(s)
    ensures Check(s + A_LENGTH) == 1
  {
    hide Headers, FindCrlf, ScanCode, CheckBody, Ended, ScanLine;
    var line := FindCrlf(s).value;
    LineStays(s, A_LENGTH);
    OneLineMore(s[line.next..], NOTHING_SAID);
    NotChunkedYet(s);
    var fr := Block(s + A_LENGTH).value.1;
    FiveShort(ScanCode(s + A_LENGTH, |s + A_LENGTH|), fr);
  }

  lemma NotChunkedYet(s: seq<Byte>)
    requires Check(s) == 0 && FindCrlf(s).Some? && Block(s).Some? && Block(s).value.0 == []
    ensures !Block(s).value.1.chunked
  {
    hide Headers, FindCrlf, ScanCode;
  }

  lemma FiveShort(code: Option<int>, fr: Framing)
    requires !fr.chunked && fr.contentLength == 5
    ensures CheckBody(code, [], fr) == 1
  {
  }

  // A response found complete is complete for good - no bytes to come can make it
  // unfinished - if and only if its headers have ended. A response read up to the end of
  // one of its lines, the status line alone for one, is found complete too soon.
  lemma CompleteIsFinal(s: seq<Byte>)
    requires Check(s) == 0
    ensures (forall more: seq<Byte> :: Check(s + more) == 0) <==> HeadersEnded(s)
  {
    hide Check, HeadersEnded;
    if HeadersEnded(s) {
      forall more: seq<Byte> ensures Check(s + more) == 0 {
        CompleteStays(s, more);
      }
    } else {
      TooSoon(s);
    }
  }

  // "H 200" and the end of the line.
  lemma StatusLineAlone()
    ensures var s := [72, SP, 50, 48, 48, CR, LF];
            Check(s) == 0 && !HeadersEnded(s) && Parse(s) == Response(200, NOTHING_SAID, NoBody)
                && Check(s + A_LENGTH) == 1
  {
    var s := [72, SP, 50, 48, 48, CR, LF];
    assert s[..6][5] == CR;
    IndexOfIs(s, LF, 6);
    assert FindCrlf(s) == Some(Line(5, 7)) && s[7..] == [];
    var status := s[..5];
    assert status == [72, SP, 50, 48, 48] && status[..1] == [72];
    IndexOfIs(status, SP, 1);
    assert s[..7] == s && s[..1] == [72];
    IndexOfIs(s, SP, 1);
    TooSoon(s);
  }
}
