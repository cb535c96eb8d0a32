// A whole response: what corRestClientResponseComplete answers and what
// corRestClientParseResponse makes of the same bytes, as functions, and their agreement
// for the chunked, fixed-length and no-body cases of section 6.3 of RFC 9112
// (corRestClientParse.c:166-232, 241-268 and 455-547).
module HttpResponse {
  import opened Base
  import opened CStrings
  import opened HttpScan
  import opened HttpChunks

  // Three characters read as a status code.
  function Code(s: seq<Byte>): int
    requires |s| >= 3
  {
    (Signed(s[0]) - 48) * 100 + (Signed(s[1]) - 48) * 10 + (Signed(s[2]) - 48)
  }

  function FirstSpace(s: seq<Byte>): nat {
    IndexOf(s, SP)
  }

  // 204, 304 and 1xx have no body.
  predicate Bodiless(code: int) {
    code == 204 || code == 304 || 100 <= code < 200
  }

  const NOTHING_SAID := Framing(-1, false, true)

  // ---------------------------------------------------------------------------
  // corRestClientResponseComplete: 0 complete, 1 more to come, -1 malformed

  // The status code looked for in everything before the body.
  function ScanCode(s: seq<Byte>, head: nat): Option<int>
    requires head <= |s|
  {
    var k := FirstSpace(s[..head]);
    if k == head then None
    else if |s| - (k + 1) >= 3 then Some(Code(s[k + 1..]))
    else Some(0)
  }

  // code: the status code, when one was found in front of the body.
  function CheckBody(code: Option<int>, body: seq<Byte>, fr: Framing): (r: int)
    ensures -1 <= r <= 1
  {
    if fr.chunked then
      match ScanChunks(body)
      case Complete(_) => 0
      case NeedMore => 1
      case Malformed => -1
    else if fr.contentLength >= 0 then if |body| >= fr.contentLength then 0 else 1
    else if code.Some? && Bodiless(code.value) then 0
    else if !fr.keepAlive then 1
    else 0
  }

  function Check(s: seq<Byte>): (r: int)
    ensures -1 <= r <= 1
  {
    match FindCrlf(s)
    case None => 1
    case Some(line) =>
      match Headers(s[line.next..], NOTHING_SAID, ScanLine)
      case None => 1
      case Some((body, fr)) => CheckBody(ScanCode(s, |s| - |body|), body, fr)
  }

  // ---------------------------------------------------------------------------
  // corRestClientParseResponse

  // The body, by how its end was found.
  datatype Body = NoBody | Fixed(data: seq<Byte>) | Chunks(data: seq<Byte>) | ToTheEnd(data: seq<Byte>)

  datatype Parsed =
    | Incomplete
    | BadResponse
    | NotDefined                  // Dechunked.Undefined
    | Response(code: int, fr: Framing, body: Body)

  // The status line's code; None when it has none.
  function ParseCode(line: seq<Byte>): Option<int> {
    var k := FirstSpace(line);
    if k == |line| || |line| - (k + 1) < 3 then None else Some(Code(line[k + 1..]))
  }

  function ParseBody(code: int, body: seq<Byte>, fr: Framing): Parsed {
    if fr.chunked then
      match Dechunk(body)
      case Whole(data) => Response(code, fr, Chunks(data))
      case Short => Incomplete
      case Bad => BadResponse
      case Undefined => NotDefined
    else if fr.contentLength >= 0 then
      if |body| < fr.contentLength then Incomplete else Response(code, fr, Fixed(body[..fr.contentLength]))
    else if fr.contentLength == -1 && !Bodiless(code) && !fr.keepAlive then Response(code, fr, ToTheEnd(body))
    else Response(code, fr, NoBody)
  }

  function Parse(s: seq<Byte>): Parsed {
    match FindCrlf(s)
    case None => Incomplete
    case Some(line) =>
      match ParseCode(s[..line.len])
      case None => BadResponse
      case Some(code) =>
        match Headers(s[line.next..], NOTHING_SAID, ParseLine)
        case None => Incomplete
        case Some((body, fr)) => ParseBody(code, body, fr)
  }

  // ---------------------------------------------------------------------------
  // Agreement

  // The header block is free of NUL, and its Content-Length values are numbers.
  predicate PlainResponse(s: seq<Byte>) {
    FindCrlf(s).Some? ==> PlainHeaders(s[FindCrlf(s).value.next..])
  }

  // The length of the body, as the check measured it.
  function Measured(body: seq<Byte>, fr: Framing): nat {
    if fr.chunked && ScanChunks(body).Complete? then ScanChunks(body).bodyLen
    else if !fr.chunked && fr.contentLength >= 0 then fr.contentLength
    else 0
  }

  // With a good status line the two read the same code.
  lemma CodesAgree(s: seq<Byte>, line: Line, head: nat)
    requires FindCrlf(s) == Some(line) && line.next <= head <= |s|
    requires ParseCode(s[..line.len]).Some?
    ensures ScanCode(s, head) == ParseCode(s[..line.len])
  {
    var l := s[..line.len];
    var k := FirstSpace(l);
    IndexOfMeans(l, SP);
    assert s[..head][..k] == l[..k];
    IndexOfIs(s[..head], SP, k);
    assert s[k + 1..][0] == l[k + 1..][0] && s[k + 1..][1] == l[k + 1..][1] && s[k + 1..][2] == l[k + 1..][2];
  }

  lemma CompleteBodyParses(body: seq<Byte>, fr: Framing, code: int)
    requires CheckBody(Some(code), body, fr) == 0
    ensures ParseBody(code, body, fr).Response? && ParseBody(code, body, fr).fr == fr
    ensures match ParseBody(code, body, fr).body
            case NoBody => Measured(body, fr) == 0
            case Fixed(data) => |data| == Measured(body, fr)
            case Chunks(data) => |data| == Measured(body, fr)
            case ToTheEnd(_) => false
  {
    CompleteMeansWhole(body);
  }

  lemma IncompleteBodyParses(body: seq<Byte>, fr: Framing, code: int)
    requires CheckBody(Some(code), body, fr) == 1 && fr.contentLength >= -1
    ensures var r := ParseBody(code, body, fr); r.Response? ==> r.body.ToTheEnd? && !fr.keepAlive && r.fr == fr
  {
    NeedMoreMeansNotWhole(body);
  }

  // What the check finds after the status line: the body, and its framing.
  function Block(s: seq<Byte>): (r: Option<(seq<Byte>, Framing)>)
    requires FindCrlf(s).Some?
    ensures r.Some? ==> |r.value.0| <= |s| - FindCrlf(s).value.next
  {
    Headers(s[FindCrlf(s).value.next..], NOTHING_SAID, ScanLine)
  }

  // A length is a number, or none was said.
  lemma {:induction false} ScannedLength(s: seq<Byte>, fr: Framing)
    requires fr.contentLength >= -1
    ensures Headers(s, fr, ScanLine).Some? ==> Headers(s, fr, ScanLine).value.1.contentLength >= -1
    decreases |s|
  {
    if s != [] && FindCrlf(s).Some? && FindCrlf(s).value.len != 0 {
      var line := FindCrlf(s).value;
      var l := s[..line.len];
      if Colon(l) < |l| {
        DigitsFrom(ValueOf(l), 0);
      }
      ScannedLength(s[line.next..], ScanLine(l, fr));
    }
  }

  // The check's "complete" is never the parser's "incomplete": unless the status line is
  // no status line, the response is there, framed the same way and of the same length.
  lemma CompleteParses(s: seq<Byte>)
    requires PlainResponse(s) && Check(s) == 0
    ensures FindCrlf(s).Some? && Block(s).Some?
    ensures ParseCode(s[..FindCrlf(s).value.len]).None? ==> Parse(s) == BadResponse
    ensures ParseCode(s[..FindCrlf(s).value.len]).Some? ==>
              var (body, fr) := Block(s).value;
              && Parse(s).Response? && Parse(s).fr == fr
              && match Parse(s).body
                 case NoBody => Measured(body, fr) == 0
                 case Fixed(data) => |data| == Measured(body, fr)
                 case Chunks(data) => |data| == Measured(body, fr)
                 case ToTheEnd(_) => false
  {
    hide FindCrlf, IndexOf, PlainHeaders, Headers, ScanLine, ParseLine, CheckBody, ParseBody, ParseCode, ScanCode,
         Measured;
    var line := FindCrlf(s).value;
    HeadersAgree(s[line.next..], NOTHING_SAID);
    var (body, fr) := Block(s).value;
    if ParseCode(s[..line.len]).Some? {
      CodesAgree(s, line, |s| - |body|);
      CompleteBodyParses(body, fr, ParseCode(s[..line.len]).value);
    }
  }

  // What the parser finds after the status line.
  function ParsedBlock(s: seq<Byte>): (r: Option<(seq<Byte>, Framing)>)
    requires FindCrlf(s).Some?
  {
    Headers(s[FindCrlf(s).value.next..], NOTHING_SAID, ParseLine)
  }

  lemma CompleteBodyExactly(body: seq<Byte>, fr: Framing, pfr: Framing, code: int)
    requires CheckBody(Some(code), body, fr) == 0 && fr.chunked == pfr.chunked && fr.keepAlive == pfr.keepAlive
    ensures ParseBody(code, body, pfr).Incomplete? <==> !pfr.chunked && pfr.contentLength > |body|
    ensures ParseBody(code, body, pfr).Incomplete? || ParseBody(code, body, pfr).Response?
  {
    CompleteMeansWhole(body);
  }

  // A response that is complete to the check, with a status line and no NUL in its headers,
  // whatever its lengths are: incomplete to the parser exactly when it is not chunked and
  // the length the parser reads is more than there is after the headers; a response else.
  lemma CompleteParsesExactly(s: seq<Byte>)
    requires Check(s) == 0 && FindCrlf(s).Some? && ParseCode(s[..FindCrlf(s).value.len]).Some?
    requires NulFree(s[FindCrlf(s).value.next..])
    ensures Block(s).Some? && ParsedBlock(s).Some?
    ensures var (body, pfr) := ParsedBlock(s).value;
            && body == Block(s).value.0 && (Parse(s).Incomplete? <==> !pfr.chunked && pfr.contentLength > |body|)
            && (Parse(s).Incomplete? || Parse(s).Response?)
  {
    hide FindCrlf, IndexOf, NulFree, Headers, ScanLine, ParseLine, CheckBody, ParseBody, ParseCode, ScanCode;
    var line := FindCrlf(s).value;
    BlocksAgree(s[line.next..], NOTHING_SAID, NOTHING_SAID);
    var (body, fr) := Block(s).value;
    var (_, pfr) := ParsedBlock(s).value;
    CodesAgree(s, line, |s| - |body|);
    CompleteBodyExactly(body, fr, pfr, ParseCode(s[..line.len]).value);
  }

  // The check's "more to come" is a response for the parser only when nothing but the
  // end of the connection ends its body.
  lemma IncompleteParses(s: seq<Byte>)
    requires PlainResponse(s) && Check(s) == 1
    ensures Parse(s).Response? ==> Parse(s).body.ToTheEnd? && !Parse(s).fr.keepAlive
  {
    hide FindCrlf, IndexOf, PlainHeaders, Headers, ScanLine, ParseLine, CheckBody, ParseBody, ParseCode, ScanCode;
    if FindCrlf(s).Some? {
      var line := FindCrlf(s).value;
      HeadersAgree(s[line.next..], NOTHING_SAID);
      if Block(s).Some? && ParseCode(s[..line.len]).Some? {
        var (body, fr) := Block(s).value;
        var code := ParseCode(s[..line.len]).value;
        ScannedLength(s[line.next..], NOTHING_SAID);
        CodesAgree(s, line, |s| - |body|);
        assert CheckBody(Some(code), body, fr) == 1;
        assert Parse(s) == ParseBody(code, body, fr);
        IncompleteBodyParses(body, fr, code);
      }
    }
  }

  // A line that makes a response chunked to the parser makes it chunked to the check.
  lemma ChunkedToBoth(line: seq<Byte>, fr: Framing, fr': Framing)
    requires fr'.chunked ==> fr.chunked
    ensures ParseLine(line, fr').chunked ==> ScanLine(line, fr).chunked
  {
    hide IndexOf, Atoi, Digits, SkipBlanks, CString, StartsFold, ContainsFold;
    if Named(line, TRANSFER_ENCODING) {
      ContainedInMore(CString(ValueOf(line)), ValueOf(line), CHUNKED);
    }
  }

  lemma ContainedInMore(s: seq<Byte>, t: seq<Byte>, word: seq<Byte>)
    requires s <= t
    ensures ContainsFold(s, word) ==> ContainsFold(t, word)
  {
    if i :| 0 <= i <= |s| && StartsFold(s[i..], word) {
      assert forall k :: 0 <= k < |word| ==> t[i..][k] == s[i..][k];
      assert StartsFold(t[i..], word);
    }
  }

  // Whatever is in the block, both find its end in the same place, and chunked to the parser
  // is chunked to the check.
  lemma {:induction false} BlocksEndAlike(s: seq<Byte>, fr: Framing, fr': Framing)
    requires fr'.chunked ==> fr.chunked
    ensures Headers(s, fr, ScanLine).Some? <==> Headers(s, fr', ParseLine).Some?
    ensures Headers(s, fr, ScanLine).Some? ==>
              var (body, scanned) := Headers(s, fr, ScanLine).value;
              var (body', parsed) := Headers(s, fr', ParseLine).value;
              body == body' && (parsed.chunked ==> scanned.chunked)
    decreases |s|
  {
    hide ScanLine, ParseLine;
    if s != [] && FindCrlf(s).Some? && FindCrlf(s).value.len != 0 {
      var line := FindCrlf(s).value;
      var l := s[..line.len];
      ChunkedToBoth(l, fr, fr');
      BlocksEndAlike(s[line.next..], ScanLine(l, fr), ParseLine(l, fr'));
    }
  }

  // Of a response that the check finds complete or unfinished, C says what the parser makes
  // of it; a chunk size that C leaves open is malformed to the check.
  lemma UndefinedIsMalformed(s: seq<Byte>)
    ensures Parse(s) == NotDefined ==> Check(s) == -1
  {
    hide FindCrlf, Headers, ParseCode, ScanCode, Dechunk, ScanChunks;
    if FindCrlf(s).Some? && Parse(s) == NotDefined {
      var line := FindCrlf(s).value;
      BlocksEndAlike(s[line.next..], NOTHING_SAID, NOTHING_SAID);
      var (body, fr) := Block(s).value;
      CompleteMeansWhole(body);
      NeedMoreMeansNotWhole(body);
    }
  }

  // "H 200", then "Content-Length: +5", then an empty line: complete without a byte of
  // body for the check, five bytes short for the parser. Why the lengths must be plain.
  lemma SignedLengthDisagrees()
    ensures var s := [72, SP, 50, 48, 48, LF] + (CONTENT_LENGTH + [COLON, SP, 43, 53]) + [LF, LF];
            Check(s) == 0 && Parse(s) == Incomplete
  {
    var line := CONTENT_LENGTH + [COLON, SP, 43, 53];
    var s := [72, SP, 50, 48, 48, LF] + line + [LF, LF];
    var status := s[..5];
    assert status == [72, SP, 50, 48, 48];
    IndexOfIs(s, LF, 5);
    assert status[..1] == [72];
    IndexOfIs(status, SP, 1);
    SignedLine();
    SignedBlock(s[6..]);
  }

  lemma SignedBlock(s: seq<Byte>)
    requires s == CONTENT_LENGTH + [COLON, SP, 43, 53] + [LF, LF]
    ensures Headers(s, NOTHING_SAID, ScanLine) == Some(([], Framing(0, false, true)))
    ensures Headers(s, NOTHING_SAID, ParseLine) == Some(([], Framing(5, false, true)))
  {
    var line := CONTENT_LENGTH + [COLON, SP, 43, 53];
    SignedLine();
    assert s[..18] == line;
    IndexOfIs(s, LF, 18);
    assert s[19..] == [LF];
    assert FindCrlf([LF]) == Some(Line(0, 1));
    assert [LF][1..] == [];
  }

  lemma SignedLine()
    ensures var line := CONTENT_LENGTH + [COLON, SP, 43, 53];
            ScanLine(line, NOTHING_SAID) == Framing(0, false, true)
                && ParseLine(line, NOTHING_SAID) == Framing(5, false, true)
  {
    var line := CONTENT_LENGTH + [COLON, SP, 43, 53];
    assert line[..14] == CONTENT_LENGTH;
    IndexOfIs(line, COLON, 14);
    assert line[15..] == [SP, 43, 53];
    assert [SP, 43, 53][1..] == [43, 53];
    assert SkipBlanks([43, 53]) == [43, 53];
    assert SkipBlanks([SP, 43, 53]) == [43, 53];
    assert ValueOf(line) == SkipBlanks(line[15..]);
    assert CString([43, 53]) == [43, 53] by { CStringOfPlain([43, 53]); }
    assert [43, 53][1..] == [53];
    assert Digits([53], 0) == 5 by { assert [53][1..] == []; }
    assert Named(line, CONTENT_LENGTH);
  }
}
