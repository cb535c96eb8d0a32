// What an HTTP response's bytes say, line by line: the reference for the read-only
// completeness check and for the destructive parser (corRestClientParse.c), and the
// proof that the two agree.
module HttpScan {
  import opened Base
  import opened CStrings

  const HT: Byte := 9
  const LF: Byte := 10
  const CR: Byte := 13
  const SP: Byte := 32
  const COLON: Byte := 58
  const SEMICOLON: Byte := 59

  // strcasestr(s, word) != NULL
  predicate ContainsFold(s: seq<Byte>, word: seq<Byte>) {
    exists i :: 0 <= i <= |s| && StartsFold(s[i..], word)
  }

  // The digits s starts with, as a number.
  function Digits(s: seq<Byte>, acc: int): int
    decreases |s|
  {
    if s == [] || !IsDigit(s[0]) then acc else Digits(s[1..], acc * 10 + (s[0] as int - 48))
  }

  predicate IsSpace(b: Byte) { b == SP || HT <= b <= CR }

  function SkipSpace(s: seq<Byte>): seq<Byte> {
    if s != [] && IsSpace(s[0]) then SkipSpace(s[1..]) else s
  }

  // atoi
  function Atoi(s: seq<Byte>): int {
    var t := SkipSpace(s);
    if t != [] && t[0] == 45 then -Digits(t[1..], 0)
    else if t != [] && t[0] == 43 then Digits(t[1..], 0)
    else Digits(t, 0)
  }

  // ---------------------------------------------------------------------------
  // Lines

  // A line's length, without its CRLF or LF, and where the next one starts.
  datatype Line = Line(len: nat, next: nat)

  // findCRLF
  function FindCrlf(s: seq<Byte>): (r: Option<Line>)
    ensures r.Some? ==> r.value.len < r.value.next <= |s|
  {
    var k := IndexOf(s, LF);
    if k == |s| then None
    else if k > 0 && s[k - 1] == CR then Some(Line(k - 1, k + 1))
    else Some(Line(k, k + 1))
  }

  // A line of these bytes, ended by CRLF, is found as such.
  lemma CrlfEnds(line: seq<Byte>, rest: seq<Byte>)
    requires LF !in line
    ensures FindCrlf(line + [CR, LF] + rest) == Some(Line(|line|, |line| + 2))
  {
    var s := line + [CR, LF] + rest;
    assert s[..|line| + 1] == line + [CR];
    IndexOfIs(s, LF, |line| + 1);
  }

  // A line is found from its own bytes.
  lemma CrlfIsLocal(s: seq<Byte>, t: seq<Byte>)
    requires FindCrlf(s).Some?
    requires FindCrlf(s).value.next <= |t| && t[..FindCrlf(s).value.next] == s[..FindCrlf(s).value.next]
    ensures FindCrlf(t) == FindCrlf(s)
  {
    var k := IndexOf(s, LF);
    var n := FindCrlf(s).value.next;
    IndexOfMeans(s, LF);
    assert t[..n][..k] == t[..k] && s[..n][..k] == s[..k];
    assert t[..n][k] == t[k] && s[..n][k] == s[k];
    assert k > 0 ==> t[..n][k - 1] == t[k - 1] && s[..n][k - 1] == s[k - 1];
    IndexOfIs(t, LF, k);
  }

  // ---------------------------------------------------------------------------
  // A header line, scanned and parsed

  // What the headers say of the body: -1 for no Content-Length.
  datatype Framing = Framing(contentLength: int, chunked: bool, keepAlive: bool)

  const CONTENT_LENGTH: seq<Byte> := [67, 111, 110, 116, 101, 110, 116, 45, 76, 101, 110, 103, 116, 104]
  const TRANSFER_ENCODING: seq<Byte> := [84, 114, 97, 110, 115, 102, 101, 114, 45, 69, 110, 99, 111, 100, 105, 110, 103]
  const CONNECTION: seq<Byte> := [67, 111, 110, 110, 101, 99, 116, 105, 111, 110]
  const CHUNKED: seq<Byte> := [99, 104, 117, 110, 107, 101, 100]
  const CLOSE: seq<Byte> := [99, 108, 111, 115, 101]
  const KEEP_ALIVE: seq<Byte> := [107, 101, 101, 112, 45, 97, 108, 105, 118, 101]

  function Colon(line: seq<Byte>): nat {
    IndexOf(line, COLON)
  }

  function SkipBlanks(s: seq<Byte>): seq<Byte> {
    if s != [] && (s[0] == SP || s[0] == HT) then SkipBlanks(s[1..]) else s
  }

  function ValueOf(line: seq<Byte>): seq<Byte>
    requires Colon(line) < |line|
  {
    SkipBlanks(line[Colon(line) + 1..])
  }

  predicate Named(line: seq<Byte>, name: seq<Byte>) {
    Colon(line) == |name| < |line| && StartsFold(line, name)
  }

  // scanHeaderValue
  function ScanLine(line: seq<Byte>, fr: Framing): Framing {
    if Colon(line) == |line| then fr
    else
      var value := ValueOf(line);
      if Named(line, CONTENT_LENGTH) then fr.(contentLength := Digits(value, 0))
      else if Named(line, TRANSFER_ENCODING) then
        if ContainsFold(value, CHUNKED) then fr.(chunked := true) else fr
      else if Named(line, CONNECTION) then
        if StartsFold(value, CLOSE) then fr.(keepAlive := false)
        else if StartsFold(value, KEEP_ALIVE) then fr.(keepAlive := true)
        else fr
      else fr
  }

  // parseResponseHeader: the value is a C string, its end the line's.
  function ParseLine(line: seq<Byte>, fr: Framing): Framing {
    if Colon(line) == |line| then fr
    else
      var value := CString(ValueOf(line));
      if Named(line, CONTENT_LENGTH) then fr.(contentLength := Atoi(value))
      else if Named(line, TRANSFER_ENCODING) then
        if ContainsFold(value, CHUNKED) then fr.(chunked := true) else fr
      else if Named(line, CONNECTION) then
        if StartsFold(value, CLOSE) then fr.(keepAlive := false)
        else if StartsFold(value, KEEP_ALIVE) then fr.(keepAlive := true)
        else fr
      else fr
  }

  function SkipSign(s: seq<Byte>): seq<Byte> {
    if s != [] && (s[0] == 45 || s[0] == 43) then s[1..] else s
  }

  // The digits s starts with hold another digit than 0.
  predicate NonzeroRun(s: seq<Byte>) {
    s != [] && IsDigit(s[0]) && (s[0] != 48 || NonzeroRun(s[1..]))
  }

  // A length that both readings take for the same: it starts with a digit, or there is no
  // number but zero in it, after white space and a sign.
  predicate SameLength(value: seq<Byte>) {
    (value != [] && IsDigit(value[0])) || !NonzeroRun(SkipSign(SkipSpace(value)))
  }

  // No NUL, and a Content-Length that is read the same.
  predicate PlainLine(line: seq<Byte>) {
    NUL !in line && (Named(line, CONTENT_LENGTH) ==> SameLength(ValueOf(line)))
  }

  lemma {:induction false} SkipBlanksIsTail(s: seq<Byte>)
    ensures |SkipBlanks(s)| <= |s| && SkipBlanks(s) == s[|s| - |SkipBlanks(s)|..]
    ensures SkipBlanks(s) != [] ==> SkipBlanks(s)[0] != SP && SkipBlanks(s)[0] != HT
  {
    if s != [] && (s[0] == SP || s[0] == HT) {
      SkipBlanksIsTail(s[1..]);
    }
  }

  lemma {:induction false} DigitsFrom(s: seq<Byte>, acc: int)
    requires acc >= 0
    ensures Digits(s, acc) >= acc
  {
    if s != [] && IsDigit(s[0]) {
      DigitsFrom(s[1..], acc * 10 + (s[0] as int - 48));
    }
  }

  lemma {:induction false} RunIsNumber(s: seq<Byte>, acc: int)
    requires acc >= 0
    ensures Digits(s, acc) >= acc && (Digits(s, acc) == 0 <==> acc == 0 && !NonzeroRun(s))
    decreases |s|
  {
    if s != [] && IsDigit(s[0]) {
      RunIsNumber(s[1..], acc * 10 + (s[0] as int - 48));
    }
  }

  // The leading digits, and what atoi makes of the text: the same exactly for these.
  lemma AtoiAgrees(value: seq<Byte>)
    ensures Digits(value, 0) == Atoi(value) <==> SameLength(value)
  {
    var t := SkipSpace(value);
    RunIsNumber(SkipSign(t), 0);
    assert Atoi(value) == 0 <==> Digits(SkipSign(t), 0) == 0;
  }

  // A line without a NUL is scanned and parsed to the same exactly when it is plain.
  lemma LinesAgree(line: seq<Byte>, fr: Framing)
    requires NUL !in line
    ensures ParseLine(line, fr) == ScanLine(line, fr) <==> PlainLine(line)
  {
    IndexOfMeans(line, COLON);
    if Colon(line) < |line| {
      var rest := line[Colon(line) + 1..];
      SkipBlanksIsTail(rest);
      assert NUL !in ValueOf(line);
      CStringOfPlain(ValueOf(line));
      if Named(line, CONTENT_LENGTH) {
        AtoiAgrees(ValueOf(line));
      }
    }
  }

  // ---------------------------------------------------------------------------
  // The header block

  // How one header line changes what is known of the body.
  type Reader = (seq<Byte>, Framing) -> Framing

  // To the empty line, or to the end of what there is: what follows, and what the lines
  // say to this reader. None when a line is not all there.
  function Headers(s: seq<Byte>, fr: Framing, read: Reader): (r: Option<(seq<Byte>, Framing)>)
    ensures r.Some? ==> |r.value.0| <= |s|
    decreases |s|
  {
    if s == [] then Some((s, fr))
    else
      match FindCrlf(s)
      case None => None
      case Some(line) =>
        if line.len == 0 then Some((s[line.next..], fr))
        else Headers(s[line.next..], read(s[..line.len], fr), read)
  }

  predicate PlainHeaders(s: seq<Byte>)
    decreases |s|
  {
    s == [] ||
    match FindCrlf(s)
    case None => true
    case Some(line) => line.len == 0 || (PlainLine(s[..line.len]) && PlainHeaders(s[line.next..]))
  }

  lemma {:induction false} HeadersAgree(s: seq<Byte>, fr: Framing)
    requires PlainHeaders(s)
    ensures Headers(s, fr, ParseLine) == Headers(s, fr, ScanLine)
    decreases |s|
  {
    if s != [] {
      match FindCrlf(s)
      case None =>
      case Some(line) =>
        if line.len != 0 {
          LinesAgree(s[..line.len], fr);
          HeadersAgree(s[line.next..], ScanLine(s[..line.len], fr));
        }
    }
  }

  // No line of the block has a NUL.
  predicate NulFree(s: seq<Byte>)
    decreases |s|
  {
    s == [] ||
    match FindCrlf(s)
    case None => true
    case Some(line) => line.len == 0 || (NUL !in s[..line.len] && NulFree(s[line.next..]))
  }

  // But for the length, two readings that came to this are the same.
  predicate SameButLength(a: Option<(seq<Byte>, Framing)>, b: Option<(seq<Byte>, Framing)>) {
    (a.None? <==> b.None?) &&
    (a.Some? ==>
       && a.value.0 == b.value.0 && a.value.1.chunked == b.value.1.chunked
       && a.value.1.keepAlive == b.value.1.keepAlive)
  }

  lemma LineSameButLength(line: seq<Byte>, fr: Framing, fr': Framing)
    requires NUL !in line && fr.chunked == fr'.chunked && fr.keepAlive == fr'.keepAlive
    ensures ScanLine(line, fr).chunked == ParseLine(line, fr').chunked
    ensures ScanLine(line, fr).keepAlive == ParseLine(line, fr').keepAlive
  {
    hide IndexOf, Atoi, Digits, ContainsFold, CString, SkipBlanks, StartsFold;
    IndexOfMeans(line, COLON);
    if Colon(line) < |line| {
      SkipBlanksIsTail(line[Colon(line) + 1..]);
      assert NUL !in ValueOf(line);
      CStringOfPlain(ValueOf(line));
    }
  }

  // Whatever its lengths say, a block without NUL is read to the same body, chunking and
  // keep-alive.
  lemma {:induction false} BlocksAgree(s: seq<Byte>, fr: Framing, fr': Framing)
    requires NulFree(s) && fr.chunked == fr'.chunked && fr.keepAlive == fr'.keepAlive
    ensures SameButLength(Headers(s, fr, ScanLine), Headers(s, fr', ParseLine))
    decreases |s|
  {
    if s != [] {
      match FindCrlf(s)
      case None =>
      case Some(line) =>
        if line.len != 0 {
          var l := s[..line.len];
          LineSameButLength(l, fr, fr');
          BlocksAgree(s[line.next..], ScanLine(l, fr), ParseLine(l, fr'));
        }
    }
  }
}
