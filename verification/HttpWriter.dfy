// Responses as a server writes them - a decimal status code, header lines in any case, a
// body of a decimal length or in chunks - and what the check and the parser read in them
// (corRestClientParse.c:45-268 and 281-547).
module HttpWriter {
  import opened Base
  import opened CStrings
  import opened HttpScan
  import opened HttpChunks
  import opened HttpResponse
  import opened HttpMarks
  import opened HttpParseInPlace

  // ---------------------------------------------------------------------------
  // Numbers

  // n as it is written in base 10.
  function Decimal(n: nat): (s: seq<Byte>)
    ensures s != []
  {
    if n < 10 then [48 + n] else Decimal(n / 10) + [48 + n % 10]
  }

  function Three(n: nat): (s: seq<Byte>)
    requires n < 1000
    ensures |s| == 3
  {
    [48 + n / 100, 48 + n / 10 % 10, 48 + n % 10]
  }

  predicate NoDigitFirst(s: seq<Byte>) {
    s != [] ==> !(48 <= s[0] <= 57)
  }

  lemma {:induction false} DigitsSnoc(s: seq<Byte>, b: Byte, more: seq<Byte>, acc: int)
    requires (forall k :: 0 <= k < |s| ==> 48 <= s[k] <= 57) && 48 <= b <= 57 && NoDigitFirst(more)
    ensures Digits(s + [b] + more, acc) == 10 * Digits(s, acc) + (b - 48)
  {
    if s == [] {
      assert s + [b] + more == [b] + more;
      assert ([b] + more)[1..] == more;
    } else {
      assert (s + [b] + more)[1..] == s[1..] + [b] + more;
      DigitsSnoc(s[1..], b, more, acc * 10 + (s[0] - 48));
    }
  }

  lemma {:induction false} DecimalReadsBack(n: nat, more: seq<Byte>)
    requires NoDigitFirst(more)
    ensures forall k :: 0 <= k < |Decimal(n)| ==> 48 <= Decimal(n)[k] <= 57
    ensures Digits(Decimal(n) + more, 0) == n
  {
    if n >= 10 {
      DecimalReadsBack(n / 10, []);
      assert Decimal(n / 10) + [] == Decimal(n / 10);
      DigitsSnoc(Decimal(n / 10), 48 + n % 10, more, 0);
    } else {
      assert ([48 + n] + more)[1..] == more;
    }
  }

  lemma {:induction false} LeadingZeros(zeros: nat, s: seq<Byte>)
    ensures Digits(Zeros(zeros) + s, 0) == Digits(s, 0)
  {
    if zeros == 0 {
      assert Zeros(0) + s == s;
    } else {
      assert (Zeros(zeros) + s)[1..] == Zeros(zeros - 1) + s;
      LeadingZeros(zeros - 1, s);
    }
  }

  // A number in a text, zeros in front of it, up to the first character that is no digit.
  lemma NumberReadsBack(zeros: nat, n: nat, more: seq<Byte>)
    requires NoDigitFirst(more)
    ensures var s := Zeros(zeros) + Decimal(n) + more; Digits(s, 0) == n && 48 <= s[0] <= 57
  {
    DecimalReadsBack(n, more);
    LeadingZeros(zeros, Decimal(n) + more);
    assert Zeros(zeros) + (Decimal(n) + more) == Zeros(zeros) + Decimal(n) + more;
    assert zeros == 0 ==> (Zeros(zeros) + Decimal(n) + more)[0] == Decimal(n)[0];
  }

  lemma {:induction false} SpacesAreSkipped(spaces: seq<Byte>, s: seq<Byte>)
    requires forall k :: 0 <= k < |spaces| ==> 9 <= spaces[k] <= 13 || spaces[k] == 32
    requires s != [] && !(9 <= s[0] <= 13) && s[0] != 32
    ensures SkipSpace(spaces + s) == s
  {
    if spaces == [] {
      assert spaces + s == s;
    } else {
      assert (spaces + s)[1..] == spaces[1..] + s;
      SpacesAreSkipped(spaces[1..], s);
    }
  }

  // atoi: white space, a sign or none, and the number.
  lemma AtoiReadsBack(spaces: seq<Byte>, sign: seq<Byte>, zeros: nat, n: nat, more: seq<Byte>)
    requires forall k :: 0 <= k < |spaces| ==> 9 <= spaces[k] <= 13 || spaces[k] == 32
    requires (sign == [] || sign == [43] || sign == [45]) && NoDigitFirst(more)
    ensures Atoi(spaces + (sign + (Zeros(zeros) + Decimal(n) + more))) == if sign == [45] then -(n as int) else n as int
  {
    hide Decimal, Digits, Zeros, SkipSpace;
    NumberReadsBack(zeros, n, more);
    var s := Zeros(zeros) + Decimal(n) + more;
    SpacesAreSkipped(spaces, sign + s);
    if sign == [] {
      assert sign + s == s;
    } else {
      assert (sign + s)[1..] == s;
    }
  }

  // strtol in base 16: white space, a sign or none, "0x" or none, and the number.
  lemma StrtolReadsBack(spaces: seq<Byte>, sign: seq<Byte>, x: seq<Byte>, n: nat, capitals: set<nat>)
    requires forall k :: 0 <= k < |spaces| ==> 9 <= spaces[k] <= 13 || spaces[k] == 32
    requires (sign == [] || sign == [43] || sign == [45]) && (x == [] || x == [48, 120] || x == [48, 88])
    ensures Strtol16(spaces + (sign + (x + Hex(n, capitals, 0)))) == if sign == [45] then -(n as int) else n as int
  {
    hide Hex, HexDigits, SkipSpace;
    var h := Hex(n, capitals, 0);
    HexReadsBack(n, capitals, 0);
    assert SkipPrefix(x + h) == h by {
      if x == [] {
        assert x + h == h;
      } else {
        assert (x + h)[2..] == h && (x + h)[2] == h[0];
      }
    }
    SpacesAreSkipped(spaces, sign + (x + h));
    if sign == [] {
      assert sign + (x + h) == x + h;
    } else {
      assert (sign + (x + h))[1..] == x + h;
    }
  }

  // The status line's code, whatever stands in front of it and behind it.
  lemma CodeReadsBack(word: seq<Byte>, n: nat, text: seq<Byte>)
    requires SP !in word && n < 1000
    ensures ParseCode(word + [SP] + Three(n) + text) == Some(n)
  {
    hide IndexOf, Code;
    var s := word + [SP] + Three(n) + text;
    assert s[..|word|] == word;
    IndexOfIs(s, SP, |word|);
    assert s[|word| + 1..] == Three(n) + text;
    ThreeReadBack(n, text);
  }

  lemma ThreeReadBack(n: nat, text: seq<Byte>)
    requires n < 1000
    ensures Code(Three(n) + text) == n
  {
    hide Code;
    var s := Three(n) + text;
    CodeOfDigits(s, n / 100, n / 10 % 10, n % 10);
    assert n / 10 == n / 100 * 10 + n / 10 % 10 by { TenTimes(n / 10); }
    TenTimes(n);
  }

  lemma TenTimes(n: nat)
    ensures n == n / 10 * 10 + n % 10 && n / 10 / 10 == n / 100
  {
  }

  lemma CodeOfDigits(s: seq<Byte>, a: nat, b: nat, c: nat)
    requires |s| >= 3 && a < 10 && b < 10 && c < 10 && s[0] == 48 + a && s[1] == 48 + b && s[2] == 48 + c
    ensures Code(s) == 100 * a + 10 * b + c
  {
  }

  // ---------------------------------------------------------------------------
  // Words, in any case

  ghost predicate HasCase(s: seq<Byte>, word: seq<Byte>) {
    exists i :: 0 <= i <= |s| && StartsCase(s[i..], word)
  }

  lemma ContainedMeans(s: seq<Byte>, word: seq<Byte>)
    ensures ContainsFold(s, word) <==> HasCase(s, word)
  {
    hide StartsCase, StartsFold;
    forall i | 0 <= i <= |s| ensures StartsFold(s[i..], word) <==> StartsCase(s[i..], word) {
      FoldIsCase(s[i..], word);
    }
  }

  // The names and words looked for, as texts.
  lemma Names()
    ensures CONTENT_LENGTH == Ascii("Content-Length") && CONNECTION == Ascii("Connection")
  {
  }

  lemma EncodingName()
    ensures TRANSFER_ENCODING == Ascii("Transfer-Encoding")
  {
  }

  lemma Words()
    ensures CHUNKED == Ascii("chunked") && CLOSE == Ascii("close") && KEEP_ALIVE == Ascii("keep-alive")
  {
  }

  // ---------------------------------------------------------------------------
  // Header lines

  // A line, by what it says of the body and the connection.
  datatype Says =
    | Length(zeros: nat, n: nat, more: seq<Byte>)
    | Chunking(front: seq<Byte>, word: seq<Byte>, back: seq<Byte>)
    | Closing(word: seq<Byte>, back: seq<Byte>)
    | Keeping(word: seq<Byte>, back: seq<Byte>)
    | Other(value: seq<Byte>)

  datatype Field = Field(name: seq<Byte>, blanks: seq<Byte>, says: Says)

  function Value(says: Says): seq<Byte> {
    match says
    case Length(zeros, n, more) => Zeros(zeros) + Decimal(n) + more
    case Chunking(front, word, back) => front + word + back
    case Closing(word, back) => word + back
    case Keeping(word, back) => word + back
    case Other(value) => value
  }

  function LineOf(f: Field): seq<Byte> {
    f.name + [COLON] + (f.blanks + Value(f.says))
  }

  // What a line of this name says with this value.
  ghost predicate MeansIt(name: seq<Byte>, says: Says) {
    match says
    case Length(_, _, more) => CaseOf(name, CONTENT_LENGTH) && NoDigitFirst(more)
    case Chunking(_, word, _) => CaseOf(name, TRANSFER_ENCODING) && CaseOf(word, CHUNKED)
    case Closing(word, _) => CaseOf(name, CONNECTION) && CaseOf(word, CLOSE)
    case Keeping(word, _) => CaseOf(name, CONNECTION) && CaseOf(word, KEEP_ALIVE)
    case Other(value) =>
      && !CaseOf(name, CONTENT_LENGTH)
      && (CaseOf(name, TRANSFER_ENCODING) ==> !HasCase(value, CHUNKED))
      && (CaseOf(name, CONNECTION) ==>
            !StartsCase(value, CLOSE) && !StartsCase(value, KEEP_ALIVE))
  }

  // A line that can be written: no colon in its name, blanks and then no blank, no end of
  // line, no NUL.
  predicate Writable(f: Field) {
    && COLON !in f.name
    && (forall k :: 0 <= k < |f.blanks| ==> f.blanks[k] == SP || f.blanks[k] == HT)
    && (Value(f.says) != [] ==> Value(f.says)[0] != SP && Value(f.says)[0] != HT)
    && LF !in LineOf(f) && NUL !in LineOf(f)
  }

  ghost predicate GoodField(f: Field) {
    Writable(f) && MeansIt(f.name, f.says)
  }

  // What a line adds to what is known.
  function Said(says: Says, fr: Framing): Framing {
    match says
    case Length(_, n, _) => Framing(n, fr.chunked, fr.keepAlive)
    case Chunking(_, _, _) => Framing(fr.contentLength, true, fr.keepAlive)
    case Closing(_, _) => Framing(fr.contentLength, fr.chunked, false)
    case Keeping(_, _) => Framing(fr.contentLength, fr.chunked, true)
    case Other(_) => fr
  }

  function SaidBy(fields: seq<Field>, fr: Framing): Framing {
    if fields == [] then fr else SaidBy(fields[1..], Said(fields[0].says, fr))
  }

  lemma {:induction false} BlanksAreSkipped(blanks: seq<Byte>, s: seq<Byte>)
    requires forall k :: 0 <= k < |blanks| ==> blanks[k] == SP || blanks[k] == HT
    requires s != [] ==> s[0] != SP && s[0] != HT
    ensures SkipBlanks(blanks + s) == s
  {
    if blanks == [] {
      assert blanks + s == s;
    } else {
      assert (blanks + s)[1..] == blanks[1..] + s;
      BlanksAreSkipped(blanks[1..], s);
    }
  }

  // Where name and value are found.
  lemma PartsOf(f: Field)
    requires Writable(f)
    ensures var line := LineOf(f);
            && Colon(line) == |f.name| < |line| && ValueOf(line) == Value(f.says) == CString(ValueOf(line))
            && forall name :: Named(line, name) <==> CaseOf(f.name, name)
  {
    hide SkipBlanks, CString, IndexOf, Value;
    var line := LineOf(f);
    assert line[..|f.name|] == f.name;
    IndexOfIs(line, COLON, |f.name|);
    assert line[|f.name| + 1..] == f.blanks + Value(f.says);
    BlanksAreSkipped(f.blanks, Value(f.says));
    assert forall b <- Value(f.says) :: b in line;
    CStringOfPlain(Value(f.says));
    forall name ensures Named(line, name) <==> CaseOf(f.name, name) {
      FoldIsCase(line, name);
      if |name| == |f.name| {
        assert line[..|name|] == f.name;
      }
    }
  }

  // Two names are not both a line's.
  lemma NamesDiffer(name: seq<Byte>)
    ensures !(CaseOf(name, CONTENT_LENGTH) && CaseOf(name, TRANSFER_ENCODING))
    ensures !(CaseOf(name, CONTENT_LENGTH) && CaseOf(name, CONNECTION))
    ensures !(CaseOf(name, TRANSFER_ENCODING) && CaseOf(name, CONNECTION))
    ensures !(StartsCase(name, CLOSE) && StartsCase(name, KEEP_ALIVE))
  {
    if StartsCase(name, CLOSE) {
      assert name[..5][0] == name[0] && CLOSE[0] == 99;
    }
    if StartsCase(name, KEEP_ALIVE) {
      assert name[..10][0] == name[0] && KEEP_ALIVE[0] == 107;
    }
  }

  lemma ValueMeans(f: Field)
    requires GoodField(f)
    ensures var value := Value(f.says);
            match f.says
            case Length(_, n, _) => Digits(value, 0) == n == Atoi(value)
            case Chunking(_, _, _) => ContainsFold(value, CHUNKED)
            case Closing(_, _) => StartsFold(value, CLOSE)
            case Keeping(_, _) => StartsFold(value, KEEP_ALIVE)
            case Other(_) =>
              && (ContainsFold(value, CHUNKED) <==> HasCase(value, CHUNKED))
              && (StartsFold(value, CLOSE) <==> StartsCase(value, CLOSE))
              && (StartsFold(value, KEEP_ALIVE) <==> StartsCase(value, KEEP_ALIVE))
  {
    hide Digits, Atoi, ContainsFold, StartsFold, Decimal, Zeros;
    var value := Value(f.says);
    ContainedMeans(value, CHUNKED);
    FoldIsCase(value, CLOSE);
    FoldIsCase(value, KEEP_ALIVE);
    match f.says
    case Length(zeros, n, more) =>
      NumberReadsBack(zeros, n, more);
      AtoiReadsBack([], [], zeros, n, more);
      assert [] + ([] + value) == value;
    case Chunking(front, word, back) =>
      assert value[|front|..][..|CHUNKED|] == word;
      assert StartsCase(value[|front|..], CHUNKED);
    case Closing(word, back) =>
      assert value[..|CLOSE|] == word;
    case Keeping(word, back) =>
      assert value[..|KEEP_ALIVE|] == word;
    case Other(_) =>
  }

  // A line as it is written is read as what it says, by both readers.
  lemma FieldIsRead(f: Field, fr: Framing)
    requires GoodField(f)
    ensures ScanLine(LineOf(f), fr) == Said(f.says, fr) == ParseLine(LineOf(f), fr)
  {
    hide Digits, Atoi, ContainsFold, StartsFold, LineOf, CString, Decimal, Zeros, IndexOf, SkipBlanks, CaseOf, HasCase,
         StartsCase;
    var value := Value(f.says);
    PartsOf(f);
    ValueMeans(f);
    NamesDiffer(f.name);
    KeepIsNotClose(f.says);
    assert f.says.Other? ==> Value(f.says) == f.says.value;
  }

  lemma KeepIsNotClose(says: Says)
    ensures says.Keeping? && CaseOf(says.word, KEEP_ALIVE) ==> !StartsFold(Value(says), CLOSE)
  {
    if says.Keeping? && CaseOf(says.word, KEEP_ALIVE) {
      assert Value(says)[0] == says.word[0] && KEEP_ALIVE[0] == 107;
    }
  }

  // A line without a colon says nothing.
  lemma NoColon(line: seq<Byte>, fr: Framing)
    requires COLON !in line
    ensures ScanLine(line, fr) == fr == ParseLine(line, fr)
  {
    IndexOfIs(line, COLON, |line|);
  }

  // ---------------------------------------------------------------------------
  // The header block

  function BlockOf(fields: seq<Field>): seq<Byte> {
    if fields == [] then [CR, LF] else LineOf(fields[0]) + [CR, LF] + BlockOf(fields[1..])
  }

  // The block as it is written, by a reader that reads its lines.
  lemma {:induction false} BlockIsRead(fields: seq<Field>, fr: Framing, body: seq<Byte>, read: Reader)
    requires forall f <- fields :: GoodField(f)
    requires forall f, fr' :: f in fields ==> read(LineOf(f), fr') == Said(f.says, fr')
    ensures Headers(BlockOf(fields) + body, fr, read) == Some((body, SaidBy(fields, fr)))
  {
    hide LineOf, Said, MeansIt, FindCrlf;
    var s := BlockOf(fields) + body;
    if fields == [] {
      assert s == [] + [CR, LF] + body;
      CrlfEnds([], body);
      assert s[2..] == body;
    } else {
      var f, rest := fields[0], BlockOf(fields[1..]) + body;
      assert f in fields;
      assert s == LineOf(f) + [CR, LF] + rest;
      LineIsThere(f);
      CrlfEnds(LineOf(f), rest);
      Split(LineOf(f), rest);
      BlockIsRead(fields[1..], Said(f.says, fr), body, read);
    }
  }

  // What is so written is plain: the laws of the two readers hold of it.
  lemma {:induction false} WrittenIsPlain(fields: seq<Field>, body: seq<Byte>)
    requires forall f <- fields :: GoodField(f)
    ensures NulFree(BlockOf(fields) + body) && PlainHeaders(BlockOf(fields) + body)
  {
    hide LineOf, MeansIt, FindCrlf, PlainLine;
    var s := BlockOf(fields) + body;
    if fields == [] {
      assert s == [] + [CR, LF] + body;
      CrlfEnds([], body);
    } else {
      var f, rest := fields[0], BlockOf(fields[1..]) + body;
      assert f in fields;
      assert s == LineOf(f) + [CR, LF] + rest;
      LineIsThere(f);
      CrlfEnds(LineOf(f), rest);
      Split(LineOf(f), rest);
      LinePlain(f);
      WrittenIsPlain(fields[1..], body);
    }
  }

  lemma LinePlain(f: Field)
    requires GoodField(f)
    ensures NUL !in LineOf(f) && PlainLine(LineOf(f))
  {
    hide LineOf, IndexOf, SkipBlanks, CString, Digits;
    FieldIsRead(f, NOTHING_SAID);
    LinesAgree(LineOf(f), NOTHING_SAID);
  }

  lemma LineIsThere(f: Field)
    requires GoodField(f)
    ensures |LineOf(f)| > 0 && LF !in LineOf(f)
  {
  }

  // ---------------------------------------------------------------------------
  // The whole response

  datatype Message = Message(word: seq<Byte>, code: nat, reason: seq<Byte>, fields: seq<Field>)

  ghost predicate GoodMessage(m: Message) {
    && SP !in m.word && LF !in m.word && m.code < 1000 && LF !in m.reason
    && forall f <- m.fields :: GoodField(f)
  }

  function StatusLine(m: Message): seq<Byte>
    requires m.code < 1000
  {
    m.word + [SP] + Three(m.code) + m.reason
  }

  function Written(m: Message, body: seq<Byte>): seq<Byte>
    requires m.code < 1000
  {
    StatusLine(m) + [CR, LF] + (BlockOf(m.fields) + body)
  }

  function Saying(m: Message): Framing {
    SaidBy(m.fields, Framing(-1, false, true))
  }

  // Both find the code, what the lines say, and the body.
  lemma MessageIsRead(m: Message, body: seq<Byte>)
    requires GoodMessage(m)
    ensures Check(Written(m, body)) == CheckBody(Some(m.code), body, Saying(m))
    ensures Parse(Written(m, body)) == ParseBody(m.code, body, Saying(m))
  {
    hide FindCrlf, Headers, BlockOf, ScanLine, ParseLine, CheckBody, ParseBody, ParseCode, ScanCode, LineOf, Three,
         GoodField, SaidBy;
    var s, rest, status := Written(m, body), BlockOf(m.fields) + body, StatusLine(m);
    StatusIsThere(m);
    CrlfEnds(status, rest);
    Split(status, rest);
    CodeReadsBack(m.word, m.code, m.reason);
    forall f, fr | f in m.fields ensures ScanLine(LineOf(f), fr) == Said(f.says, fr) == ParseLine(LineOf(f), fr) {
      FieldIsRead(f, fr);
    }
    BlockIsRead(m.fields, NOTHING_SAID, body, ScanLine);
    BlockIsRead(m.fields, NOTHING_SAID, body, ParseLine);
    CodesAgree(s, FindCrlf(s).value, |s| - |body|);
  }

  lemma StatusIsThere(m: Message)
    requires GoodMessage(m)
    ensures LF !in StatusLine(m)
  {
    hide GoodField;
  }

  function NamesAndValues(fields: seq<Field>): seq<(seq<Byte>, seq<Byte>)> {
    seq(|fields|, i requires 0 <= i < |fields| => (fields[i].name, Value(fields[i].says)))
  }

  // The parser hands out the headers as they were written,
  lemma {:induction false} FieldsReadBack(fields: seq<Field>, body: seq<Byte>)
    requires forall f <- fields :: GoodField(f)
    ensures Fields(BlockOf(fields) + body) == NamesAndValues(fields)
  {
    hide LineOf, MeansIt, FindCrlf, Value, FieldOf;
    var s := BlockOf(fields) + body;
    if fields == [] {
      assert s == [] + [CR, LF] + body;
      CrlfEnds([], body);
    } else {
      var f, rest := fields[0], BlockOf(fields[1..]) + body;
      assert f in fields;
      assert s == LineOf(f) + [CR, LF] + rest;
      LineIsThere(f);
      CrlfEnds(LineOf(f), rest);
      Split(LineOf(f), rest);
      PartsOf(f);
      FieldReadsBack(f);
      FieldsReadBack(fields[1..], body);
      assert NamesAndValues(fields) == [(f.name, Value(f.says))] + NamesAndValues(fields[1..]);
    }
  }

  lemma FieldReadsBack(f: Field)
    requires GoodField(f)
    ensures Colon(LineOf(f)) < |LineOf(f)| && FieldOf(LineOf(f)) == (f.name, Value(f.says))
  {
    hide Value, ValueOf, CString, MeansIt, IndexOf;
    PartsOf(f);
    var line := LineOf(f);
    assert line[..|f.name|] == f.name;
    assert forall b <- f.name :: b in line;
    CStringOfPlain(f.name);
  }

  // and the status line's text, what follows the code and one blank.
  lemma TextReadsBack(m: Message, text: seq<Byte>)
    requires GoodMessage(m) && m.reason == [SP] + text && NUL !in text
    ensures ParseCode(StatusLine(m)).Some?
    ensures StatusText(StatusLine(m)) == if text == [] then None else Some(text)
  {
    hide IndexOf, Code, GoodField, CString, Three;
    var line := StatusLine(m);
    CodeReadsBack(m.word, m.code, m.reason);
    assert line[..|m.word|] == m.word;
    IndexOfIs(line, SP, |m.word|);
    assert line[|m.word| + 4..] == [SP] + text;
    assert line[|m.word| + 5..] == text;
    CStringOfPlain(text);
  }

  // A length is said, and no chunks: complete with so many bytes behind the headers, and they
  // are the body; unfinished with fewer.
  lemma SizedIsRead(m: Message, body: seq<Byte>)
    requires GoodMessage(m) && !Saying(m).chunked && Saying(m).contentLength >= 0
    ensures |body| >= Saying(m).contentLength ==>
              && Check(Written(m, body)) == 0
              && Parse(Written(m, body)) == Response(m.code, Saying(m), Fixed(body[..Saying(m).contentLength]))
    ensures |body| < Saying(m).contentLength ==> Check(Written(m, body)) == 1 && Parse(Written(m, body)) == Incomplete
  {
    hide Check, Parse, Written, Saying, GoodMessage;
    MessageIsRead(m, body);
  }

  // Nothing is said of the body's length: none with these codes, whatever is said of the
  // connection, and none on a connection that is kept; else all that comes until it is closed.
  lemma UnsizedIsRead(m: Message, body: seq<Byte>)
    requires GoodMessage(m) && !Saying(m).chunked && Saying(m).contentLength < 0
    ensures m.code == 204 || m.code == 304 || 100 <= m.code <= 199 || Saying(m).keepAlive ==>
              Check(Written(m, body)) == 0 && Parse(Written(m, body)) == Response(m.code, Saying(m), NoBody)
    ensures m.code != 204 && m.code != 304 && (m.code < 100 || m.code > 199) && !Saying(m).keepAlive ==>
              Check(Written(m, body)) == 1 && Parse(Written(m, body)) == Response(m.code, Saying(m), ToTheEnd(body))
  {
    hide Check, Parse, Written, GoodMessage;
    MessageIsRead(m, body);
    LengthSaid(m.fields, NOTHING_SAID);
  }

  lemma {:induction false} LengthSaid(fields: seq<Field>, fr: Framing)
    requires fr.contentLength >= -1
    ensures SaidBy(fields, fr).contentLength >= -1
  {
    if fields != [] {
      LengthSaid(fields[1..], Said(fields[0].says, fr));
    }
  }

  ghost predicate GoodCoding(chunks: seq<Coded>, last: Coded) {
    && (forall c <- chunks :: c.data != [] && BySemicolon(c.extension))
    && last.data == [] && BySemicolon(last.extension)
  }

  // Chunks are said, and a length or none: the joined data of all the chunks is the body.
  lemma ChunkedIsRead(m: Message, chunks: seq<Coded>, last: Coded, trailing: seq<Byte>)
    requires GoodMessage(m) && Saying(m).chunked && GoodCoding(chunks, last)
    ensures var s := Written(m, Encode(chunks, last, trailing));
            Check(s) == 0 && Parse(s) == Response(m.code, Saying(m), Chunks(Data(chunks)))
  {
    hide Check, Parse, Written, Saying, GoodMessage, Encode;
    var body := Encode(chunks, last, trailing);
    MessageIsRead(m, body);
    CheckCountsEncoded(chunks, last, trailing);
    DechunkUndoesEncode(chunks, last, trailing);
  }

  // Cut anywhere in the chunks, it is unfinished to the check.
  lemma CutChunksAreUnfinished(m: Message, chunks: seq<Coded>, last: Coded, p: nat)
    requires GoodMessage(m) && Saying(m).chunked && GoodCoding(chunks, last)
    requires p < |Encode(chunks, last, [])|
    ensures Check(Written(m, Encode(chunks, last, [])[..p])) == 1
  {
    hide Check, Parse, Written, Saying, GoodMessage, Encode;
    MessageIsRead(m, Encode(chunks, last, [])[..p]);
    CutEncodingNeedsMore(chunks, last, p);
  }
}
