// corRestClientParseResponse at work: NULs written over the colons and the line ends of
// the receive buffer, the body dechunked where it lies, and the whole moved onto a copy
// of the response's own (corRestClientParse.c:241-342 and 395-547).
module HttpParseInPlace {
  import opened Base
  import opened CStrings
  import opened HttpScan
  import opened HttpChunks
  import opened HttpResponse
  import opened HttpDechunk
  import opened HttpMarks
  import HttpParser

  // ---------------------------------------------------------------------------
  // What the parser hands out, as strings

  // A header's name and value, as C strings of the line's bytes.
  function FieldOf(line: seq<Byte>): (seq<Byte>, seq<Byte>)
    requires Colon(line) < |line|
  {
    (CString(line[..Colon(line)]), CString(ValueOf(line)))
  }

  // The headers, in the order of their lines; a line without a colon is passed over.
  function Fields(s: seq<Byte>): seq<(seq<Byte>, seq<Byte>)>
    decreases |s|
  {
    if s == [] then []
    else
      match FindCrlf(s)
      case None => []
      case Some(line) =>
        if line.len == 0 then []
        else
          var l := s[..line.len];
          (if Colon(l) < |l| then [FieldOf(l)] else []) + Fields(s[line.next..])
  }

  // The text of the status line; none when the line ends first.
  function StatusText(line: seq<Byte>): Option<seq<Byte>>
    requires ParseCode(line).Some?
  {
    if TextAt(line) < |line| then Some(CString(line[TextAt(line)..])) else None
  }

  predicate HoldsField(b: seq<Byte>, at: (nat, nat), field: (seq<Byte>, seq<Byte>), end: nat) {
    Holds(b, at.0, field.0, end) && Holds(b, at.1, field.1, end)
  }

  predicate HoldsFields(b: seq<Byte>, ats: seq<(nat, nat)>, fields: seq<(seq<Byte>, seq<Byte>)>, end: nat) {
    |ats| == |fields| && forall i :: 0 <= i < |ats| ==> HoldsField(b, ats[i], fields[i], end)
  }

  lemma HoldsFieldsAfter(b: seq<Byte>, after: seq<Byte>, ats: seq<(nat, nat)>, fields: seq<(seq<Byte>, seq<Byte>)>,
                         end: nat, end': nat)
    requires HoldsFields(b, ats, fields, end) && end <= end' <= |after| && end <= |b| && after[..end] == b[..end]
    ensures HoldsFields(after, ats, fields, end')
  {
    forall i | 0 <= i < |ats| ensures HoldsField(after, ats[i], fields[i], end') {
      HoldsAfter(b, after, ats[i].0, fields[i].0, end, end');
      HoldsAfter(b, after, ats[i].1, fields[i].1, end, end');
    }
  }

  // ---------------------------------------------------------------------------
  // A header line

  // The NULs of a header line at b[at..at + len].
  function Cut(b: seq<Byte>, at: nat, colon: nat, len: nat): (r: seq<Byte>)
    requires at + colon < at + len < |b|
    ensures |r| == |b|
  {
    b[at + colon := NUL][at + len := NUL]
  }

  // The blanks in front of the value; the line's end, which is no blank, stops it.
  method SkipToValue(buf: array<Byte>, from: nat, end: nat) returns (v: nat)
    requires from <= end < buf.Length && buf[end] != SP && buf[end] != HT
    ensures from <= v <= end && buf[v..end] == SkipBlanks(buf[from..end])
  {
    v := from;
    while buf[v] == SP || buf[v] == HT
      invariant from <= v <= end
      invariant SkipBlanks(buf[v..end]) == SkipBlanks(buf[from..end])
      decreases end - v
    {
      assert buf[v..end][1..] == buf[v + 1..end];
      v := v + 1;
    }
  }

  // What a header whose value is this C string says of the body.
  method ReadField(line: seq<Byte>, value: seq<Byte>, fr: Framing) returns (r: Framing)
    requires Colon(line) < |line| && value == CString(ValueOf(line))
    ensures r == ParseLine(line, fr)
  {
    r := fr;
    if Named(line, CONTENT_LENGTH) {
      r := fr.(contentLength := Atoi(value));
    } else if Named(line, TRANSFER_ENCODING) {
      var found := HttpParser.FindChunked(value);
      if found {
        r := fr.(chunked := true);
      }
    } else if Named(line, CONNECTION) {
      if StartsFold(value, CLOSE) {
        r := fr.(keepAlive := false);
      } else if StartsFold(value, KEEP_ALIVE) {
        r := fr.(keepAlive := true);
      }
    }
  }

  lemma CutHolds(b: seq<Byte>, at: nat, len: nat, v: nat)
    requires at + len < |b| && Colon(b[at..at + len]) < len
    requires at + Colon(b[at..at + len]) < v <= at + len && b[v..at + len] == ValueOf(b[at..at + len])
    ensures HoldsField(Cut(b, at, Colon(b[at..at + len]), len), (at, v), FieldOf(b[at..at + len]), at + len + 1)
    ensures CString(Cut(b, at, Colon(b[at..at + len]), len)[v..]) == CString(ValueOf(b[at..at + len]))
  {
    hide CString, IndexOf, SkipBlanks;
    var colon := Colon(b[at..at + len]);
    var cut := Cut(b, at, colon, len);
    HoldsCString(cut, at, colon, at + len + 1);
    assert cut[at..at + colon] == b[at..at + len][..colon];
    HoldsCString(cut, v, at + len - v, at + len + 1);
    assert cut[v..at + len] == b[v..at + len];
    assert cut[v..] == b[v..at + len] + [NUL] + cut[at + len + 1..];
    StringEndsAtNul(b[v..at + len], cut[at + len + 1..]);
  }

  // parseResponseHeader: the offsets of the name and the value, when there is a colon.
  method ParseResponseHeader(buf: array<Byte>, at: nat, len: nat, fr: Framing)
    returns (field: Option<(nat, nat)>, r: Framing)
    requires at + len < buf.Length && buf[at + len] != SP && buf[at + len] != HT
    modifies buf
    ensures var line := old(buf[..])[at..at + len];
            && r == ParseLine(line, fr) && (field.None? <==> Colon(line) == len)
            && (field.Some? ==> HoldsField(buf[..], field.value, FieldOf(line), at + len + 1))
    ensures var b, colon := old(buf[..]), Colon(old(buf[..])[at..at + len]);
            buf[..] == if colon == len then b else Cut(b, at, colon, len)
  {
    hide CString, SkipBlanks, IndexOf, Atoi;
    ghost var b := buf[..];
    var line := buf[at..at + len];
    assert line == b[at..at + len];
    var colon := HttpParser.Find(line, COLON);
    if colon == len {
      return None, fr;
    }
    buf[at + colon] := NUL;
    var v := SkipToValue(buf, at + colon + 1, at + len);
    assert buf[at + colon + 1..at + len] == line[colon + 1..];
    assert buf[v..at + len] == b[v..at + len];
    buf[at + len] := NUL;
    CutHolds(b, at, len, v);
    assert buf[..] == Cut(b, at, colon, len);
    assert buf[v..] == buf[..][v..];
    r := ReadField(line, CString(buf[v..]), fr);
    field := Some((at, v));
  }

  // ---------------------------------------------------------------------------
  // The header block

  // The byte a line ends at is its CR, or its LF.
  lemma LineEndsAt(s: seq<Byte>)
    requires FindCrlf(s).Some?
    ensures s[FindCrlf(s).value.len] == CR || s[FindCrlf(s).value.len] == LF
  {
    IndexOfMeans(s, LF);
  }

  // Headers and Fields, one line on.
  lemma NextLine(t: seq<Byte>, fr: Framing)
    requires t != [] && FindCrlf(t).Some? && FindCrlf(t).value.len != 0
    ensures var line := FindCrlf(t).value;
            var l := t[..line.len];
            && Headers(t, fr, ParseLine) == Headers(t[line.next..], ParseLine(l, fr), ParseLine)
            && Fields(t) == (if Colon(l) < |l| then [FieldOf(l)] else []) + Fields(t[line.next..])
  {
  }

  lemma LastLine(t: seq<Byte>, fr: Framing)
    requires t == [] || FindCrlf(t).None? || FindCrlf(t).value.len == 0
    ensures Fields(t) == [] && Marked(t) == t
    ensures Headers(t, fr, ParseLine) == if t == [] then Some((t, fr))
                                         else if FindCrlf(t).None? then None
                                         else Some((t[FindCrlf(t).value.next..], fr))
  {
  }

  // One more header, after those there are.
  lemma MoreFields(b: seq<Byte>, after: seq<Byte>, ats: seq<(nat, nat)>, fields: seq<(seq<Byte>, seq<Byte>)>, end: nat,
                   end': nat, field: Option<(nat, nat)>, text: seq<(seq<Byte>, seq<Byte>)>)
    requires HoldsFields(b, ats, fields, end) && end <= end' <= |after| && end <= |b| && after[..end] == b[..end]
    requires if field.None? then text == [] else |text| == 1 && HoldsField(after, field.value, text[0], end')
    ensures HoldsFields(after, ats + (if field.None? then [] else [field.value]), fields + text, end')
  {
    HoldsFieldsAfter(b, after, ats, fields, end, end');
  }

  // The buffer marked up to p; t is what is left of the block.
  ghost predicate Reached(b0: seq<Byte>, b: seq<Byte>, from: nat, p: nat, to: nat, t: seq<Byte>) {
    && from <= p <= to <= |b| == |b0| && t == b[p..to]
    && b[..from] == b0[..from] && b[to..] == b0[to..]
    && b[from..p] + Marked(t) == Marked(b0[from..to])
  }

  lemma ReachedOn(b0: seq<Byte>, b: seq<Byte>, after: seq<Byte>, from: nat, p: nat, to: nat, t: seq<Byte>, line: Line)
    requires Reached(b0, b, from, p, to, t) && FindCrlf(t) == Some(line) && line.len != 0
    requires var colon := Colon(b[p..p + line.len]);
             after == if colon == line.len then b else Cut(b, p, colon, line.len)
    ensures Reached(b0, after, from, p + line.next, to, t[line.next..]) && after[..p] == b[..p]
  {
    hide Marked, MarkedLine, IndexOf, Cut;
    LineIsMarked(b, after, p, to, line);
    AfterLine(b0, b, after, from, p, to, line);
    MarkedUnfolds(t);
    var first, rest := MarkedLine(t, line.len)[..line.next], Marked(t[line.next..]);
    assert after[from..p + line.next] == after[..p][from..] + after[p..p + line.next];
    assert (b[from..p] + first) + rest == b[from..p] + (first + rest);
  }

  lemma MarkedUnfolds(t: seq<Byte>)
    requires FindCrlf(t).Some? && FindCrlf(t).value.len != 0
    ensures Marked(t) == MarkedLine(t, FindCrlf(t).value.len)[..FindCrlf(t).value.next] +
            Marked(t[FindCrlf(t).value.next..])
  {
  }

  lemma ReachedEnd(b0: seq<Byte>, b: seq<Byte>, from: nat, p: nat, to: nat, t: seq<Byte>)
    requires Reached(b0, b, from, p, to, t) && Marked(t) == t
    ensures |b| == |b0| && b[from..to] == Marked(b0[from..to])
    ensures b[..from] == b0[..from] && b[to..] == b0[to..]
  {
    hide Marked;
    SplitAt(b, from, p, to);
  }

  // One header line of the loop; t is the bytes from p on, `done` the headers before.
  method ParseOne(buf: array<Byte>, from: nat, p: nat, to: nat, line: Line, fr: Framing, fields: seq<(nat, nat)>,
                  ghost b0: seq<Byte>, ghost t: seq<Byte>, ghost done: seq<(seq<Byte>, seq<Byte>)>)
    returns (fr': Framing, fields': seq<(nat, nat)>)
    requires Reached(b0, buf[..], from, p, to, t) && FindCrlf(t) == Some(line) && line.len != 0
    requires HoldsFields(buf[..], fields, done, p)
    modifies buf
    ensures fr' == ParseLine(t[..line.len], fr)
    ensures Reached(b0, buf[..], from, p + line.next, to, t[line.next..])
    ensures var l := t[..line.len];
            HoldsFields(buf[..], fields', done + (if Colon(l) < |l| then [FieldOf(l)] else []), p + line.next)
  {
    hide ParseLine, FieldOf, HoldsFields, HoldsField, FindCrlf, IndexOf, Marked;
    LineEndsAt(t);
    ghost var b, l := buf[..], t[..line.len];
    assert l == b[p..p + line.len];
    var field;
    field, fr' := ParseResponseHeader(buf, p, line.len, fr);
    ghost var after, text := buf[..], if Colon(l) < |l| then [FieldOf(l)] else [];
    ReachedOn(b0, b, after, from, p, to, t, line);
    HoldsFieldAfter(after, field, text, p + line.len + 1, p + line.next);
    MoreFields(b, after, fields, done, p, p + line.next, field, text);
    fields' := fields + if field.None? then [] else [field.value];
  }

  // The header loop: where the body starts, what the lines say of it, and the headers.
  method ParseBlock(buf: array<Byte>, from: nat, to: nat)
    returns (block: Option<(nat, Framing)>, fields: seq<(nat, nat)>)
    requires from <= to <= buf.Length
    modifies buf
    ensures var s := old(buf[..])[from..to];
            && (block.None? <==> Headers(s, NOTHING_SAID, ParseLine).None?)
            && (block.Some? ==>
                  && from <= block.value.0 <= to
                  && Headers(s, NOTHING_SAID, ParseLine) == Some((buf[..][block.value.0..to], block.value.1))
                  && HoldsFields(buf[..], fields, Fields(s), block.value.0))
    ensures buf[..][from..to] == Marked(old(buf[..])[from..to])
    ensures buf[..][..from] == old(buf[..])[..from] && buf[..][to..] == old(buf[..])[to..]
  {
    hide Headers, Fields, ParseLine, FieldOf, HoldsFields, FindCrlf, IndexOf, Marked, MarkedLine, Reached;
    var p, fr := from, NOTHING_SAID;
    fields := [];
    ghost var b0, s := buf[..], buf[..][from..to];
    ghost var t, done := s, [];
    NoFields(b0, from);
    AtTheStart(b0, from, to);
    while p < to
      invariant from <= p <= to && Reached(b0, buf[..], from, p, to, t) && t == buf[..][p..to]
      invariant Headers(t, fr, ParseLine) == Headers(s, NOTHING_SAID, ParseLine)
      invariant done + Fields(t) == Fields(s)
      invariant HoldsFields(buf[..], fields, done, p)
      decreases (to as int) - p
    {
      var found := HttpParser.FindLineEnd(buf[p..to]);
      assert buf[p..to] == t;
      if found.None? {
        LastLine(t, fr);
        ReachedEnd(b0, buf[..], from, p, to, t);
        return None, fields;
      }
      var line := found.value;
      if line.len == 0 {
        LastLine(t, fr);
        SliceOfSlice(buf[..], p, to, line.next, to - p);
        ReachedEnd(b0, buf[..], from, p, to, t);
        HoldsFieldsAfter(buf[..], buf[..], fields, done, p, p + line.next);
        assert done + [] == done;
        return Some((p + line.next, fr)), fields;
      }
      NextLine(t, fr);
      fr, fields := ParseOne(buf, from, p, to, line, fr, fields, b0, t, done);
      ghost var l := t[..line.len];
      done := done + if Colon(l) < |l| then [FieldOf(l)] else [];
      p, t := p + line.next, t[line.next..];
      AtP(b0, buf[..], from, p, to, t);
    }
    LastLine(t, fr);
    ReachedEnd(b0, buf[..], from, p, to, t);
    assert done + [] == done;
    return Some((p, fr)), fields;
  }

  lemma AtTheStart(b: seq<Byte>, from: nat, to: nat)
    requires from <= to <= |b|
    ensures Reached(b, b, from, from, to, b[from..to])
  {
    assert b[from..from] + Marked(b[from..to]) == Marked(b[from..to]);
  }

  lemma AtP(b0: seq<Byte>, b: seq<Byte>, from: nat, p: nat, to: nat, t: seq<Byte>)
    requires Reached(b0, b, from, p, to, t)
    ensures from <= p <= to <= |b| && t == b[p..to]
  {
  }

  lemma SplitAt(b: seq<Byte>, from: nat, p: nat, to: nat)
    requires from <= p <= to <= |b|
    ensures b[from..to] == b[from..p] + b[p..to]
  {
  }

  lemma LineIsMarked(b: seq<Byte>, after: seq<Byte>, p: nat, to: nat, line: Line)
    requires p <= to <= |b| && line.len < line.next && p + line.next <= to
    requires var colon := Colon(b[p..p + line.len]);
             after == if colon == line.len then b else Cut(b, p, colon, line.len)
    ensures after[p..p + line.next] == MarkedLine(b[p..to], line.len)[..line.next]
    ensures after[..p] == b[..p] && after[p + line.len + 1..] == b[p + line.len + 1..]
  {
    hide IndexOf;
    assert b[p..to][..line.len] == b[p..p + line.len];
    var marked := MarkedLine(b[p..to], line.len);
    assert forall k :: 0 <= k < line.next ==> after[p..p + line.next][k] == after[p + k] == marked[k];
  }

  lemma NoFields(b: seq<Byte>, end: nat)
    ensures HoldsFields(b, [], [], end)
  {
  }

  lemma HoldsFieldAfter(b: seq<Byte>, field: Option<(nat, nat)>, text: seq<(seq<Byte>, seq<Byte>)>, end: nat, end': nat)
    requires if field.None? then text == [] else |text| == 1 && HoldsField(b, field.value, text[0], end)
    requires end <= end' <= |b|
    ensures field.Some? ==> HoldsField(b, field.value, text[0], end')
  {
  }

  // What a header line's NULs leave as it was.
  lemma AfterLine(b0: seq<Byte>, b: seq<Byte>, after: seq<Byte>, from: nat, p: nat, to: nat, line: Line)
    requires from <= p <= to <= |b| == |b0| == |after| && line.len < line.next && p + line.next <= to
    requires b[..from] == b0[..from] && b[to..] == b0[to..]
    requires after[..p] == b[..p] && after[p + line.len + 1..] == b[p + line.len + 1..]
    ensures after[..from] == b0[..from] && after[to..] == b0[to..]
    ensures after[p + line.next..to] == b[p..to][line.next..]
  {
    PartOfPrefix(after, b, from, p);
    var k := p + line.len + 1;
    assert forall i :: k <= i < |b| ==> after[i] == after[k..][i - k] == b[k..][i - k] == b[i];
    SliceOfSlice(b, p, to, line.next, to - p);
  }

  // ---------------------------------------------------------------------------
  // The status line

  // parseStatusLine: the code, and where the text is.
  method ParseStatusLine(buf: array<Byte>, len: nat) returns (r: Option<(int, Option<nat>)>)
    requires len < buf.Length
    modifies buf
    ensures var line := old(buf[..])[..len];
            && (r.None? <==> ParseCode(line).None?)
            && (r.Some? ==>
                  && r.value.0 == ParseCode(line).value
                  && (r.value.1.Some? <==> StatusText(line).Some?)
                  && (r.value.1.Some? ==> Holds(buf[..], r.value.1.value, StatusText(line).value, len + 1)))
    ensures buf[..] == if r.Some? then MarkedStatus(old(buf[..]), len) else old(buf[..])
  {
    hide CString, IndexOf, Holds, Code;
    var line := buf[..len];
    assert line == buf[..][..len];
    var p: nat := HttpParser.Find(line, SP);
    if p == len {
      return None;
    }
    p := p + 1;
    if len - p < 3 {
      return None;
    }
    var code := Code(line[p..]);
    p := p + 3;
    if p < len && line[p] == SP {
      p := p + 1;
    }
    if p == len {
      return Some((code, None));
    }
    buf[len] := NUL;
    HoldsCString(buf[..], p, len - p, len + 1);
    assert buf[..][p..p + (len - p)] == line[p..];
    return Some((code, Some(p)));
  }

  // ---------------------------------------------------------------------------
  // The body, and the copy

  // What corRestClientParseResponse answers: 0, 1, -1; or a chunk size C leaves open.
  datatype Verdict = ParsedAll | NeedsMore | Unreadable | Unspecified

  predicate Answers(v: Verdict, p: Parsed) {
    match p
    case Response(_, _, _) => v == ParsedAll
    case Incomplete => v == NeedsMore
    case BadResponse => v == Unreadable
    case NotDefined => v == Unspecified
  }

  // The body's data at b[at..at + len]; at is None when there is no body.
  predicate HoldsBody(b: seq<Byte>, at: Option<nat>, len: nat, body: Body) {
    match body
    case NoBody => at.None? && len == 0
    case _ => at.Some? && len == |body.data| && at.value + len <= |b| && b[at.value..at.value + len] == body.data
  }

  // The end of corRestClientParseResponse, before the copy.
  method TakeBody(buf: array<Byte>, from: nat, to: nat, code: int, fr: Framing)
    returns (v: Verdict, body: Option<nat>, bodyLen: nat)
    requires from <= to <= buf.Length
    modifies buf
    ensures var p := ParseBody(code, old(buf[..])[from..to], fr);
            && Answers(v, p)
            && (p.Response? ==> p.code == code && p.fr == fr && HoldsBody(buf[..to], body, bodyLen, p.body))
    ensures body.Some? ==> body.value == from && from + bodyLen <= to
    ensures buf[..][..from] == old(buf[..])[..from] && (!fr.chunked ==> buf[..] == old(buf[..]))
  {
    hide Dechunk;
    v, body, bodyLen := ParsedAll, None, 0;
    ghost var s := buf[..][from..to];
    if fr.chunked {
      var r := DechunkInPlace(buf, from, to);
      match r {
        case MoreToCome => v := NeedsMore;
        case Wrong => v := Unreadable;
        case NotDefined => v := Unspecified;
        case Length(outLen) =>
          body, bodyLen := Some(from), outLen;
          SliceOfSlice(buf[..], 0, to, from, from + outLen);
          assert buf[..to] == buf[..][..to];
      }
    } else if fr.contentLength >= 0 {
      if to - from < fr.contentLength {
        return NeedsMore, None, 0;
      }
      body, bodyLen := Some(from), fr.contentLength;
      assert buf[..to][from..from + bodyLen] == s[..bodyLen];
    } else if fr.contentLength == -1 && !Bodiless(code) && !fr.keepAlive {
      body, bodyLen := Some(from), to - from;
      assert buf[..to][from..to] == s;
    }
  }

  // responseDetach: everything the response points at is where it was, on a copy of its
  // own, and the body ends in a NUL there.
  method Detach(buf: array<Byte>, len: nat, body: Option<nat>, bodyLen: nat) returns (copy: array<Byte>)
    requires len <= buf.Length && (body.Some? ==> body.value + bodyLen <= len)
    ensures fresh(copy) && copy.Length == len + 1
    ensures body.None? ==> copy[..] == buf[..len] + [NUL]
    ensures body.Some? ==> copy[..] == (buf[..len] + [NUL])[body.value + bodyLen := NUL]
  {
    copy := new Byte[len + 1];
    forall k | 0 <= k < len {
      copy[k] := buf[k];
    }
    copy[len] := NUL;
    assert copy[..] == buf[..len] + [NUL];
    if body.Some? {
      copy[body.value + bodyLen] := NUL;
    }
  }

  // What the copy holds of the buffer b, up to len: the body, ended by a NUL, and every
  // byte in front of it.
  lemma CopyHolds(b: seq<Byte>, copy: seq<Byte>, from: nat, len: nat, at: Option<nat>, bodyLen: nat, body: Body)
    requires from <= len <= |b| && HoldsBody(b[..len], at, bodyLen, body) && (at.Some? ==> at.value == from)
    requires at.None? ==> copy == b[..len] + [NUL]
    requires at.Some? ==> copy == (b[..len] + [NUL])[from + bodyLen := NUL]
    ensures |copy| == len + 1 && copy[..from] == b[..from] && HoldsBody(copy, at, bodyLen, body)
    ensures at.Some? ==> copy[from + bodyLen] == NUL
  {
    if at.Some? {
      assert copy[from..from + bodyLen] == b[..len][from..from + bodyLen];
    }
  }

  // ---------------------------------------------------------------------------
  // corRestClientParseResponse

  class Conn {
    var buf: array<Byte>
    var bufLen: nat
    var keepAlive: bool

    constructor (size: nat)
      ensures fresh(buf) && buf.Length == size && bufLen == 0 && keepAlive
    {
      buf, bufLen, keepAlive := new Byte[size], 0, true;
    }
  }

  // What the parser hands out: offsets into the response's own buffer.
  class Response {
    var statusCode: int
    var statusText: Option<nat>
    var headers: seq<(nat, nat)>
    var body: Option<nat>
    var bodyLen: nat
    var buf: array?<Byte>

    // Everything Parse and its companions say, at the offsets.
    ghost predicate Carries(text: Option<seq<Byte>>, fields: seq<(seq<Byte>, seq<Byte>)>, b: Body, len: nat)
      reads this, buf
    {
      && buf != null && buf.Length == len + 1
      && (statusText.Some? <==> text.Some?)
      && (statusText.Some? ==> Holds(buf[..], statusText.value, text.value, len + 1))
      && HoldsFields(buf[..], headers, fields, len + 1)
      && HoldsBody(buf[..], body, bodyLen, b)
      && (body.Some? ==> body.value + bodyLen <= len && buf[body.value + bodyLen] == NUL)
    }
  }

  // What was held in front of the body is held when only the body changes.
  lemma HeldInFront(b1: seq<Byte>, b2: seq<Byte>, b3: seq<Byte>, end: nat, next: nat, from: nat, end': nat,
                    at: Option<nat>, text: Option<seq<Byte>>, ats: seq<(nat, nat)>, fields: seq<(seq<Byte>, seq<Byte>)>)
    requires end <= next <= from <= |b2| && next <= |b1| && from <= end' <= |b3|
    requires b2[..next] == b1[..next] && b3[..from] == b2[..from]
    requires at.Some? ==> text.Some? && Holds(b1, at.value, text.value, end)
    requires HoldsFields(b2, ats, fields, from)
    ensures at.Some? ==> Holds(b3, at.value, text.value, end')
    ensures HoldsFields(b3, ats, fields, end')
  {
    PartOfPrefix(b3, b2, next, from);
    if at.Some? {
      PartOfPrefix(b3, b1, end, next);
      HoldsAfter(b1, b3, at.value, text.value, end, end');
    }
    HoldsFieldsAfter(b2, b3, ats, fields, from, end');
  }

  // Behind the status line's NUL.
  lemma StatusLeft(b: seq<Byte>, after: seq<Byte>, line: Line, len: nat)
    requires line.len < line.next <= len <= |b| && ParseCode(b[..line.len]).Some? && after == MarkedStatus(b, line.len)
    ensures after[line.next..len] == b[..len][line.next..] && b[..len][..line.len] == b[..line.len]
    ensures after[..line.next] == MarkedStatus(b[..len], line.len)[..line.next]
  {
    hide ParseCode, TextAt;
    assert b[..len][..line.len] == b[..line.len];
  }

  // What is found in the buffer, as offsets; the body starts at `from`.
  datatype Found = Found(code: int, text: Option<nat>, headers: seq<(nat, nat)>, fr: Framing, from: nat,
                         body: Option<nat>, bodyLen: nat)

  ghost predicate FoundIn(b: seq<Byte>, len: nat, f: Found, text: Option<seq<Byte>>,
                          fields: seq<(seq<Byte>, seq<Byte>)>,
                          body: Body)
    requires len <= |b|
  {
    && f.from <= len
    && (f.text.Some? <==> text.Some?)
    && (f.text.Some? ==> Holds(b, f.text.value, text.value, f.from))
    && HoldsFields(b, f.headers, fields, f.from)
    && HoldsBody(b[..len], f.body, f.bodyLen, body)
    && (f.body.Some? ==> f.body.value == f.from && f.from + f.bodyLen <= len)
  }

  // The copy made of the buffer holds what was found in it.
  lemma FoundOnCopy(b: seq<Byte>, copy: seq<Byte>, len: nat, f: Found, text: Option<seq<Byte>>,
                    fields: seq<(seq<Byte>, seq<Byte>)>, body: Body)
    requires len <= |b| && FoundIn(b, len, f, text, fields, body)
    requires f.body.None? ==> copy == b[..len] + [NUL]
    requires f.body.Some? ==> copy == (b[..len] + [NUL])[f.body.value + f.bodyLen := NUL]
    ensures |copy| == len + 1 && (f.text.Some? <==> text.Some?)
    ensures f.text.Some? ==> Holds(copy, f.text.value, text.value, len + 1)
    ensures HoldsFields(copy, f.headers, fields, len + 1) && HoldsBody(copy, f.body, f.bodyLen, body)
    ensures f.body.Some? ==> f.body.value + f.bodyLen <= len && copy[f.body.value + f.bodyLen] == NUL
  {
    CopyHolds(b, copy, f.from, len, f.body, f.bodyLen, body);
    HeldInFront(b, b, copy, f.from, f.from, f.from, len + 1, f.text, text, f.headers, fields);
  }

  // After the status line.
  method ParseRest(buf: array<Byte>, len: nat, line: Line, code: int, text: Option<nat>, ghost said: Option<seq<Byte>>)
    returns (v: Verdict, done: bool, f: Found, ghost residue: seq<Byte>)
    requires line.len < line.next <= len <= buf.Length
    requires text.Some? <==> said.Some?
    requires text.Some? ==> Holds(buf[..], text.value, said.value, line.len + 1)
    modifies buf
    ensures f.body.Some? ==> f.body.value + f.bodyLen <= len
    ensures buf[..][..line.next] == old(buf[..])[..line.next]
    ensures var rest := old(buf[..])[line.next..len];
            match Headers(rest, NOTHING_SAID, ParseLine)
            case None => v == NeedsMore && !done && buf[..][line.next..len] == Marked(rest)
            case Some((body, fr)) =>
              var p := ParseBody(code, body, fr);
              && done && f.fr == fr && |residue| == |body|
              && buf[..][line.next..len] == (if fr.chunked then Marked(rest)[..|rest| - |body|] + residue
                   else Marked(rest))
              && Answers(v, p)
              && (p.Response? ==>
                    && f.code == p.code == code && f.fr == p.fr == fr
                    && FoundIn(buf[..], len, f, said, Fields(rest), p.body))
  {
    hide Headers, Fields, ParseBody, HoldsFields, HoldsBody, Holds, ParseLine, Marked;
    ghost var b1 := buf[..];
    f, residue := Found(code, text, [], NOTHING_SAID, 0, None, 0), [];
    var block, fields := ParseBlock(buf, line.next, len);
    if block.None? {
      return NeedsMore, false, f, residue;
    }
    var (from, fr) := block.value;
    ghost var b2 := buf[..];
    var body, bodyLen;
    v, body, bodyLen := TakeBody(buf, from, len, code, fr);
    done, f := true, Found(code, text, fields, fr, from, body, bodyLen);
    ghost var b3, rest := buf[..], b1[line.next..len];
    residue := b3[from..len];
    BodyLeft(b2, b3, line.next, from, len);
    HeldInFront(b1, b2, b3, line.len + 1, line.next, from, from, text, said, fields, Fields(rest));
    assert buf[..len] == b3[..len];
  }

  // Only the body has changed.
  lemma BodyLeft(b: seq<Byte>, after: seq<Byte>, next: nat, from: nat, len: nat)
    requires next <= from <= len <= |b| == |after| && after[..from] == b[..from]
    ensures after[..next] == b[..next] && after[next..len] == b[next..len][..from - next] + after[from..len]
  {
    PartOfPrefix(after, b, next, from);
    SplitAt(after, next, from, len);
    assert b[next..len][..from - next] == b[next..from];
  }

  // corRestClientParseResponse, but for the copy; done: to the end of the headers.
  method ParseOnBuffer(buf: array<Byte>, len: nat)
    returns (v: Verdict, done: bool, f: Found, ghost residue: seq<Byte>)
    requires len <= buf.Length
    modifies buf
    ensures f.body.Some? ==> f.body.value + f.bodyLen <= len
    ensures var s := old(buf[..])[..len];
            && Answers(v, Parse(s))
            && done == LinesWhole(s) && (done ==> f.fr == ParsedBlock(s).value.1)
            && buf[..][..len] == Left(s, residue)
            && (v == ParsedAll ==>
                  var line := FindCrlf(s).value;
                  && f.code == Parse(s).code && f.fr == Parse(s).fr
                  && FoundIn(buf[..], len, f, StatusText(s[..line.len]), Fields(s[line.next..]), Parse(s).body))
  {
    hide Headers, Fields, ParseCode, StatusText, ParseBody, FoundIn, Holds, ParseLine, Marked, MarkedStatus, FindCrlf;
    ghost var b := buf[..];
    ghost var s := b[..len];
    done, f, residue := false, Found(0, None, [], NOTHING_SAID, 0, None, 0), [];
    var found := HttpParser.FindLineEnd(buf[..len]);
    assert buf[..len] == s;
    if found.None? {
      return NeedsMore, false, f, residue;
    }
    var line := found.value;
    assert buf[..][..line.len] == s[..line.len];
    var status := ParseStatusLine(buf, line.len);
    if status.None? {
      return Unreadable, false, f, residue;
    }
    ghost var marked := buf[..];
    StatusLeft(b, marked, line, len);
    v, done, f, residue := ParseRest(buf, len, line, status.value.0, status.value.1, StatusText(s[..line.len]));
    SplitAt(buf[..], 0, line.next, len);
    assert buf[..len] == marked[..line.next] + buf[..][line.next..len];
  }

  lemma ParsedLine(s: seq<Byte>)
    requires Parse(s).Response?
    ensures FindCrlf(s).Some? && ParseCode(s[..FindCrlf(s).value.len]).Some?
  {
  }

  // The response is what Parse makes of the bytes, moved onto a copy of its own: its
  // strings and its body outlive the connection's buffer, which is left as Left says.
  method ParseResponse(conn: Conn, resp: Response) returns (v: Verdict, ghost residue: seq<Byte>)
    requires conn.bufLen <= conn.buf.Length
    modifies resp, conn`keepAlive, conn.buf
    ensures var s := old(conn.buf[..])[..conn.bufLen];
            && Answers(v, Parse(s))
            && conn.keepAlive == (if LinesWhole(s) then ParsedBlock(s).value.1.keepAlive else old(conn.keepAlive))
            && conn.buf[..][..conn.bufLen] == Left(s, residue)
            && (v == ParsedAll ==>
                  && fresh(resp.buf)
                  && resp.statusCode == Parse(s).code
                  && var line := FindCrlf(s).value;
                     resp.Carries(StatusText(s[..line.len]), Fields(s[line.next..]), Parse(s).body, conn.bufLen))
  {
    hide Parse, FindCrlf, Fields, StatusText, HoldsFields, HoldsBody, Holds, FoundIn, Left, LinesWhole, ParsedBlock,
         ParseCode;
    var len := conn.bufLen;
    ghost var s := conn.buf[..][..len];
    var done, f;
    v, done, f, residue := ParseOnBuffer(conn.buf, len);
    if done {
      conn.keepAlive := f.fr.keepAlive;
    }
    if v == ParsedAll {
      ghost var b := conn.buf[..];
      var copy := Detach(conn.buf, len, f.body, f.bodyLen);
      assert conn.buf[..len] == b[..len];
      resp.statusCode, resp.statusText, resp.headers := f.code, f.text, f.headers;
      resp.body, resp.bodyLen, resp.buf := f.body, f.bodyLen, copy;
      ParsedLine(s);
      ghost var line := FindCrlf(s).value;
      FoundOnCopy(b, copy[..], len, f, StatusText(s[..line.len]), Fields(s[line.next..]), Parse(s).body);
    }
  }
}
