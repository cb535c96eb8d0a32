// The loops of corRestClientParse.c over the receive buffer: the read-only check, and
// the parser that writes NULs into the buffer and dechunks the body in place. Each is
// proved to compute the function HttpScan, HttpChunks or HttpResponse gives it.
module HttpParser {
  import opened Base
  import opened CStrings
  import opened HttpScan
  import opened HttpChunks
  import opened HttpResponse

  // ---------------------------------------------------------------------------
  // The check: it writes nothing, so what is in the buffer is a value

  // findCRLF
  method FindLineEnd(s: seq<Byte>) returns (r: Option<Line>)
    ensures r == FindCrlf(s)
  {
    var p := 0;
    while p < |s|
      invariant 0 <= p <= |s| && LF !in s[..p]
    {
      if s[p] == LF {
        IndexOfIs(s, LF, p);
        if p > 0 && s[p - 1] == CR {
          return Some(Line(p - 1, p + 1));
        }
        return Some(Line(p, p + 1));
      }
      assert s[..p + 1] == s[..p] + [s[p]];
      p := p + 1;
    }
    IndexOfIs(s, LF, |s|);
    return None;
  }

  // memchr
  method Find(s: seq<Byte>, b: Byte) returns (k: nat)
    ensures k == IndexOf(s, b)
  {
    k := 0;
    while k < |s| && s[k] != b
      invariant 0 <= k <= |s| && b !in s[..k]
    {
      assert s[..k + 1] == s[..k] + [s[k]];
      k := k + 1;
    }
    IndexOfIs(s, b, k);
  }

  // The value's first character that is no blank.
  method FindValue(s: seq<Byte>) returns (v: nat)
    ensures v <= |s| && s[v..] == SkipBlanks(s)
  {
    v := 0;
    while v < |s| && (s[v] == SP || s[v] == HT)
      invariant 0 <= v <= |s| && SkipBlanks(s[v..]) == SkipBlanks(s)
    {
      assert s[v..][1..] == s[v + 1..];
      v := v + 1;
    }
  }

  method ReadDigits(value: seq<Byte>) returns (n: int)
    ensures n == Digits(value, 0)
  {
    n := 0;
    var i := 0;
    while i < |value| && IsDigit(value[i])
      invariant 0 <= i <= |value| && Digits(value[i..], n) == Digits(value, 0)
    {
      assert value[i..][1..] == value[i + 1..];
      n := n * 10 + (value[i] as int - 48);
      i := i + 1;
    }
  }

  method FindChunked(value: seq<Byte>) returns (found: bool)
    ensures found <==> ContainsFold(value, CHUNKED)
  {
    if |value| >= 7 {
      for i := 0 to |value| - 6
        invariant forall k :: 0 <= k < i ==> !StartsFold(value[k..], CHUNKED)
      {
        if StartsFold(value[i..], CHUNKED) {
          return true;
        }
      }
    }
    return false;
  }

  method ScanHeaderValue(line: seq<Byte>, fr: Framing) returns (r: Framing)
    ensures r == ScanLine(line, fr)
  {
    r := fr;
    var colon := Find(line, COLON);
    if colon == |line| {
      return;
    }
    var v := FindValue(line[colon + 1..]);
    var value := line[colon + 1..][v..];
    if Named(line, CONTENT_LENGTH) {
      var n := ReadDigits(value);
      r := fr.(contentLength := n);
    } else if Named(line, TRANSFER_ENCODING) {
      var found := FindChunked(value);
      if found {
        r := fr.(chunked := true);
      }
    } else if Named(line, CONNECTION) {
      if StartsFold(value, CLOSE) {
        r := fr.(keepAlive := false);
      } else if StartsFold(value, KEEP_ALIVE) {
        r := fr.(keepAlive := true);
      }
    }
  }

  // The size loop of chunkedComplete.
  method ReadSize(line: seq<Byte>) returns (size: Option<nat>)
    ensures size == SizeLine(line)
  {
    ghost var k := IndexOf(line, SEMICOLON);
    IndexOfMeans(line, SEMICOLON);
    var n: nat, i: nat := 0, 0;
    while i < |line| && line[i] != SEMICOLON
      invariant 0 <= i <= k
      invariant forall j :: 0 <= j < i ==> IsHex(line[j])
      invariant HexDigits(line[i..k], n) == HexDigits(line[..k], 0)
    {
      if !IsHex(line[i]) {
        return None;
      }
      assert line[i..k][1..] == line[i + 1..k];
      n := n * 16 + HexVal(line[i]);
      i := i + 1;
    }
    return Some(n);
  }

  // One turn of chunkedComplete's loop.
  method ScanChunk(s: seq<Byte>) returns (r: Turn<Scan>)
    requires s != []
    ensures r == ScanTurn(s)
  {
    var found := FindLineEnd(s);
    if found.None? {
      return Answer(NeedMore);
    }
    var line := found.value;
    var sized := ReadSize(s[..line.len]);
    if sized.None? {
      return Answer(Malformed);
    }
    var size, rest := sized.value, s[line.next..];
    if size == 0 {
      return Answer(Complete(0));
    }
    if |rest| < size + 2 {
      return Answer(NeedMore);
    }
    if rest[size] == CR && rest[size + 1] == LF {
      return Chunk(line.next, size, line.next + (size + 2));
    } else if rest[size] == LF {
      return Chunk(line.next, size, line.next + (size + 1));
    }
    return Answer(NeedMore);
  }

  lemma AfterAgain(a: nat, b: nat, scan: Scan)
    ensures After(a, After(b, scan)) == After(a + b, scan)
  {
  }

  method ChunkedComplete(s: seq<Byte>) returns (r: Scan)
    ensures r == ScanChunks(s)
  {
    var src, bodyLen := s, 0;
    while src != []
      invariant ScanChunks(s) == After(bodyLen, ScanChunks(src))
      decreases |src|
    {
      var turn := ScanChunk(src);
      match turn
      case Answer(scan) =>
        return if scan.Complete? then Complete(bodyLen + scan.bodyLen) else scan;
      case Chunk(_, size, next) =>
        AfterAgain(bodyLen, size, ScanChunks(src[next..]));
        src, bodyLen := src[next..], bodyLen + size;
    }
    return NeedMore;
  }

  // The header loop: the body, and what the lines say of it.
  method ScanBlock(s: seq<Byte>) returns (block: Option<(seq<Byte>, Framing)>)
    ensures block == Headers(s, NOTHING_SAID, ScanLine)
  {
    var p, fr := s, NOTHING_SAID;
    while p != []
      invariant Headers(p, fr, ScanLine) == Headers(s, NOTHING_SAID, ScanLine)
      decreases |p|
    {
      var found := FindLineEnd(p);
      if found.None? {
        return None;
      }
      var line := found.value;
      if line.len == 0 {
        return Some((p[line.next..], fr));
      }
      fr := ScanHeaderValue(p[..line.len], fr);
      p := p[line.next..];
    }
    return Some((p, fr));
  }

  // corRestClientResponseComplete
  method ResponseComplete(buf: seq<Byte>) returns (r: int)
    ensures r == Check(buf)
  {
    var found := FindLineEnd(buf);
    if found.None? {
      return 1;
    }
    var block := ScanBlock(buf[found.value.next..]);
    if block.None? {
      return 1;
    }
    var (body, fr) := block.value;
    r := BodyComplete(buf[..|buf| - |body|], buf, body, fr);
  }

  // The end of corRestClientResponseComplete; head: what is in front of the body.
  method BodyComplete(head: seq<Byte>, buf: seq<Byte>, body: seq<Byte>, fr: Framing) returns (r: int)
    requires |head| <= |buf| && head == buf[..|head|]
    ensures r == CheckBody(ScanCode(buf, |head|), body, fr)
  {
    if fr.chunked {
      var scan := ChunkedComplete(body);
      return match scan case Complete(_) => 0 case NeedMore => 1 case Malformed => -1;
    } else if fr.contentLength >= 0 {
      return if |body| >= fr.contentLength then 0 else 1;
    }
    var statusP := Find(head, SP);
    if statusP < |head| {
      var code := if |buf| - (statusP + 1) >= 3 then Code(buf[statusP + 1..]) else 0;
      if Bodiless(code) {
        return 0;
      }
    }
    return if !fr.keepAlive then 1 else 0;
  }
}
