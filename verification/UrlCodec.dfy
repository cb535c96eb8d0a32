// Percent-coding of a query value, its decoding in place, and the query string split in
// place into names and values: section 2.1 of RFC 3986, as corRestUrlValueEncode.c:47-150
// and corRestInit.c:236-314 do it.
module UrlCodec {
  import opened Base
  import opened CStrings

  const PERCENT: Byte := 37
  const AMP: Byte := 38
  const EQ: Byte := 61
  const PLUS: Byte := 43
  const SPACE: Byte := 32

  // ---------------------------------------------------------------------------
  // Encoding

  predicate MustEncode(c: Byte) {
    c <= 0x20 || c >= 0x7f || c == PERCENT || c == AMP || c == 35 || c == PLUS || c == 63
  }

  function Escape(c: Byte): seq<Byte> {
    if MustEncode(c) then [PERCENT, HexDigit(c / 16, true), HexDigit(c % 16, true)] else [c]
  }

  function Encode(s: seq<Byte>): seq<Byte> {
    if s == [] then [] else Escape(s[0]) + Encode(s[1..])
  }

  // The escape at the front of s, if there is one.
  predicate Escaped(s: seq<Byte>) {
    |s| >= 3 && s[0] == PERCENT && IsHex(s[1]) && IsHex(s[2])
  }

  function Unescape(s: seq<Byte>): Byte
    requires Escaped(s)
  {
    HexVal(s[1]) * 16 + HexVal(s[2])
  }

  function Decode(s: seq<Byte>): (r: seq<Byte>)
    ensures |r| <= |s|
    decreases |s|
  {
    if s == [] then []
    else if Escaped(s) then [Unescape(s)] + Decode(s[3..])
    else [s[0]] + Decode(s[1..])
  }

  lemma EscapeDecodes(c: Byte, rest: seq<Byte>)
    ensures Decode(Escape(c) + rest) == [c] + Decode(rest)
  {
    var s := Escape(c) + rest;
    if MustEncode(c) {
      assert c == (c / 16) * 16 + c % 16;
      assert Escaped(s) && s[3..] == rest;
    } else {
      assert s[0] == c && s[1..] == rest;
    }
  }

  // Decoding undoes encoding, whatever the bytes.
  lemma {:induction false} DecodeUndoesEncode(s: seq<Byte>)
    ensures Decode(Encode(s)) == s
  {
    if s != [] {
      EscapeDecodes(s[0], Encode(s[1..]));
      DecodeUndoesEncode(s[1..]);
    }
  }

  // What goes into a query as it is: what can be seen, but for what splits or ends a query
  // and what an escape, or a space, is written with.
  predicate Plain(c: Byte) {
    0x21 <= c <= 0x7e && c !in Ascii("%&#+?")
  }

  // An encoded value is all plain, but for the percent signs of its escapes: nothing in it
  // splits a query, ends a string, or becomes a space. A '=' stays as it is.
  lemma {:induction false} EncodedIsPlain(s: seq<Byte>)
    ensures forall c <- Encode(s) :: Plain(c) || c == PERCENT
    ensures NUL !in Encode(s) && AMP !in Encode(s) && PLUS !in Encode(s)
    ensures EQ in Encode(s) <==> EQ in s
  {
    hide Plain, HexDigit;
    if s != [] {
      EncodedIsPlain(s[1..]);
      EscapeIsPlain(s[0]);
      var e := Escape(s[0]);
      assert EQ in s <==> s[0] == EQ || EQ in s[1..];
      assert EQ in Encode(s) <==> EQ in e || EQ in Encode(s[1..]);
    }
  }

  lemma EscapeIsPlain(c: Byte)
    ensures forall x <- Escape(c) :: Plain(x) || x == PERCENT
    ensures NUL !in Escape(c) && AMP !in Escape(c) && PLUS !in Escape(c) && (EQ in Escape(c) <==> c == EQ)
  {
    Reserved();
  }

  lemma Reserved()
    ensures Ascii("%&#+?") == [37, 38, 35, 43, 63]
  {
  }

  // Plain bytes stay as they are; any other is a percent sign and its two hex digits, as
  // capitals.
  lemma EscapeMeans(c: Byte)
    ensures Plain(c) ==> Escape(c) == [c]
    ensures !Plain(c) ==>
              && Escape(c) == [37] + [HexDigit(c / 16, true), HexDigit(c % 16, true)]
              && forall d: nat :: 10 <= d < 16 ==> 65 <= HexDigit(d, true) <= 70
  {
    Reserved();
  }

  // An escape is read whatever the case of its digits; a percent sign that starts none stays.
  lemma EscapesAreRead(hi: nat, lo: nat, capitalHi: bool, capitalLo: bool, rest: seq<Byte>)
    requires hi < 16 && lo < 16
    ensures Decode([37, HexDigit(hi, capitalHi), HexDigit(lo, capitalLo)] + rest) == [hi * 16 + lo] + Decode(rest)
  {
    var s := [37, HexDigit(hi, capitalHi), HexDigit(lo, capitalLo)] + rest;
    HexReadsDigits(s[1]);
    HexReadsDigits(s[2]);
    assert s[3..] == rest;
  }

  lemma LonePercentStays(rest: seq<Byte>)
    requires |rest| < 2 || !(exists hi: nat, capital :: hi < 16 && rest[0] == HexDigit(hi, capital))
      || !(exists lo: nat, capital :: lo < 16 && rest[1] == HexDigit(lo, capital))
    ensures Decode([37] + rest) == [37] + Decode(rest)
  {
    hide HexDigit;
    var s := [37] + rest;
    if |rest| >= 2 {
      HexReadsDigits(rest[0]);
      HexReadsDigits(rest[1]);
    }
    assert s[1..] == rest && !Escaped(s);
  }

  lemma {:induction false} EncodeJoins(a: seq<Byte>, b: seq<Byte>)
    ensures Encode(a + b) == Encode(a) + Encode(b)
  {
    if a == [] {
      assert a + b == b;
    } else {
      assert (a + b)[1..] == a[1..] + b;
      EncodeJoins(a[1..], b);
    }
  }

  // The bytes an escape adds.
  function Extra(s: seq<Byte>): nat {
    if s == [] then 0 else (if MustEncode(s[0]) then 2 else 0) + Extra(s[1..])
  }

  lemma {:induction false} EncodedLength(s: seq<Byte>)
    ensures |Encode(s)| == |s| + Extra(s)
    ensures Extra(s) == 0 ==> Encode(s) == s
  {
    if s != [] {
      EncodedLength(s[1..]);
    }
  }

  lemma {:induction false} ExtraJoins(a: seq<Byte>, b: seq<Byte>)
    ensures Extra(a + b) == Extra(a) + Extra(b)
  {
    if a == [] {
      assert a + b == b;
    } else {
      assert (a + b)[1..] == a[1..] + b;
      ExtraJoins(a[1..], b);
    }
  }

  lemma OneMore(s: seq<Byte>, i: nat)
    requires i < |s|
    ensures Encode(s[..i + 1]) == Encode(s[..i]) + Escape(s[i])
    ensures Extra(s[..i + 1]) == Extra(s[..i]) + if MustEncode(s[i]) then 2 else 0
    ensures |Encode(s[..i + 1])| <= |Encode(s)|
  {
    assert s[..i + 1] == s[..i] + [s[i]];
    assert [s[i]][1..] == [];
    EncodeJoins(s[..i], [s[i]]);
    ExtraJoins(s[..i], [s[i]]);
    assert s == s[..i + 1] + s[i + 1..];
    EncodeJoins(s[..i + 1], s[i + 1..]);
  }

  // corRestUrlValueEncode: the value itself when nothing in it needs an escape, else a
  // string of its own, exactly as long as it must be.
  method EncodeValue(value: seq<Byte>) returns (text: seq<Byte>)
    requires NUL !in value
    ensures text == Encode(value)
  {
    hide Encode, Extra;
    var extra := 0;
    EmptyEncodes(value);
    for i := 0 to |value|
      invariant extra == Extra(value[..i])
    {
      OneMore(value, i);
      if MustEncode(value[i]) {
        extra := extra + 2;
      }
    }
    assert value[..|value|] == value;
    EncodedLength(value);
    if extra == 0 {
      return value;
    }
    var out := new Byte[|value| + extra + 1];
    var w := 0;
    for i := 0 to |value|
      invariant w == |Encode(value[..i])| <= |value| + extra && out[..w] == Encode(value[..i])
    {
      OneMore(value, i);
      var p := value[i];
      if MustEncode(p) {
        out[w], out[w + 1], out[w + 2] := PERCENT, HexDigit(p / 16, true), HexDigit(p % 16, true);
        w := w + 3;
      } else {
        out[w] := p;
        w := w + 1;
      }
    }
    out[w] := NUL;
    return out[..w];
  }

  lemma EmptyEncodes(value: seq<Byte>)
    ensures Encode(value[..0]) == [] && Extra(value[..0]) == 0
  {
  }

  // ---------------------------------------------------------------------------
  // Decoding, in place

  // What a decoded string is to C: an escaped NUL ends it.
  function Decoded(s: seq<Byte>): seq<Byte> {
    CString(Decode(s))
  }

  lemma DecodeHere(b: seq<Byte>, p: nat, end: nat)
    requires p < end <= |b|
    ensures var s := b[p..end];
            && (Escaped(s) ==> p + 3 <= end && Decode(s) == [Unescape(s)] + Decode(b[p + 3..end]))
            && (!Escaped(s) ==> Decode(s) == [b[p]] + Decode(b[p + 1..end]))
  {
    var s := b[p..end];
    if Escaped(s) {
      assert s[3..] == b[p + 3..end];
    } else {
      assert s[1..] == b[p + 1..end];
    }
  }

  // One byte decoded: written behind what is still to be read.
  lemma Written(b: seq<Byte>, now: seq<Byte>, at: nat, out: nat, p: nat, p': nat, x: Byte)
    requires at <= out <= p < p' <= |b| == |now| && now[..at] == b[..at] && now[p..] == b[p..]
    ensures var after := now[out := x];
            after[..at] == b[..at] && after[p'..] == b[p'..] && after[at..out + 1] == now[at..out] + [x]
  {
    assert forall k :: p <= k < |b| ==> now[k] == now[p..][k - p] == b[p..][k - p] == b[k];
  }

  lemma NotTheEnd(b: seq<Byte>, at: nat, p: nat, end: nat)
    requires at <= p <= end < |b| && b[end] == NUL && NUL !in b[at..end] && b[p] != NUL
    ensures p < end && (b[p + 1] != NUL ==> p + 2 <= end)
    ensures b[p + 1] != NUL && b[p + 2] != NUL <==> p + 3 <= end
  {
    assert forall k :: at <= k < end ==> b[k] == b[at..end][k - at];
  }

  // The byte the loop is at, decoded: its escape when there is one.
  method DecodeOne(buf: array<Byte>, p: nat, ghost at: nat, ghost end: nat) returns (x: Byte, p': nat)
    requires at <= p <= end < buf.Length && buf[end] == NUL && NUL !in buf[at..end] && buf[p] != NUL
    ensures p < p' <= end && Decode(buf[..][p..end]) == [x] + Decode(buf[..][p'..end])
  {
    hide Decode;
    NotTheEnd(buf[..], at, p, end);
    DecodeHere(buf[..], p, end);
    assert buf[..][at..end] == buf[at..end];
    if buf[p] == PERCENT && buf[p + 1] != NUL && buf[p + 2] != NUL && IsHex(buf[p + 1]) && IsHex(buf[p + 2]) {
      return HexVal(buf[p + 1]) * 16 + HexVal(buf[p + 2]), p + 3;
    }
    return buf[p], p + 1;
  }

  // The bytes still to be read, as they were.
  lemma StillThere(b: seq<Byte>, now: seq<Byte>, at: nat, p: nat, end: nat)
    requires at <= p <= end < |b| == |now| && now[p..] == b[p..] && b[end] == NUL && NUL !in b[at..end]
    ensures NUL !in now[p..end] && now[end] == NUL && now[p] == b[p]
    ensures forall k :: p <= k <= end ==> now[k..end] == b[k..end]
  {
    assert forall k :: p <= k < |b| ==> now[k] == now[p..][k - p] == b[p..][k - p] == b[k];
    assert forall k :: at <= k < end ==> b[k] == b[at..end][k - at];
  }

  // corRestUrlValueDecode, over the string at `at` that ends at `end`.
  method DecodeInPlace(buf: array<Byte>, at: nat, ghost end: nat)
    requires at <= end < buf.Length && buf[end] == NUL && NUL !in buf[at..end]
    modifies buf
    ensures Holds(buf[..], at, Decoded(old(buf[..])[at..end]), end + 1) && buf[end] == NUL
    ensures buf[..][..at] == old(buf[..])[..at] && buf[..][end + 1..] == old(buf[..])[end + 1..]
  {
    hide Decode, CString, Holds;
    ghost var b := buf[..];
    ghost var whole := Decode(b[at..end]);
    var out, p := at, at;
    assert b[at..at] + whole == whole && b[at..end] == buf[at..end];
    while buf[p] != NUL
      invariant at <= out <= p <= end
      invariant |buf[..]| == |b| && buf[..][..at] == b[..at] && buf[..][p..] == b[p..]
      invariant whole == buf[..][at..out] + Decode(b[p..end])
      decreases end - p
    {
      ghost var now := buf[..];
      StillThere(b, now, at, p, end);
      assert now[p..end] == buf[p..end];
      var x, p' := DecodeOne(buf, p, p, end);
      Written(b, now, at, out, p, p', x);
      assert now[at..out] + ([x] + Decode(b[p'..end])) == (now[at..out] + [x]) + Decode(b[p'..end]);
      buf[out] := x;
      assert buf[..] == now[out := x];
      out, p := out + 1, p';
    }
    ghost var now := buf[..];
    StillThere(b, now, at, p, end);
    AllDecoded(b, at, p, end);
    buf[out] := NUL;
    HoldsCString(buf[..], at, out - at, end + 1);
    assert buf[..][at..at + (out - at)] == now[at..out] == whole;
    assert buf[..][end + 1..] == now[p..][end + 1 - p..];
    assert b[end + 1..] == b[p..][end + 1 - p..];
  }

  lemma AllDecoded(b: seq<Byte>, at: nat, p: nat, end: nat)
    requires at <= p <= end < |b| && NUL !in b[at..end] && b[p] == NUL
    ensures p == end && Decode(b[p..end]) == []
  {
    assert forall k :: at <= k < end ==> b[k] == b[at..end][k - at];
  }
}
