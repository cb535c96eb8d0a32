// The cor:// frame: a 16-byte header and one encoded tree (corRestCor.c:8-14).
// This module is the reference: what a byte stream means, frame by frame.
module CorFrame {
  import opened Base

  const FRAME_HEADER_LEN := 16
  const FRAME_MAX := 64 * 1024 * 1024
  const FRAME_HELLO: Byte := 1
  const FRAME_HELLO_ACK: Byte := 2
  const FRAME_REQUEST: Byte := 3
  const FRAME_RESPONSE: Byte := 4
  const MAGIC: seq<Byte> := [0xC0, 79, 82, 1]

  // ---------------------------------------------------------------------------
  // Little-endian words

  function LittleEndian(w: nat, n: nat): (s: seq<Byte>)
    ensures |s| == n
  {
    if n == 0 then [] else [w % 256] + LittleEndian(w / 256, n - 1)
  }

  function Value(s: seq<Byte>): (w: nat)
    ensures w < Pow256(|s|)
  {
    if s == [] then 0 else s[0] as int + 256 * Value(s[1..])
  }

  ghost function Pow256(n: nat): nat {
    if n == 0 then 1 else 256 * Pow256(n - 1)
  }

  lemma WordBound()
    ensures Pow256(4) == 0x1_0000_0000
  {
    assert Pow256(2) == 0x1_0000;
  }

  lemma {:induction false} ValueOfLittleEndian(w: nat, n: nat)
    requires w < Pow256(n)
    ensures Value(LittleEndian(w, n)) == w
  {
    if n > 0 {
      ValueOfLittleEndian(w / 256, n - 1);
      assert LittleEndian(w, n)[1..] == LittleEndian(w / 256, n - 1);
    }
  }

  function PutWord(w: Word): (s: seq<Byte>)
    ensures |s| == 4
  {
    LittleEndian(w, 4)
  }

  function GetWord(s: seq<Byte>): Word
    requires |s| == 4
  {
    WordBound();
    Value(s)
  }

  lemma WordRoundTrip(w: Word)
    ensures GetWord(PutWord(w)) == w
  {
    WordBound();
    ValueOfLittleEndian(w, 4);
  }

  // ---------------------------------------------------------------------------
  // Frames and their bytes

  datatype Frame = Frame(kind: Byte, correlation: Word, body: seq<Byte>)

  // The queue's length is an int, so a body always fits the header's 32 bits.
  predicate Encodable(f: Frame) { |f.body| < 0x8000_0000 }

  // What a receiver takes: larger frames are refused.
  predicate Acceptable(f: Frame) { |f.body| <= FRAME_MAX }

  function Header(f: Frame): (h: seq<Byte>)
    requires Encodable(f)
    ensures |h| == FRAME_HEADER_LEN
  {
    MAGIC + [f.kind, 0, 0, 0] + PutWord(f.correlation) + PutWord(|f.body|)
  }

  function FrameBytes(f: Frame): seq<Byte>
    requires Encodable(f)
  {
    Header(f) + f.body
  }

  // A word, byte by byte, the lowest first.
  lemma WordBytes(w: Word)
    ensures PutWord(w) == [w % 256, w / 256 % 256, w / 65536 % 256, w / 16777216 % 256]
  {
    assert w / 256 / 256 == w / 65536 && w / 65536 / 256 == w / 16777216;
    assert LittleEndian(w / 65536, 2) == [w / 65536 % 256] + LittleEndian(w / 65536 / 256, 1);
    assert LittleEndian(w / 16777216, 1) == [w / 16777216 % 256];
    assert LittleEndian(w / 256, 3) == [w / 256 % 256] + LittleEndian(w / 256 / 256, 2);
  }

  function FromBytes(a: int, b: int, c: int, d: int): int {
    a + 256 * b + 65536 * c + 16777216 * d
  }

  lemma WordValue(s: seq<Byte>)
    requires |s| == 4
    ensures GetWord(s) == FromBytes(s[0], s[1], s[2], s[3])
  {
    assert Value(s[3..]) == s[3] by { assert s[3..][1..] == []; }
    assert s[2..][1..] == s[3..] && s[1..][1..] == s[2..];
    assert Value(s[2..]) == s[2] as int + 256 * Value(s[3..]);
    assert Value(s[1..]) == s[1] as int + 256 * Value(s[2..]);
  }

  // A frame, byte by byte: 0xC0 "OR" 1, the kind, three zeros, the correlation, the length of
  // the body, and the body.
  lemma FrameLayout(f: Frame)
    requires Encodable(f)
    ensures var b, c, n := FrameBytes(f), f.correlation, |f.body|;
            && |b| == 16 + n && b[..4] == [0xC0] + Ascii("OR") + [1]
            && b[4..8] == [f.kind, 0, 0, 0]
            && b[8..12] == [c % 256, c / 256 % 256, c / 65536 % 256, c / 16777216 % 256]
            && b[12..16] == [n % 256, n / 256 % 256, n / 65536 % 256, n / 16777216 % 256]
            && b[16..] == f.body
  {
    hide PutWord;
    var b, c, n := FrameBytes(f), f.correlation, |f.body|;
    WordBytes(c);
    WordBytes(n);
    assert Ascii("OR") == [79, 82];
    assert b[8..12] == PutWord(c) && b[12..16] == PutWord(n);
  }

  function Wire(fs: seq<Frame>): seq<Byte>
    requires forall f <- fs :: Encodable(f)
  {
    if fs == [] then [] else FrameBytes(fs[0]) + Wire(fs[1..])
  }

  lemma {:induction false} WireAppend(fs: seq<Frame>, gs: seq<Frame>)
    requires forall f <- fs + gs :: Encodable(f)
    ensures forall f <- fs :: Encodable(f)
    ensures forall f <- gs :: Encodable(f)
    ensures Wire(fs + gs) == Wire(fs) + Wire(gs)
  {
    assert forall f <- fs :: f in fs + gs;
    assert forall f <- gs :: f in fs + gs;
    if fs == [] {
      assert fs + gs == gs;
    } else {
      assert (fs + gs)[1..] == fs[1..] + gs;
      WireAppend(fs[1..], gs);
    }
  }

  lemma WireSnoc(fs: seq<Frame>, f: Frame)
    requires forall g <- fs :: Encodable(g)
    requires Encodable(f)
    ensures Wire(fs + [f]) == Wire(fs) + FrameBytes(f)
  {
    WireAppend(fs, [f]);
    assert [f][1..] == [];
    assert Wire([f][1..]) == [];
  }

  // ---------------------------------------------------------------------------
  // Reading a stream: the header's meaning, and the cut into frames

  predicate GoodHeader(h: seq<Byte>)
    requires |h| == FRAME_HEADER_LEN
  {
    h[..4] == MAGIC && GetWord(h[12..16]) <= FRAME_MAX
  }

  function BodyLen(h: seq<Byte>): Word
    requires |h| == FRAME_HEADER_LEN
  {
    GetWord(h[12..16])
  }

  // s starts with one whole acceptable frame.
  predicate StartsWhole(s: seq<Byte>) {
    |s| >= FRAME_HEADER_LEN && GoodHeader(s[..16]) && |s| >= 16 + BodyLen(s[..16])
  }

  // s is exactly one whole acceptable frame.
  predicate IsWhole(s: seq<Byte>) {
    |s| >= FRAME_HEADER_LEN && GoodHeader(s[..16]) && |s| == 16 + BodyLen(s[..16])
  }

  function FrameOf(s: seq<Byte>): Frame
    requires IsWhole(s)
  {
    Frame(s[4], GetWord(s[8..12]), s[16..])
  }

  // What is a whole frame, and which, byte by byte.
  lemma WholeMeans(s: seq<Byte>)
    ensures IsWhole(s) <==>
              && |s| >= 16 && s[..4] == [0xC0] + Ascii("OR") + [1]
              && var n := FromBytes(s[12], s[13], s[14], s[15]); n <= 64 * 1024 * 1024 && |s| == 16 + n
    ensures IsWhole(s) ==>
              var f := FrameOf(s);
              f.kind == s[4] && f.correlation == FromBytes(s[8], s[9], s[10], s[11]) && f.body == s[16..]
  {
    hide GetWord;
    assert Ascii("OR") == [79, 82];
    if |s| >= 16 {
      WordValue(s[8..12]);
      WordValue(s[12..16]);
      assert s[..16][12..16] == s[12..16] && s[..16][..4] == s[..4];
    }
  }

  // Can no further byte make a frame of what s starts with?
  predicate Spoiled(s: seq<Byte>) {
    |s| >= FRAME_HEADER_LEN && !GoodHeader(s[..16])
  }

  // The frames of a stream, as a function of its bytes alone.
  function Cut(s: seq<Byte>): seq<Frame>
    decreases |s|
  {
    if StartsWhole(s) then
      var n := 16 + BodyLen(s[..16]);
      assert s[..n][..16] == s[..16];
      [FrameOf(s[..n])] + Cut(s[n..])
    else []
  }

  // ---------------------------------------------------------------------------
  // Properties

  lemma HeaderMeaning(f: Frame)
    requires Encodable(f)
    ensures BodyLen(Header(f)) == |f.body|
    ensures GoodHeader(Header(f)) <==> Acceptable(f)
    ensures Header(f)[4] == f.kind
    ensures GetWord(Header(f)[8..12]) == f.correlation
  {
    var h := Header(f);
    WordRoundTrip(f.correlation);
    WordRoundTrip(|f.body|);
    assert h[..4] == MAGIC;
    assert h[8..12] == PutWord(f.correlation);
    assert h[12..16] == PutWord(|f.body|);
  }

  // One frame's bytes, read back.
  lemma FrameRoundTrip(f: Frame)
    requires Encodable(f) && Acceptable(f)
    ensures IsWhole(FrameBytes(f)) && FrameOf(FrameBytes(f)) == f
  {
    HeaderMeaning(f);
    var s := FrameBytes(f);
    assert s[..16] == Header(f);
    assert s[8..12] == Header(f)[8..12];
    assert s[16..] == f.body;
  }

  // Cutting a stream that starts with a whole frame.
  lemma CutWhole(raw: seq<Byte>, rest: seq<Byte>)
    requires IsWhole(raw)
    ensures Cut(raw + rest) == [FrameOf(raw)] + Cut(rest)
  {
    var s := raw + rest;
    assert s[..16] == raw[..16];
    assert s[..|raw|] == raw;
    assert s[|raw|..] == rest;
  }

  lemma CutFrame(f: Frame, rest: seq<Byte>)
    requires Encodable(f) && Acceptable(f)
    ensures Cut(FrameBytes(f) + rest) == [f] + Cut(rest)
  {
    FrameRoundTrip(f);
    CutWhole(FrameBytes(f), rest);
  }

  lemma WireFirst(fs: seq<Frame>, rest: seq<Byte>)
    requires fs != [] && forall f <- fs :: Encodable(f)
    ensures Wire(fs) + rest == FrameBytes(fs[0]) + (Wire(fs[1..]) + rest)
  {
  }

  // The stream of acceptable frames is cut back into exactly those frames, and
  // the bytes after them are cut on their own.
  lemma {:induction false} CutWire(fs: seq<Frame>, rest: seq<Byte>)
    requires forall f <- fs :: Encodable(f) && Acceptable(f)
    ensures Cut(Wire(fs) + rest) == fs + Cut(rest)
  {
    if fs == [] {
      assert Wire(fs) + rest == rest;
    } else {
      WireFirst(fs, rest);
      CutFrame(fs[0], Wire(fs[1..]) + rest);
      CutWire(fs[1..], rest);
      HeadAndTail(fs, Cut(rest));
    }
  }

  // A stream is cut back into the frames written exactly when none is too large.
  lemma {:induction false} CutWireExactly(fs: seq<Frame>)
    requires forall f <- fs :: Encodable(f)
    ensures Cut(Wire(fs)) == fs <==> forall f <- fs :: Acceptable(f)
  {
    if forall f <- fs :: Acceptable(f) {
      CutWire(fs, []);
      assert Wire(fs) + [] == Wire(fs);
      assert Cut([]) == [];
    } else {
      CutStopsAtLarge(fs);
    }
  }

  lemma {:induction false} CutStopsAtLarge(fs: seq<Frame>)
    requires forall f <- fs :: Encodable(f)
    requires exists f <- fs :: !Acceptable(f)
    ensures |Cut(Wire(fs))| < |fs|
  {
    var s := Wire(fs);
    HeaderMeaning(fs[0]);
    assert s[..16] == Header(fs[0]);
    if Acceptable(fs[0]) {
      FrameRoundTrip(fs[0]);
      CutWhole(FrameBytes(fs[0]), Wire(fs[1..]));
      assert exists f <- fs[1..] :: !Acceptable(f) by {
        var f :| f in fs && !Acceptable(f);
        assert f in fs[1..];
      }
      CutStopsAtLarge(fs[1..]);
    }
  }

  // What is cut of a stream of frames is the first of them, at most up to one too large.
  lemma {:induction false} CutWireIsPrefix(fs: seq<Frame>)
    requires forall f <- fs :: Encodable(f)
    ensures Cut(Wire(fs)) <= fs
  {
    if fs != [] {
      HeaderMeaning(fs[0]);
      assert Wire(fs)[..16] == Header(fs[0]);
      if Acceptable(fs[0]) {
        CutFrame(fs[0], Wire(fs[1..]));
        CutWireIsPrefix(fs[1..]);
      }
    }
  }

  // A prefix of a stream gives a prefix of its frames: nothing a later byte
  // brings changes a frame already cut.
  lemma {:induction false} CutPrefix(s: seq<Byte>, more: seq<Byte>)
    ensures Cut(s) <= Cut(s + more)
    decreases |s|
  {
    if StartsWhole(s) {
      var n := 16 + BodyLen(s[..16]);
      var raw := s[..n];
      assert raw[..16] == s[..16];
      assert s == raw + s[n..];
      CutWhole(raw, s[n..]);
      assert s + more == raw + (s[n..] + more);
      CutWhole(raw, s[n..] + more);
      CutPrefix(s[n..], more);
    }
  }
}
