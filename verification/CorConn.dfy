// A cor:// connection read and written in turns, on the heap: the client's, and the
// server's once it has a thread of its own (connRead, frameRecv, frameSend,
// dedicatedThread). And the two ends together: what one takes is what the other queued
// (corRestCor.c:163-360 and 1026-1088).
module CorConn {
  import opened Base
  import opened CorFrame
  import opened CorServerConn

  // Of these bytes, `got` are in their place, behind what was there, and the rest unread.
  ghost predicate HasRead(all: seq<Byte>, was: seq<Byte>, dst: seq<Byte>, at: nat, got: nat, unread: seq<Byte>) {
    at + got <= |dst| == |was| && dst[..at] == was[..at] && all == dst[at..at + got] + unread
  }

  lemma NoneRead(all: seq<Byte>, dst: seq<Byte>, at: nat)
    requires at <= |dst|
    ensures HasRead(all, dst, dst, at, 0, all)
  {
    assert dst[at..at] + all == all;
  }

  lemma MoreRead(all: seq<Byte>, was: seq<Byte>, before: seq<Byte>, dst: seq<Byte>, at: nat, got: nat, took: nat,
                 unread: seq<Byte>, unread': seq<Byte>)
    requires HasRead(all, was, before, at, got, unread) && at + got + took <= |dst| == |before|
    requires dst[..at + got] == before[..at + got] && unread == dst[at + got..at + got + took] + unread'
    ensures HasRead(all, was, dst, at, got + took, unread')
  {
    assert dst[at..at + got] == dst[..at + got][at..] == before[..at + got][at..] == before[at..at + got];
    assert dst[..at] == dst[..at + got][..at] == before[..at + got][..at] == before[..at];
    assert dst[at..at + got + took] == dst[at..at + got] + dst[at + got..at + got + took];
  }

  lemma ReadMeans(all: seq<Byte>, was: seq<Byte>, dst: seq<Byte>, at: nat, got: nat, unread: seq<Byte>)
    requires HasRead(all, was, dst, at, got, unread)
    ensures at + got <= |dst| == |was| && dst[..at] == was[..at] && all == dst[at..at + got] + unread
  {
  }

  class CorConn {
    const sock: Socket
    const rbuf: array<Byte>
    var rpos: nat
    var rlen: nat

    ghost var raws: seq<seq<Byte>>   // the frames taken, as the bytes they came as
    ghost var queued: seq<Frame>     // the frames written, the last perhaps in part
    ghost var halfRead: bool         // a read failed: what follows is not a frame's start
    ghost var halfWritten: bool

    constructor (sock: Socket)
      requires sock.arrived == sock.pending == sock.sent == []
      ensures Layout() && Accounted() && Written() && fresh(rbuf)
      ensures this.sock == sock && raws == [] && queued == [] && !halfRead && !halfWritten
    {
      this.sock, rbuf, rpos, rlen := sock, new Byte[RBUF_SIZE], 0, 0;
      raws, queued, halfRead, halfWritten := [], [], false, false;
    }

    // connDedicate: the connection goes on where the event loop left it.
    constructor Dedicated(server: ServerConn)
      requires server.Valid() && server.Accounted() && server.Flushed()
      requires !server.dead && server.dedicated && server.Moved()
      ensures Layout() && Accounted() && Written() && rbuf == server.rbuf
      ensures sock == server.sock && raws == server.raws && queued == server.queued && !halfRead && !halfWritten
    {
      sock, rbuf, rpos, rlen := server.sock, server.rbuf, server.rpos, server.rlen;
      raws, queued, halfRead, halfWritten := server.raws, server.queued, false, false;
      assert server.Unread() == server.rbuf[server.rpos..server.rlen] + server.sock.pending;
      assert server.sock.sent + server.outQ[server.outPos..] == server.sock.sent;
    }

    ghost predicate Layout()
      reads this`rpos, this`rlen
    {
      rbuf.Length == RBUF_SIZE && rpos <= rlen <= RBUF_SIZE
    }

    ghost function Unread(): seq<Byte>
      reads this`rpos, this`rlen, rbuf, sock`pending
      requires Layout()
    {
      rbuf[rpos..rlen] + sock.pending
    }

    // No byte lost, none invented, none out of order.
    ghost predicate Accounted()
      reads this`rpos, this`rlen, this`raws, this`halfRead, rbuf, sock`pending, sock`arrived
      requires Layout()
    {
      && AllWhole(raws)
      && if halfRead then Concat(raws) <= sock.arrived else sock.arrived == Concat(raws) + Unread()
    }

    ghost predicate Written()
      reads this`queued, this`halfWritten, sock`sent
    {
      && (forall f <- queued :: Encodable(f))
      && if halfWritten then sock.sent <= Wire(queued) else sock.sent == Wire(queued)
    }

    // The peer's bytes come in.
    method Arrive(bytes: seq<Byte>)
      requires Layout() && Accounted()
      modifies sock`arrived, sock`pending
      ensures Accounted() && sock.arrived == old(sock.arrived) + bytes && Unread() == old(Unread()) + bytes
    {
      hide Layout, AllWhole, Concat;
      ghost var unread := Unread();
      sock.Arrive(bytes);
      assert Unread() == unread + bytes;
      assert !halfRead ==> sock.arrived == Concat(raws) + Unread();
    }

    // As much as is buffered.
    method TakeBuffered(dst: array<Byte>, at: nat, n: nat) returns (took: nat)
      requires Layout() && at + n <= dst.Length && dst != rbuf && n > 0 && rpos < rlen
      modifies this`rpos, dst
      ensures Layout() && 0 < took <= n && dst[..][..at] == old(dst[..])[..at]
      ensures old(Unread()) == dst[..][at..at + took] + Unread()
    {
      took := if rlen - rpos < n then rlen - rpos else n;
      ghost var r, p := rbuf[rpos..rlen], sock.pending;
      var bytes := rbuf[rpos..rpos + took];
      assert bytes == r[..took];
      Blit(dst, at, bytes);
      rpos := rpos + took;
      assert rbuf[rpos..rlen] == r[took..] && dst[at..at + took] == dst[..at + took][at..];
      assert r + p == r[..took] + (r[took..] + p);
    }

    // One read(): a large remainder straight to its place, anything else into the buffer.
    method ReadMore(dst: array<Byte>, at: nat, n: nat) returns (r: ReadResult, took: nat)
      requires Layout() && at + n <= dst.Length && dst != rbuf && n > 0 && rpos == rlen
      modifies this`rpos, this`rlen, rbuf, dst, sock`pending, sock`signals, sock`gone, sock`expired
      ensures Layout() && took <= n && dst[..][..at] == old(dst[..])[..at]
      ensures old(Unread()) == dst[..][at..at + took] + Unread()
      ensures r.Data? ==> |sock.pending| < |old(sock.pending)|
      ensures !r.Data? ==> took == 0 && sock.pending == old(sock.pending)
      ensures (r.Eof? || r.ReadFailed? ==> sock.gone) && (r.ReadAgain? ==> !sock.blocking)
      ensures if r.ReadInterrupted? then sock.signals < old(sock.signals) else sock.signals == old(sock.signals)
    {
      assert rbuf[rpos..rlen] == [];
      took := 0;
      if n >= RBUF_SIZE {
        r := sock.Read(n);
        if r.Data? {
          Blit(dst, at, r.bytes);
          took := |r.bytes|;
          assert dst[at..at + took] == dst[..at + took][at..];
        }
      } else {
        r := sock.Read(RBUF_SIZE);
        if r.Data? {
          Blit(rbuf, 0, r.bytes);
          rpos, rlen := 0, |r.bytes|;
          assert rbuf[rpos..rlen] == r.bytes;
        }
      }
    }

    // Bytes from the buffer or, when it is empty, one read of the socket; timed: a wait in
    // front of it, and again when the socket has nothing after all.
    method ReadPart(dst: array<Byte>, at: nat, n: nat, timed: bool) returns (ok: bool, took: nat)
      requires Layout() && at + n <= dst.Length && dst != rbuf && n > 0
      modifies this`rpos, this`rlen, rbuf, dst, sock`pending, sock`signals, sock`gone, sock`expired
      ensures Layout() && took <= n && dst[..][..at] == old(dst[..])[..at]
      ensures old(Unread()) == dst[..][at..at + took] + Unread()
      ensures |sock.pending| <= |old(sock.pending)|
      ensures ok && took == 0 && |sock.pending| == |old(sock.pending)| ==> sock.signals < old(sock.signals)
      ensures !ok ==> sock.gone || if timed then sock.expired else !sock.blocking
    {
      if rpos < rlen {
        took := TakeBuffered(dst, at, n);
        return true, took;
      }
      if timed {
        var ready := sock.Wait();
        if !ready {
          assert dst[..][at..at] == [];
          return false, 0;
        }
      }
      var r;
      r, took := ReadMore(dst, at, n);
      ok := r.Data? || r.ReadInterrupted? || (r.ReadAgain? && timed);
    }

    // connRead: exactly n bytes of the stream, or not.
    method ConnRead(dst: array<Byte>, at: nat, n: nat, timed: bool) returns (ok: bool)
      requires Layout() && at + n <= dst.Length && dst != rbuf
      modifies this`rpos, this`rlen, rbuf, dst, sock`pending, sock`signals, sock`gone, sock`expired
      ensures Layout() && dst[..][..at] == old(dst[..])[..at]
      ensures ok ==> old(Unread()) == dst[..][at..at + n] + Unread()
      ensures !ok ==> sock.gone || if timed then sock.expired else !sock.blocking
    {
      hide Layout, HasRead;
      ghost var all, was := Unread(), dst[..];
      var got := 0;
      NoneRead(all, was, at);
      while got < n
        invariant got <= n && Layout() && HasRead(all, was, dst[..], at, got, Unread())
        decreases n - got, |sock.pending|, sock.signals
      {
        ghost var before, unread := dst[..], Unread();
        var took;
        ok, took := ReadPart(dst, at + got, n - got, timed);
        MoreRead(all, was, before, dst[..], at, got, took, unread, Unread());
        got := got + took;
        if !ok {
          ReadMeans(all, was, dst[..], at, got, Unread());
          return;
        }
      }
      ReadMeans(all, was, dst[..], at, got, Unread());
      return true;
    }

    // frameRecv: one whole frame - or none, and what follows is no frame's start any more;
    // memory: for its body.
    method FrameRecv(timed: bool, memory: bool) returns (ok: bool, kind: Byte, corr: Word, body: seq<Byte>)
      requires Layout() && Accounted() && !halfRead
      modifies this`rpos, this`rlen, this`raws, this`halfRead, rbuf, sock`pending, sock`signals, sock`gone, sock`expired
      ensures Layout() && Accounted() && halfRead == !ok
      ensures !ok ==> raws == old(raws)
      ensures ok ==> |raws| == |old(raws)| + 1 && raws[..|old(raws)|] == old(raws)
      ensures ok ==> FrameOf(raws[|raws| - 1]) == Frame(kind, corr, body)
      ensures ok ==> old(Unread()) == raws[|raws| - 1] + Unread()
      ensures !ok && memory && !Spoiled(old(Unread())) ==> sock.gone || if timed then sock.expired else !sock.blocking
    {
      hide Layout, GoodHeader, GetWord, BodyLen, IsWhole, AllWhole, Concat, FrameOf;
      ghost var all := Unread();
      ok, kind, corr, body := false, 0, 0, [];
      var header := new Byte[FRAME_HEADER_LEN];
      halfRead := true;
      ok := ConnRead(header, 0, FRAME_HEADER_LEN, timed);
      if !ok {
        return;
      }
      ghost var afterHeader := Unread();
      var h := header[..];
      assert h == header[..][0..FRAME_HEADER_LEN];
      ok := HeaderIsGood(h);
      if !ok {
        assert all[..16] == h;
        return;
      }
      var len: nat := BodyLen(h);
      if !memory {
        ok := false;
        return;
      }
      var buf := new Byte[len + 1];
      ok := ConnRead(buf, 0, len, timed);
      if !ok {
        return;
      }
      kind, corr, body := h[4], GetWord(h[8..12]), buf[..len];
      assert buf[..len] == buf[..][0..0 + len];
      Taken(h, body, all, afterHeader, Unread());
      ConcatTaken(raws, h + body, all);
      raws, halfRead := raws + [h + body], false;
    }

    method HeaderIsGood(h: seq<Byte>) returns (ok: bool)
      requires |h| == FRAME_HEADER_LEN
      ensures ok <==> GoodHeader(h)
    {
      return h[..4] == MAGIC && GetWord(h[12..16]) <= FRAME_MAX;
    }

    lemma Taken(h: seq<Byte>, body: seq<Byte>, all: seq<Byte>, afterHeader: seq<Byte>, unread: seq<Byte>)
      requires |h| == FRAME_HEADER_LEN && GoodHeader(h) && |body| == BodyLen(h)
      requires all == h + afterHeader && afterHeader == body + unread
      ensures IsWhole(h + body) && FrameOf(h + body) == Frame(h[4], GetWord(h[8..12]), body)
      ensures all == (h + body) + unread
    {
      RawIsWhole(h, body);
    }

    // frameSend; body: what the encoder made of the tree, None when it failed.
    method FrameSend(kind: Byte, corr: Word, body: Option<seq<Byte>>) returns (ok: bool)
      requires Written() && (halfWritten ==> sock.broken) && Fits(body)
      modifies this`queued, this`halfWritten, sock`sent, sock`signals, sock`broken, sock`full, sock`expired
      ensures Written() && (ok <==> body.Some? && !halfWritten) && (halfWritten ==> sock.broken || sock.expired)
      ensures sock.blocking && halfWritten ==> sock.broken
      ensures queued == old(queued) + if body.Some? then [Frame(kind, corr, body.value)] else []
      ensures old(sock.sent) <= sock.sent
    {
      hide FrameBytes, Wire;
      if body.None? {
        return false;
      }
      var f := Frame(kind, corr, body.value);
      WireSnoc(queued, f);
      HeaderFirst(f);
      ok := WriteAll(sock, FrameBytes(f));
      queued, halfWritten := queued + [f], !ok;
    }

    lemma HeaderFirst(f: Frame)
      requires Encodable(f)
      ensures FrameBytes(f) != []
    {
    }

    // dedicatedThread: the response to the request that moved the connection, `first`, and then a
    // request, and its response, and the next - of all the bytes that ever come, `more` among
    // them - until the peer is gone, or what it sends is no frame or too large, or not a request
    // that can be started.
    method Serve(first: Word, firstReply: Option<seq<Byte>>, more: seq<Byte>, starts: nat -> Start, memory: nat -> bool)
      requires Layout() && Accounted() && Written() && !halfRead && !halfWritten && sock.blocking
      requires Fits(firstReply) && AllFit(starts)
      modifies this, rbuf, sock
      ensures Layout() && Accounted() && Written() && old(raws) <= raws
      ensures sock.arrived == old(sock.arrived) + more && FramesOf(raws) <= Cut(sock.arrived)
      ensures AllWhole(raws[|old(raws)|..])
      ensures var frames := FramesOf(raws[|old(raws)|..]);
              && (forall f <- RequestsOf(frames) :: f.kind == FRAME_REQUEST)
              && queued == old(queued) + (if firstReply.Some? then [Frame(FRAME_RESPONSE, first, firstReply.value)]
                   else [])
                + Answers(RequestsOf(frames), Threaded(starts))
              && if halfRead then
                   sock.gone || !memory(|frames|) || Spoiled(sock.arrived[|Concat(raws)|..])
                 else
                   |frames| > 0 && (RequestsOf(frames) != frames || starts(|frames| - 1).Refused?)
    {
      hide Layout, Accounted, AllWhole, Concat, FramesOf, Cut, IsWhole, Wire, Answers, Spoiled, RequestsOf, Threaded;
      Arrive(more);
      var sent := FrameSend(FRAME_RESPONSE, first, firstReply);
      ServeOn(starts, memory);
    }

    // The rest of its life.
    method ServeOn(starts: nat -> Start, memory: nat -> bool)
      requires Layout() && Accounted() && Written() && !halfRead && (halfWritten ==> sock.broken) && sock.blocking
      requires AllFit(starts)
      modifies this, rbuf, sock`pending, sock`signals, sock`gone, sock`sent, sock`broken, sock`full, sock`expired
      ensures Layout() && Accounted() && Written() && old(raws) <= raws
      ensures FramesOf(raws) <= Cut(sock.arrived) && AllWhole(raws[|old(raws)|..])
      ensures var frames := FramesOf(raws[|old(raws)|..]);
              && (forall f <- RequestsOf(frames) :: f.kind == FRAME_REQUEST)
              && queued == old(queued) + Answers(RequestsOf(frames), Threaded(starts))
              && if halfRead then
                   sock.gone || !memory(|frames|) || Spoiled(sock.arrived[|Concat(raws)|..])
                 else
                   |frames| > 0 && (RequestsOf(frames) != frames || starts(|frames| - 1).Refused?)
    {
      hide Layout, AllWhole, Concat, FramesOf, Cut, IsWhole, Wire, FrameOf, Answers, Spoiled, IsServed, RequestsOf,
           Threaded,
           Accounted, Written, Unread;
      ghost var was, said := raws, queued;
      var k := 0;
      NoneServed(said, starts);
      assert raws[|was|..] == [];
      while true
        invariant Layout() && Accounted() && Written() && was <= raws && |raws| == |was| + k
        invariant !halfRead && sock.blocking && (halfWritten ==> sock.broken)
        invariant IsServed(raws[|was|..], said, queued, starts)
        decreases |Unread()|
      {
        ghost var took, before := raws[|was|..], queued;
        RestUnread();
        var ok, kind, corr, body := FrameRecv(false, memory(k));
        TakenArrived();
        if !ok {
          AllServed(took, said, queued, starts);
          return;
        }
        ghost var raw := raws[|raws| - 1];
        WholeIsSome(raws);
        assert raws[|was|..] == took + [raw];
        if kind != FRAME_REQUEST || starts(k).Refused? {
          LastRefused(took, raw, said, queued, starts);
          return;
        }
        var sent := FrameSend(FRAME_RESPONSE, corr, starts(k).reply);
        ServedOn(took, raw, said, before, queued, starts);
        k := k + 1;
      }
    }

    lemma TakenArrived()
      requires Layout() && Accounted()
      ensures AllWhole(raws) && FramesOf(raws) <= Cut(sock.arrived)
    {
      hide Concat, AllWhole, FramesOf, Cut;
      FramesOfArrived(raws, sock.arrived);
    }

    lemma RestUnread()
      requires Layout() && Accounted() && !halfRead
      ensures AllWhole(raws) && Concat(raws) <= sock.arrived && sock.arrived[|Concat(raws)|..] == Unread()
    {
      hide Concat, AllWhole;
    }
  }

  // ---------------------------------------------------------------------------
  // What a thread answers

  // On a thread of its own a request never yields.
  function Threaded(starts: nat -> Start): nat -> Start {
    (k: nat) => if starts(k).Run? then Run(AtOnce, starts(k).reply) else Refused
  }

  // The frames up to one that is no request.
  function RequestsOf(frames: seq<Frame>): seq<Frame> {
    if frames != [] && frames[|frames| - 1].kind != FRAME_REQUEST then frames[..|frames| - 1] else frames
  }

  ghost predicate IsServed(took: seq<seq<Byte>>, said: seq<Frame>, queued: seq<Frame>, starts: nat -> Start) {
    && AllWhole(took)
    && (forall f <- FramesOf(took) :: f.kind == FRAME_REQUEST)
    && queued == said + Answers(FramesOf(took), Threaded(starts))
  }

  lemma NoneServed(said: seq<Frame>, starts: nat -> Start)
    ensures IsServed([], said, said, starts)
  {
  }

  lemma ServedOn(took: seq<seq<Byte>>, raw: seq<Byte>, said: seq<Frame>, before: seq<Frame>, queued: seq<Frame>,
                 starts: nat -> Start)
    requires IsServed(took, said, before, starts)
    requires IsWhole(raw) && FrameOf(raw).kind == FRAME_REQUEST && starts(|took|).Run?
    requires var reply := starts(|took|).reply;
             queued == before
               + if reply.Some? then [Frame(FRAME_RESPONSE, FrameOf(raw).correlation, reply.value)] else []
    ensures IsServed(took + [raw], said, queued, starts)
  {
    hide IsWhole, FrameOf, FramesOf, Answers;
    FramesSnoc(took, raw);
    AnswersSnoc(FramesOf(took), FrameOf(raw), Threaded(starts));
  }

  lemma AllServed(took: seq<seq<Byte>>, said: seq<Frame>, queued: seq<Frame>, starts: nat -> Start)
    requires IsServed(took, said, queued, starts)
    ensures AllWhole(took)
    ensures (forall f <- RequestsOf(FramesOf(took)) :: f.kind == FRAME_REQUEST)
    ensures queued == said + Answers(RequestsOf(FramesOf(took)), Threaded(starts))
  {
    hide FramesOf, Answers;
    var frames := FramesOf(took);
    assert frames != [] ==> frames[|frames| - 1] in frames;
    assert RequestsOf(frames) == frames;
  }

  lemma LastRefused(took: seq<seq<Byte>>, raw: seq<Byte>, said: seq<Frame>, queued: seq<Frame>, starts: nat -> Start)
    requires IsServed(took, said, queued, starts) && IsWhole(raw)
    requires FrameOf(raw).kind != FRAME_REQUEST || starts(|took|).Refused?
    ensures AllWhole(took + [raw])
    ensures var frames := FramesOf(took + [raw]);
            && (forall f <- RequestsOf(frames) :: f.kind == FRAME_REQUEST)
            && queued == said + Answers(RequestsOf(frames), Threaded(starts))
            && |frames| == |took| + 1 && (RequestsOf(frames) != frames || starts(|frames| - 1).Refused?)
  {
    hide FramesOf, Answers, FrameOf, IsWhole;
    var frames := FramesOf(took + [raw]);
    FramesSnoc(took, raw);
    AnswersSnoc(FramesOf(took), FrameOf(raw), Threaded(starts));
    assert frames[..|frames| - 1] == FramesOf(took);
  }

  lemma WholeIsSome(raws: seq<seq<Byte>>)
    requires AllWhole(raws) && raws != []
    ensures |raws[|raws| - 1]| > 0 && IsWhole(raws[|raws| - 1])
  {
    assert IsWhole(raws[|raws| - 1]);
  }

  // The frames taken are the first frames of what has arrived.
  lemma FramesOfArrived(raws: seq<seq<Byte>>, arrived: seq<Byte>)
    requires AllWhole(raws) && Concat(raws) <= arrived
    ensures FramesOf(raws) <= Cut(arrived)
  {
    hide Concat, FramesOf, Cut;
    CutConcat(raws, arrived[|Concat(raws)|..]);
    assert arrived == Concat(raws) + arrived[|Concat(raws)|..];
  }

  // connDedicate: a connection from the event loop's session to the end of its thread. What
  // arrived before it moved is not lost, no frame is taken twice, and each request is answered
  // in its turn: those before the one it moved for on the loop, that one first on the thread,
  // and those behind it.
  method SessionAndThread(server: ServerConn, pieces: seq<seq<Byte>>, hello: Hello, ack: Option<seq<Byte>>,
                          starts: nat -> Start, firstReply: Option<seq<Byte>>, more: seq<Byte>, later: nat -> Start,
                          memory: nat -> bool)
    returns (ghost raws: seq<seq<Byte>>, ghost queued: seq<Frame>)
    requires server.Valid() && server.Accounted() && server.Flushed() && server.Greeted()
    requires !server.dead && !server.dedicated && !server.helloDone && server.sock.arrived == []
    requires Fits(ack) && Fits(firstReply) && AllFit(starts) && AllFit(later)
    modifies server, server.hdr, server.rbuf, server.body, server.sock
    ensures AllWhole(raws) && server.raws <= raws && FramesOf(raws) <= Cut(Concat(pieces) + more)
    ensures (forall f <- queued :: Encodable(f)) && server.sock.sent <= Wire(queued)
    ensures server.Told(ack, starts)
    ensures if !server.dead && server.dedicated then
              var at := |server.raws|;
              && at > 1 && AllWhole(raws[at..]) && IsWhole(raws[at - 1])
              && queued == server.queued
                + (if firstReply.Some? then [Frame(FRAME_RESPONSE, FrameOf(raws[at - 1]).correlation, firstReply.value)]
                   else [])
                + Answers(RequestsOf(FramesOf(raws[at..])), Threaded(later))
            else
              raws == server.raws && queued == server.queued
  {
    hide Concat, FramesOf, Cut, Wire, AllWhole, IsWhole, Answers, FrameOf, RequestsOf;
    server.Session(pieces, hello, ack, starts);
    raws, queued := server.raws, server.queued;
    CutPrefix(Concat(pieces), more);
    if !server.dead && server.dedicated {
      var conn := new CorConn.Dedicated(server);
      conn.Serve(server.firstReq, firstReply, more, later, memory);
      raws, queued := conn.raws, conn.queued;
    }
  }

  // ---------------------------------------------------------------------------
  // The two ends

  // What the client took is what the server queued, from its first frame on; everything,
  // once everything has arrived, if and only if no frame is too large for it.
  lemma ClientTakesWhatServerQueued(server: ServerConn, client: CorConn)
    requires server.Flushed() && client.Layout() && client.Accounted() && client.sock.arrived <= server.sock.sent
    ensures AllWhole(client.raws) && FramesOf(client.raws) <= server.queued
    ensures !client.halfRead && client.sock.arrived == Wire(server.queued) && Cut(client.Unread()) == [] ==>
              (FramesOf(client.raws) == server.queued <==> forall f <- server.queued :: Acceptable(f))
  {
    hide Concat, FramesOf, Cut, Wire, AllWhole;
    SentOfQueued(server);
    var arrived, raws := client.sock.arrived, client.raws;
    var unread := arrived[|Concat(raws)|..];
    assert arrived == Concat(raws) + unread;
    assert !client.halfRead ==> unread == client.Unread();
    TakenArePrefixOfQueued(server.queued, server.sock.sent, arrived, raws, unread);
  }

  lemma SentOfQueued(server: ServerConn)
    requires server.Flushed()
    ensures server.sock.sent <= Wire(server.queued)
  {
    hide Wire;
  }

  // And the other way.
  lemma ServerTakesWhatClientSent(client: CorConn, server: ServerConn)
    requires client.Written() && server.Layout() && server.Accounted() && server.sock.arrived <= client.sock.sent
    ensures AllWhole(server.raws) && FramesOf(server.raws) <= client.queued
    ensures !server.dead && server.sock.arrived == Wire(client.queued) && Cut(server.Unread()) == [] ==>
              (FramesOf(server.raws) == client.queued <==> forall f <- client.queued :: Acceptable(f))
  {
    hide Concat, FramesOf, Cut, Wire, AllWhole;
    var arrived, raws := server.sock.arrived, server.raws;
    var unread := arrived[|Concat(raws)|..];
    assert arrived == Concat(raws) + unread;
    assert !server.dead ==> unread == server.Unread();
    TakenArePrefixOfQueued(client.queued, client.sock.sent, arrived, raws, unread);
  }

  // What can happen between two ends, one byte stream long.
  datatype Act =
    | Queue(kind: Byte, correlation: Word, body: Option<seq<Byte>>)
    | Writable
    | Deliver(n: nat)
    | Receive(memory: bool)

  predicate CanQueue(acts: seq<Act>) {
    forall a <- acts :: a.Queue? && a.body.Some? ==> |a.body.value| < 0x8000_0000
  }

  // The frames these queue,
  function Queues(acts: seq<Act>): seq<Frame> {
    if acts == [] then []
    else
      var a := acts[|acts| - 1];
      Queues(acts[..|acts| - 1]) + if a.Queue? && a.body.Some? then [Frame(a.kind, a.correlation, a.body.value)] else []
  }

  // and how many they read.
  function Receives(acts: seq<Act>): nat {
    if acts == [] then 0
    else Receives(acts[..|acts| - 1]) + if acts[|acts| - 1].Receive? then 1 else 0
  }

  lemma OneAct(acts: seq<Act>, i: nat)
    requires i < |acts|
    ensures Queues(acts[..i + 1]) == Queues(acts[..i]) + if acts[i].Queue? && acts[i].body.Some?
              then [Frame(acts[i].kind, acts[i].correlation, acts[i].body.value)] else []
    ensures Receives(acts[..i + 1]) == Receives(acts[..i]) + if acts[i].Receive? then 1 else 0
  {
    assert acts[..i + 1][..i] == acts[..i];
  }

  // Responses queued, flushed as far as the socket takes them, delivered in any pieces and
  // read at any time: queued are all of them, in order, unless the connection dies; and every
  // read takes one, unless a read fails.
  method Responses(server: ServerConn, client: CorConn, acts: seq<Act>)
    requires server.Flushed() && client.Layout() && client.Accounted() && !client.halfRead && CanQueue(acts)
    requires server.sock != client.sock && client.sock.arrived == []
    modifies server`outQ, server`outPos, server`outWatch, server`dead, server`queued, server.sock
    modifies client, client.rbuf, client.sock
    ensures AllWhole(client.raws) && FramesOf(client.raws) <= server.queued
    ensures server.queued <= old(server.queued) + Queues(acts)
    ensures !server.dead ==> server.queued == old(server.queued) + Queues(acts)
    ensures !client.halfRead ==> |client.raws| == |old(client.raws)| + Receives(acts)
    ensures client.sock.arrived <= server.sock.sent
  {
    hide AllWhole, Concat, FramesOf, Wire, Cut, IsWhole, Queues, Receives;
    var at, alive := 0, true;
    NoActs(acts);
    for i := 0 to |acts|
      invariant server.Flushed() && client.Layout() && client.Accounted() && (alive <==> !client.halfRead)
      invariant at <= |server.sock.sent| && client.sock.arrived == server.sock.sent[..at]
      invariant server.queued <= old(server.queued) + Queues(acts[..i])
      invariant !server.dead ==> server.queued == old(server.queued) + Queues(acts[..i])
      invariant alive ==> |client.raws| == |old(client.raws)| + Receives(acts[..i])
    {
      OneAct(acts, i);
      match acts[i]
      case Queue(kind, corr, body) =>
        var _ := server.FrameQueue(kind, corr, body);
      case Writable =>
        if !server.dead {
          server.OutFlush();
        }
      case Deliver(n) =>
        var to := if n <= |server.sock.sent| - at then at + n else |server.sock.sent|;
        assert server.sock.sent[..at] + server.sock.sent[at..to] == server.sock.sent[..to];
        client.Arrive(server.sock.sent[at..to]);
        at := to;
      case Receive(memory) =>
        if alive {
          var kind, corr, body;
          alive, kind, corr, body := client.FrameRecv(true, memory);
        }
    }
    assert acts[..|acts|] == acts;
    ClientTakesWhatServerQueued(server, client);
  }

  lemma NoActs(acts: seq<Act>)
    ensures Queues(acts[..0]) == [] && Receives(acts[..0]) == 0
  {
  }

  // Requests written, delivered in any pieces, and taken by the event loop: written are all
  // of them, in order, up to the first that fails, and what is taken is answered.
  method Requests(client: CorConn, server: ServerConn, acts: seq<Act>, hello: Hello, ack: Option<seq<Byte>>,
                  starts: nat -> Start)
    requires client.Written() && !client.halfWritten && CanQueue(acts)
    requires server.Valid() && server.Accounted() && server.Flushed() && server.Greeted() && server.sock.arrived == []
    requires !server.dead && !server.dedicated && !server.helloDone && server.sock != client.sock
    requires Fits(ack) && AllFit(starts)
    modifies client`queued, client`halfWritten, client.sock
    modifies server, server.hdr, server.rbuf, server.body, server.sock
    ensures AllWhole(server.raws) && FramesOf(server.raws) <= client.queued
    ensures client.queued <= old(client.queued) + Queues(acts)
    ensures server.Told(ack, starts) && server.sock.arrived <= client.sock.sent
  {
    hide AllWhole, Concat, FramesOf, Wire, Cut, IsWhole, ServerConn.Layout, ServerConn.Assembling, ServerConn.Accounted,
         ServerConn.Flushed, ServerConn.Greeted, ServerConn.Told, ServerConn.Served, ServerConn.Cause, ServerConn.Moved,
             Queues,
         CorConn.Written, Encodable, FrameOf, ServerConn.Unread;
    server.NothingYet(hello, ack, starts);
    NoActs(acts);
    var at, alive := 0, true;
    for i := 0 to |acts|
      invariant client.Written() && (alive ==> !client.halfWritten)
      invariant client.queued <= old(client.queued) + Queues(acts[..i])
      invariant alive ==> client.queued == old(client.queued) + Queues(acts[..i])
      invariant server.Valid() && server.Accounted() && server.Flushed() && server.Greeted()
      invariant server.Told(ack, starts) && (!server.dead ==> server.Served(hello, ack, starts))
      invariant server.body == old(server.body) || server.body == null || fresh(server.body)
      invariant at <= |client.sock.sent| && server.sock.arrived == client.sock.sent[..at]
    {
      OneAct(acts, i);
      if acts[i].Queue? {
        if alive {
          alive := client.FrameSend(acts[i].kind, acts[i].correlation, acts[i].body);
        }
      } else if acts[i].Deliver? {
        var n := acts[i].n;
        var to := if n <= |client.sock.sent| - at then at + n else |client.sock.sent|;
        assert client.sock.sent[..at] + client.sock.sent[at..to] == client.sock.sent[..to];
        server.Arrive(client.sock.sent[at..to]);
        at := to;
      } else if acts[i].Receive? && !server.dead && !server.dedicated {
        server.ConnInput(hello, ack, starts);
      }
    }
    assert acts[..|acts|] == acts;
    ServerTakesWhatClientSent(client, server);
  }
}
