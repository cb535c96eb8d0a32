// The server's end of a cor:// connection, on the heap: frames assembled from a
// non-blocking socket (frameAssemble, frameTake), the HELLO answered and every request
// started (helloAnswer, connInput), and responses queued and flushed to it (frameQueue,
// outFlush), corRestCor.c:590-805 and 1227-1301.
module CorServerConn {
  import opened Base
  import opened CorFrame

  const RBUF_SIZE := 16 * 1024

  datatype ReadResult = Data(bytes: seq<Byte>) | Eof | ReadAgain | ReadInterrupted | ReadFailed
  datatype SendResult = Sent(count: nat) | SendAgain | SendInterrupted | SendFailed

  // The kernel's side. What read() and send() answer is not determined here: any
  // split of the arrived bytes, any partial send, EAGAIN - unless it is blocking, and from
  // read() only when nothing is there - and EINTR anywhere. Only finitely many signals
  // interrupt, and only finitely many waits end. A socket that failed to send sends nothing
  // more.
  class Socket {
    ghost var arrived: seq<Byte>  // everything the peer's bytes amount to so far
    var pending: seq<Byte>        // of them, not read yet
    var signals: nat              // interruptions, and ends of a wait, still to come
    var sent: seq<Byte>           // everything send() has taken
    var gone: bool                // read() has said end of file, or failed
    var broken: bool              // send() has failed
    var full: bool                // the last send() took nothing
    var expired: bool             // the last wait was for nothing
    var blocking: bool

    constructor (signals: nat)
      ensures arrived == pending == sent == [] && !gone && !broken && !blocking
    {
      arrived, pending, sent, gone, broken, blocking := [], [], [], false, false, false;
      full, expired := false, false;
      this.signals := signals;
    }

    // The peer's bytes come in.
    method Arrive(bytes: seq<Byte>)
      modifies this`arrived, this`pending
      ensures arrived == old(arrived) + bytes && pending == old(pending) + bytes
    {
      arrived, pending := arrived + bytes, pending + bytes;
    }

    method Read(max: nat) returns (r: ReadResult)
      requires max > 0
      modifies this`pending, this`signals, this`gone
      ensures r.Data? ==> 0 < |r.bytes| <= max && old(pending) == r.bytes + pending
      ensures !r.Data? ==> pending == old(pending)
      ensures r.ReadInterrupted? ==> signals < old(signals)
      ensures !r.ReadInterrupted? ==> signals == old(signals)
      ensures gone == (old(gone) || r.Eof? || r.ReadFailed?)
      ensures r.ReadAgain? ==> !blocking && pending == []
    {
      var ends: bool := *;
      if ends || (blocking && pending == []) {
        gone := true;
        if * { return Eof; } else { return ReadFailed; }
      }
      if * {
        if signals > 0 {
          signals := signals - 1;
          return ReadInterrupted;
        }
      }
      if pending == [] { return ReadAgain; }
      var n: nat :| 0 < n <= |pending| && n <= max;
      r := Data(pending[..n]);
      pending := pending[n..];
    }

    // ioWait: ready, or the time is up.
    method Wait() returns (ready: bool)
      modifies this`signals, this`expired
      ensures if ready then signals < old(signals) else signals == old(signals)
      ensures expired == !ready
    {
      expired := false;
      if * {
        if signals > 0 {
          signals := signals - 1;
          return true;
        }
      }
      expired := true;
      return false;
    }

    method Send(bytes: seq<Byte>) returns (r: SendResult)
      requires bytes != []
      modifies this`sent, this`signals, this`broken, this`full
      ensures full == r.SendAgain?
      ensures r.Sent? ==> !broken && 0 < r.count <= |bytes| && sent == old(sent) + bytes[..r.count]
      ensures (old(broken) ==> r.SendFailed?) && (blocking ==> !r.SendAgain?) && (broken <==> r.SendFailed?)
      ensures !r.Sent? ==> sent == old(sent)
      ensures r.SendInterrupted? ==> signals < old(signals)
      ensures !r.SendInterrupted? ==> signals == old(signals)
    {
      full := false;
      var fails: bool := *;
      if fails || broken {
        broken := true;
        return SendFailed;
      }
      if * {
        if !blocking {
          full := true;
          return SendAgain;
        }
      }
      if * {
        if signals > 0 {
          signals := signals - 1;
          return SendInterrupted;
        }
      }
      var n: nat :| 0 < n <= |bytes|;
      sent := sent + bytes[..n];
      r := Sent(n);
    }
  }

  // ---------------------------------------------------------------------------
  // Whole frames, as raw bytes

  ghost predicate AllWhole(raws: seq<seq<Byte>>) {
    forall raw <- raws :: IsWhole(raw)
  }

  ghost function Concat(raws: seq<seq<Byte>>): seq<Byte> {
    if raws == [] then [] else Concat(raws[..|raws| - 1]) + raws[|raws| - 1]
  }

  ghost function FramesOf(raws: seq<seq<Byte>>): (fs: seq<Frame>)
    requires AllWhole(raws)
    ensures |fs| == |raws|
  {
    if raws == [] then []
    else FramesOf(raws[..|raws| - 1]) + [FrameOf(raws[|raws| - 1])]
  }

  // Whatever was cut out one by one is what the reference cut gives.
  lemma {:induction false} CutConcat(raws: seq<seq<Byte>>, rest: seq<Byte>)
    requires AllWhole(raws)
    ensures Cut(Concat(raws) + rest) == FramesOf(raws) + Cut(rest)
  {
    if raws == [] {
      assert Concat(raws) + rest == rest;
      assert FramesOf(raws) + Cut(rest) == Cut(rest);
    } else {
      var front, last := raws[..|raws| - 1], raws[|raws| - 1];
      assert Concat(raws) + rest == Concat(front) + (last + rest);
      CutConcat(front, last + rest);
      CutWhole(last, rest);
      Regroup(FramesOf(front), FrameOf(last), Cut(rest));
    }
  }

  // A header and the body it announces are a whole frame.
  lemma RawIsWhole(h: seq<Byte>, b: seq<Byte>)
    requires |h| == FRAME_HEADER_LEN && GoodHeader(h) && |b| == BodyLen(h)
    ensures var raw := h + b;
            && IsWhole(raw) && raw[..16] == h
            && FrameOf(raw).correlation == GetWord(h[8..12]) && FrameOf(raw).body == b
  {
    var raw := h + b;
    assert raw[..16] == h && raw[8..12] == h[8..12] && raw[16..] == b;
  }

  lemma ConcatTaken(raws: seq<seq<Byte>>, raw: seq<Byte>, unread: seq<Byte>)
    requires AllWhole(raws) && IsWhole(raw)
    ensures AllWhole(raws + [raw]) && Concat(raws + [raw]) == Concat(raws) + raw
    ensures raw <= unread ==> Concat(raws) + unread == Concat(raws + [raw]) + unread[|raw|..]
  {
    assert (raws + [raw])[..|raws|] == raws;
  }

  lemma Regroup<T>(a: seq<T>, x: T, b: seq<T>)
    ensures a + ([x] + b) == (a + [x]) + b
  {
  }

  // memcpy into an array
  method Blit(dst: array<Byte>, at: nat, bytes: seq<Byte>)
    requires at + |bytes| <= dst.Length
    modifies dst
    ensures dst[..at + |bytes|] == old(dst[..at]) + bytes
  {
    forall k | 0 <= k < |bytes| {
      dst[at + k] := bytes[k];
    }
  }

  // writeAll: every byte, or those that went before the socket failed or stayed full.
  method WriteAll(sock: Socket, bytes: seq<Byte>) returns (ok: bool)
    modifies sock`sent, sock`signals, sock`broken, sock`full, sock`expired
    ensures old(sock.sent) <= sock.sent <= old(sock.sent) + bytes
    ensures ok <==> sock.sent == old(sock.sent) + bytes
    ensures !ok ==> sock.broken || (sock.expired && !sock.blocking)
    ensures old(sock.broken) && bytes != [] ==> !ok && sock.broken && sock.sent == old(sock.sent)
  {
    var pos := 0;
    while pos < |bytes|
      invariant 0 <= pos <= |bytes| && sock.sent == old(sock.sent) + bytes[..pos]
      invariant old(sock.broken) ==> pos == 0 && sock.broken
      decreases |bytes| - pos, sock.signals
    {
      var w := sock.Send(bytes[pos..]);
      match w
      case Sent(n) =>
        assert bytes[..pos] + bytes[pos..][..n] == bytes[..pos + n];
        pos := pos + n;
      case SendInterrupted =>
      case SendAgain =>
        var ready := sock.Wait();
        if !ready {
          return false;
        }
      case SendFailed =>
        return false;
    }
    assert bytes[..pos] == bytes;
    return true;
  }

  lemma MoveToHeader(h: seq<Byte>, r: seq<Byte>, p: seq<Byte>, take: nat)
    requires take <= |r|
    ensures h + [] + r + p == (h + r[..take]) + [] + r[take..] + p
  {
  }

  lemma MoveToBody(h: seq<Byte>, b: seq<Byte>, r: seq<Byte>, p: seq<Byte>, take: nat)
    requires take <= |r|
    ensures h + b + r + p == h + (b + r[..take]) + r[take..] + p
  {
  }

  // ---------------------------------------------------------------------------
  // What a connection is told of a frame it has taken

  // The peer's HELLO, which is not looked into here, and whether the tables open.
  datatype Hello = Hello(refused: bool, tables: bool)

  // A request, which is not looked into either: refused - not decoded, without verb or path,
  // no memory - or run, and answered with what its response encodes to.
  datatype Start = Refused | Run(how: How, reply: Option<seq<Byte>>)

  // On a loop: to its end at once; as a coroutine that waits, and answers later; or it may
  // block the loop, and no coroutine is to be had - then a thread is asked for.
  datatype How = AtOnce | Coroutine | Blocking(threadStarts: bool)

  predicate Fits(body: Option<seq<Byte>>) {
    body.Some? ==> |body.value| < 0x8000_0000
  }

  ghost predicate AllFit(starts: nat -> Start) {
    forall k :: starts(k).Run? ==> Fits(starts(k).reply)
  }

  // Whether a connection lives on; moved: to a thread, for this request.
  predicate StartsOk(start: Start, moved: bool) {
    start.Run? && (moved ==> start.how.Blocking? && start.how.threadStarts)
  }

  // What a connection dies of, its socket aside; taken: the frames taken, rest: the bytes behind
  // them. Bytes that are no frame, a first frame that is not a HELLO it accepts, a HELLO it
  // cannot answer, or a request it cannot start.
  ghost predicate Ends(hello: Hello, ack: Option<seq<Byte>>, expired: bool, starts: nat -> Start, taken: nat,
                       moved: bool, rest: seq<Byte>) {
    || Spoiled(rest)
    || (taken == 0 && Cut(rest) != [] && (Cut(rest)[0].kind != FRAME_HELLO || hello.refused))
    || (taken == 1 && (ack.None? || !hello.tables || expired))
    || (taken > 1 && !StartsOk(starts(taken - 2), moved))
  }

  lemma EndsStill(hello: Hello, ack: Option<seq<Byte>>, expired: bool, starts: nat -> Start, taken: nat, moved: bool,
                  rest: seq<Byte>, more: seq<Byte>)
    requires Ends(hello, ack, expired, starts, taken, moved, rest)
    ensures Ends(hello, ack, expired, starts, taken, moved, rest + more)
  {
    hide Cut, GoodHeader;
    if Spoiled(rest) {
      assert (rest + more)[..16] == rest[..16];
    }
    CutPrefix(rest, more);
  }

  function Acked(corr: Word, ack: Option<seq<Byte>>): seq<Frame> {
    if ack.Some? then [Frame(FRAME_HELLO_ACK, corr, ack.value)] else []
  }

  function Answer(corr: Word, start: Start): seq<Frame> {
    if start.Run? && !start.how.Coroutine? && start.reply.Some? then [Frame(FRAME_RESPONSE, corr, start.reply.value)]
    else []
  }

  function Answers(requests: seq<Frame>, starts: nat -> Start): seq<Frame> {
    if requests == [] then []
    else
      var n := |requests| - 1;
      Answers(requests[..n], starts) + Answer(requests[n].correlation, starts(n))
  }

  // Each answer is to a request of its own, in the requests' order, with its correlation; and
  // a request without one was refused, waits, or made no response.
  ghost predicate IsAnswers(requests: seq<Frame>, starts: nat -> Start, answers: seq<Frame>, to: seq<nat>) {
    && |to| == |answers|
    && (forall i, j :: 0 <= i < j < |to| ==> to[i] < to[j])
    && (forall i :: 0 <= i < |to| ==>
          && to[i] < |requests| && starts(to[i]).Run? && starts(to[i]).reply.Some?
          && answers[i] == Frame(FRAME_RESPONSE, requests[to[i]].correlation, starts(to[i]).reply.value))
    && (forall k :: 0 <= k < |requests| ==>
          k in to || starts(k).Refused? || starts(k).how.Coroutine? || starts(k).reply.None?)
  }

  lemma {:induction false} AnswersAre(requests: seq<Frame>, starts: nat -> Start) returns (to: seq<nat>)
    ensures IsAnswers(requests, starts, Answers(requests, starts), to)
  {
    to := [];
    if requests != [] {
      hide IsAnswers;
      var n := |requests| - 1;
      to := AnswersAre(requests[..n], starts);
      OneMore(requests, starts, Answers(requests[..n], starts), to);
      if starts(n).Run? && !starts(n).how.Coroutine? && starts(n).reply.Some? {
        to := to + [n];
      } else {
        assert Answers(requests, starts) == Answers(requests[..n], starts);
      }
    }
  }

  lemma OneMore(requests: seq<Frame>, starts: nat -> Start, answers: seq<Frame>, to: seq<nat>)
    requires requests != [] && IsAnswers(requests[..|requests| - 1], starts, answers, to)
    ensures var n := |requests| - 1;
            if starts(n).Run? && !starts(n).how.Coroutine? && starts(n).reply.Some? then
              IsAnswers(requests, starts,
                        answers + [Frame(FRAME_RESPONSE, requests[n].correlation, starts(n).reply.value)], to + [n])
            else IsAnswers(requests, starts, answers, to)
  {
    var n := |requests| - 1;
    var to' := to + [n];
    assert forall k :: 0 <= k < n && k in to ==> k in to';
    assert n in to';
  }

  lemma AnswersSnoc(requests: seq<Frame>, f: Frame, starts: nat -> Start)
    ensures Answers(requests + [f], starts) == Answers(requests, starts) + Answer(f.correlation, starts(|requests|))
  {
    assert (requests + [f])[..|requests|] == requests;
  }

  lemma WholeIsLong(raw: seq<Byte>)
    requires IsWhole(raw)
    ensures |raw| > 0
  {
  }

  lemma FramesSnoc(raws: seq<seq<Byte>>, raw: seq<Byte>)
    requires AllWhole(raws) && IsWhole(raw)
    ensures AllWhole(raws + [raw]) && FramesOf(raws + [raw]) == FramesOf(raws) + [FrameOf(raw)]
  {
    assert (raws + [raw])[..|raws|] == raws;
  }

  // ---------------------------------------------------------------------------
  // The connection

  class ServerConn {
    const sock: Socket
    const hdr: array<Byte>
    const rbuf: array<Byte>
    var hdrHave: nat
    var body: array?<Byte>
    var bodyLen: nat
    var bodyHave: nat
    var correlation: Word
    var rpos: nat
    var rlen: nat
    var dead: bool
    var helloDone: bool
    var started: nat                 // the requests taken so far
    var pending: nat                 // of them, with coroutines that have not answered yet
    var dedicated: bool
    var firstReq: Word               // of the request that moved the connection to its thread

    var outQ: seq<Byte>
    var outPos: nat
    var outWatch: bool

    ghost var raws: seq<seq<Byte>>   // the frames taken, as the bytes they came as
    ghost var queued: seq<Frame>     // the frames queued

    constructor (sock: Socket)
      requires sock.arrived == sock.pending == sock.sent == []
      ensures Valid() && Accounted() && Flushed() && Greeted() && !dead && !helloDone && !dedicated
      ensures this.sock == sock && raws == [] && queued == []
      ensures fresh(hdr) && fresh(rbuf) && body == null
    {
      this.sock := sock;
      hdr := new Byte[FRAME_HEADER_LEN];
      rbuf := new Byte[RBUF_SIZE];
      hdrHave, body, bodyLen, bodyHave, correlation := 0, null, 0, 0, 0;
      rpos, rlen, dead, helloDone, started, pending, dedicated, firstReq := 0, 0, false, false, 0, 0, false, 0;
      outQ, outPos, outWatch := [], 0, false;
      raws, queued := [], [];
    }

    // The buffers are where they should be and the counters inside them.
    ghost predicate Layout()
      reads this`hdrHave, this`rpos, this`rlen, this`body, this`bodyHave
    {
      && hdr.Length == FRAME_HEADER_LEN && rbuf.Length == RBUF_SIZE && hdr != rbuf
      && hdrHave <= FRAME_HEADER_LEN && rpos <= rlen <= RBUF_SIZE
      && (body != null ==> body != hdr && body != rbuf && bodyHave <= body.Length)
      && (body == null ==> bodyHave == 0)
    }

    // The frame being assembled: no body before its header is in, and then one of the header's size.
    ghost predicate Assembling()
      reads this`hdrHave, this`rpos, this`rlen, this`body, this`bodyLen, this`bodyHave, this`correlation, hdr
      requires Layout()
    {
      && (hdrHave < FRAME_HEADER_LEN ==> body == null && bodyLen == 0)
      && (hdrHave == FRAME_HEADER_LEN ==>
            && GoodHeader(hdr[..]) && bodyLen == BodyLen(hdr[..])
            && correlation == GetWord(hdr[..][8..12])
            && body != null && body.Length == bodyLen + 1 && bodyHave <= bodyLen)
    }

    ghost predicate Valid()
      reads this`hdrHave, this`rpos, this`rlen, this`body, this`bodyLen, this`bodyHave, this`correlation, this`dead, hdr
    {
      Layout() && (!dead ==> Assembling())
    }

    // Every byte received and not part of a frame taken, in order.
    ghost function Unread(): seq<Byte>
      reads this`hdrHave, this`rpos, this`rlen, this`body, this`bodyHave, hdr, rbuf, body, sock`pending
      requires Layout()
    {
      hdr[..hdrHave] + (if body == null then [] else body[..bodyHave]) + rbuf[rpos..rlen] + sock.pending
    }

    // No byte lost, none invented, none out of order.
    ghost predicate Accounted()
      reads this`hdrHave, this`rpos, this`rlen, this`body, this`bodyHave, this`dead, this`raws
      reads hdr, rbuf, body, sock`pending, sock`arrived
      requires Layout()
    {
      && AllWhole(raws)
      && (dead ==> Concat(raws) <= sock.arrived)
      && (!dead ==> sock.arrived == Concat(raws) + Unread())
    }

    // Sent plus still queued is what was queued, and what is still queued is watched for.
    ghost predicate Flushed()
      reads this`outQ, this`outPos, this`outWatch, this`dead, this`queued, sock`sent
    {
      && (forall f <- queued :: Encodable(f))
      && outPos <= |outQ|
      && (dead ==> sock.sent <= Wire(queued))
      && (!dead ==> sock.sent + outQ[outPos..] == Wire(queued) && (outPos < |outQ| ==> outWatch))
    }

    // What is sent of what was queued, when the rest will never be.
    ghost predicate Cutoff()
      reads this`outQ, this`outPos, this`queued, sock`sent
    {
      (forall f <- queued :: Encodable(f)) && outPos <= |outQ| && sock.sent <= Wire(queued)
    }

    // The first frame taken is the peer's HELLO, and nothing is sent before it.
    ghost predicate Greeted()
      reads this`helloDone, this`raws, this`queued, this`outQ, this`outPos, this`started
    {
      && (!helloDone ==> raws == [] && queued == [] && outQ == [] && outPos == 0 && started == 0)
      && (helloDone ==> |raws| == 1 + started && |raws[0]| > 4 && raws[0][4] == FRAME_HELLO)
    }

    // What is queued: the HELLO_ACK, and behind it what the requests taken so far were
    // answered at once - but for the one that a thread answers.
    ghost predicate Told(ack: Option<seq<Byte>>, starts: nat -> Start)
      reads this`helloDone, this`dedicated, this`raws, this`queued
    {
      helloDone ==>
        && AllWhole(raws) && raws != [] && (dedicated ==> |raws| > 1)
        && queued == Acked(FrameOf(raws[0]).correlation, ack)
          + Answers(FramesOf(if dedicated then raws[1..|raws| - 1] else raws[1..]), starts)
    }

    // Why it is dead.
    ghost predicate Cause(hello: Hello, ack: Option<seq<Byte>>, starts: nat -> Start)
      reads this`raws, this`dedicated, sock`arrived, sock`gone, sock`broken, sock`expired
    {
      && Concat(raws) <= sock.arrived
      && (|| sock.gone || sock.broken
          || Ends(hello, ack, sock.expired, starts, |raws|, dedicated, sock.arrived[|Concat(raws)|..]))
    }

    // While it lives, its HELLO was accepted and answered, and each request started.
    ghost predicate Served(hello: Hello, ack: Option<seq<Byte>>, starts: nat -> Start)
      reads this`helloDone, this`dedicated, this`started
    {
      helloDone ==>
        && !hello.refused && hello.tables && ack.Some?
        && forall k :: 0 <= k < started ==> StartsOk(starts(k), dedicated && k == started - 1)
    }

    // On its way to a thread of its own: between two frames, nothing to send, and the last
    // frame taken is the request that the thread answers first.
    ghost predicate Moved()
      reads this`hdrHave, this`body, this`outQ, this`pending, this`raws, this`firstReq, sock`blocking
    {
      && hdrHave == 0 && body == null && outQ == [] && pending == 0 && sock.blocking
      && raws != [] && IsWhole(raws[|raws| - 1]) && FrameOf(raws[|raws| - 1]).correlation == firstReq
    }

    // -------------------------------------------------------------------------
    // Assembly

    // As much of the header as is buffered.
    method FillHeader()
      requires Layout() && hdrHave < FRAME_HEADER_LEN && rpos < rlen && body == null
      modifies this`hdrHave, this`rpos, hdr
      ensures Layout() && rpos > old(rpos)
      ensures Unread() == old(Unread())
      ensures hdrHave < FRAME_HEADER_LEN ==> rpos == rlen
    {
      var take := FRAME_HEADER_LEN - hdrHave;
      if take > rlen - rpos {
        take := rlen - rpos;
      }
      ghost var h, r, p := hdr[..hdrHave], rbuf[rpos..rlen], sock.pending;
      MoveToHeader(h, r, p, take);
      var bytes := rbuf[rpos..rpos + take];
      assert bytes == r[..take] by {
        assert |r| == rlen - rpos && take <= |r|;
        assert forall k :: 0 <= k < take ==> bytes[k] == rbuf[rpos + k] == r[k];
      }
      Blit(hdr, hdrHave, bytes);
      hdrHave := hdrHave + take;
      rpos := rpos + take;
      assert hdr[..hdrHave] == h + r[..take];
      assert rbuf[rpos..rlen] == r[take..];
    }

    // As much of the body as is buffered.
    method FillBody()
      requires Layout() && Assembling() && hdrHave == FRAME_HEADER_LEN
      modifies this`bodyHave, this`rpos, body
      ensures Layout() && Assembling() && rpos >= old(rpos)
      ensures Unread() == old(Unread())
      ensures bodyHave < bodyLen ==> rpos == rlen
    {
      hide GoodHeader, GetWord, BodyLen;
      var take := bodyLen - bodyHave;
      if take > rlen - rpos {
        take := rlen - rpos;
      }
      ghost var h, b, r, p := hdr[..hdrHave], body[..bodyHave], rbuf[rpos..rlen], sock.pending;
      MoveToBody(h, b, r, p, take);
      var bytes := rbuf[rpos..rpos + take];
      Piece(rbuf, rpos, rpos + take, rlen);
      Blit(body, bodyHave, bytes);
      bodyHave := bodyHave + take;
      rpos := rpos + take;
      assert body[..bodyHave] == b + r[..take] && hdr[..hdrHave] == h && rbuf[rpos..rlen] == r[take..];
    }

    lemma Piece(a: array<Byte>, from: nat, mid: nat, to: nat)
      requires from <= mid <= to <= a.Length
      ensures a[from..mid] == a[from..to][..mid - from] && a[mid..to] == a[from..to][mid - from..]
    {
    }

    // read() straight into the body: a large remainder.
    method ReadIntoBody() returns (r: ReadResult)
      requires Layout() && Assembling() && rpos == rlen
      requires hdrHave == FRAME_HEADER_LEN && bodyHave < bodyLen
      modifies this`bodyHave, body, sock`pending, sock`signals, sock`gone
      ensures Layout() && Assembling()
      ensures Unread() == old(Unread())
      ensures r.Data? ==> |sock.pending| < |old(sock.pending)|
      ensures !r.Data? ==> sock.pending == old(sock.pending) && bodyHave == old(bodyHave)
      ensures r.ReadInterrupted? ==> sock.signals < old(sock.signals)
      ensures (r.Eof? || r.ReadFailed? ==> sock.gone) && (r.ReadAgain? ==> sock.pending == [])
    {
      hide GoodHeader, GetWord, BodyLen;
      ghost var h, b, p := hdr[..hdrHave], body[..bodyHave], sock.pending;
      r := sock.Read(bodyLen - bodyHave);
      if r.Data? {
        var bytes := r.bytes;
        MoveToBody(h, b, p, [], |bytes|);
        assert p[..|bytes|] == bytes && p[|bytes|..] == sock.pending;
        Blit(body, bodyHave, bytes);
        bodyHave := bodyHave + |bytes|;
        assert body[..bodyHave] == b + bytes;
        assert rbuf[rpos..rlen] == [];
      }
    }

    // read() into the buffer: everything else.
    method ReadIntoBuffer() returns (r: ReadResult)
      requires Layout() && Assembling() && rpos == rlen
      modifies this`rpos, this`rlen, rbuf, sock`pending, sock`signals, sock`gone
      ensures Layout() && Assembling()
      ensures Unread() == old(Unread())
      ensures r.Data? ==> |sock.pending| < |old(sock.pending)|
      ensures !r.Data? ==> sock.pending == old(sock.pending) && rpos == rlen
      ensures r.ReadInterrupted? ==> sock.signals < old(sock.signals)
      ensures (r.Eof? || r.ReadFailed? ==> sock.gone) && (r.ReadAgain? ==> sock.pending == [])
    {
      hide GoodHeader, GetWord, BodyLen;
      ghost var h, b := hdr[..hdrHave], if body == null then [] else body[..bodyHave];
      assert rbuf[rpos..rlen] == [];
      assert Unread() == (h + b) + sock.pending;
      r := sock.Read(RBUF_SIZE);
      if r.Data? {
        Blit(rbuf, 0, r.bytes);
        rpos, rlen := 0, |r.bytes|;
        assert rbuf[rpos..rlen] == r.bytes;
        assert Unread() == (h + b) + (r.bytes + sock.pending);
      }
    }

    // The header is in: what it says, and a body to fill.
    method OpenBody() returns (ok: bool)
      requires Layout() && hdrHave == FRAME_HEADER_LEN && body == null && bodyHave == 0
      modifies this`correlation, this`bodyLen, this`body, this`bodyHave
      ensures Layout() && Unread() == old(Unread())
      ensures ok <==> GoodHeader(hdr[..])
      ensures ok ==> Assembling() && fresh(body)
      ensures !ok ==> body == null
    {
      if hdr[..4] != MAGIC {
        assert hdr[..4] == hdr[..][..4];
        return false;
      }
      assert hdr[8..12] == hdr[..][8..12] && hdr[12..16] == hdr[..][12..16] && hdr[..4] == hdr[..][..4];
      correlation := GetWord(hdr[8..12]);
      bodyLen := GetWord(hdr[12..16]);
      if bodyLen > FRAME_MAX {
        return false;
      }
      body := new Byte[bodyLen + 1];
      bodyHave := 0;
      return true;
    }

    // What the connection holds of the stream, the socket's own buffer aside.
    ghost function Buffered(): seq<Byte>
      reads this`hdrHave, this`rpos, this`rlen, this`body, this`bodyHave, hdr, rbuf, body
      requires Layout()
    {
      hdr[..hdrHave] + (if body == null then [] else body[..bodyHave]) + rbuf[rpos..rlen]
    }

    lemma SpoiledByHeader()
      requires Layout() && hdrHave == FRAME_HEADER_LEN && body == null && !GoodHeader(hdr[..])
      ensures Spoiled(Unread())
    {
      assert Unread()[..16] == hdr[..];
    }

    lemma NothingWhole()
      requires Layout() && Assembling() && rpos == rlen
      requires hdrHave < FRAME_HEADER_LEN || bodyHave < bodyLen
      ensures Cut(Buffered()) == []
    {
      if hdrHave == FRAME_HEADER_LEN {
        assert Buffered()[..16] == hdr[..];
      }
    }

    // The buffered bytes into the frame, as far as they reach or the frame does.
    method Consume() returns (whole: bool, isDead: bool)
      requires Layout() && Assembling()
      modifies this`hdrHave, this`body, this`bodyLen, this`bodyHave, this`correlation, this`rpos
      modifies hdr, body
      ensures Layout() && Unread() == old(Unread())
      ensures !isDead ==> Assembling()
      ensures whole ==> !isDead && hdrHave == FRAME_HEADER_LEN && bodyHave == bodyLen
      ensures !whole && !isDead ==> rpos == rlen
      ensures isDead ==> Spoiled(Unread())
      ensures body == old(body) || body == null || fresh(body)
    {
      while rpos < rlen
        invariant Layout() && Assembling()
        invariant Unread() == old(Unread())
        invariant body == old(body) || body == null || fresh(body)
        decreases rlen - rpos, FRAME_HEADER_LEN - hdrHave
      {
        if hdrHave < FRAME_HEADER_LEN {
          FillHeader();
          if hdrHave < FRAME_HEADER_LEN {
            continue;
          }
          var ok := OpenBody();
          if !ok {
            SpoiledByHeader();
            return false, true;
          }
        }
        FillBody();
        if bodyHave == bodyLen {
          return true, false;
        }
      }
      return false, false;
    }

    // One read() - a large remainder straight into the frame.
    method ReadOn() returns (r: ReadResult)
      requires Layout() && Assembling() && rpos == rlen && (hdrHave < FRAME_HEADER_LEN || bodyHave < bodyLen)
      modifies this`bodyHave, this`rpos, this`rlen, body, rbuf, sock`pending, sock`signals, sock`gone
      ensures Layout() && Assembling() && Unread() == old(Unread())
      ensures r.Data? ==> |sock.pending| < |old(sock.pending)|
      ensures !r.Data? ==> sock.pending == old(sock.pending)
      ensures r.ReadInterrupted? ==> sock.signals < old(sock.signals)
      ensures r.ReadAgain? ==> sock.pending == [] && Cut(Buffered()) == []
      ensures r.Eof? || r.ReadFailed? ==> sock.gone
    {
      hide GoodHeader, GetWord, BodyLen, Cut, IsWhole;
      if hdrHave == FRAME_HEADER_LEN && bodyLen - bodyHave >= RBUF_SIZE {
        r := ReadIntoBody();
      } else {
        r := ReadIntoBuffer();
      }
      if r.ReadAgain? {
        NothingWhole();
      }
    }

    // frameAssemble: whole when a frame is in, neither on EAGAIN; isDead when the peer
    // is gone or its bytes are no frame.
    method FrameAssemble() returns (whole: bool, isDead: bool)
      requires Valid() && Accounted() && !dead
      modifies this`hdrHave, this`body, this`bodyLen, this`bodyHave, this`correlation, this`rpos, this`rlen
      modifies hdr, rbuf, body, sock`pending, sock`signals, sock`gone
      ensures Layout() && Unread() == old(Unread()) && Accounted()
      ensures whole ==> !isDead && Assembling() && hdrHave == FRAME_HEADER_LEN && bodyHave == bodyLen
      ensures !whole && !isDead ==> Assembling() && Cut(Buffered()) == [] && sock.pending == []
      ensures isDead ==> Spoiled(Unread()) || sock.gone
      ensures body == old(body) || body == null || fresh(body)
    {
      hide GoodHeader, GetWord, BodyLen, Spoiled, Cut, Concat, AllWhole, IsWhole;
      while true
        invariant Layout() && Assembling()
        invariant Unread() == old(Unread())
        invariant body == old(body) || body == null || fresh(body)
        decreases |sock.pending|, sock.signals
      {
        whole, isDead := Consume();
        if whole || isDead {
          return;
        }
        if hdrHave == FRAME_HEADER_LEN && bodyHave == bodyLen {
          return true, false;
        }

        var r := ReadOn();
        match r
        case Data(_) =>
        case ReadInterrupted =>
        case ReadAgain => return false, false;
        case Eof => return false, true;
        case ReadFailed => return false, true;
      }
    }

    // frameTake: the frame just assembled is the caller's, the assembly ready for the next.
    method FrameTake() returns (taken: array<Byte>, len: nat, corr: Word)
      requires Valid() && !dead && hdrHave == FRAME_HEADER_LEN && bodyHave == bodyLen
      requires Accounted()
      modifies this`body, this`hdrHave, this`bodyLen, this`bodyHave, this`raws
      ensures corr == old(correlation)
      ensures Valid() && Accounted() && rpos == old(rpos) && rlen == old(rlen)
      ensures |raws| == |old(raws)| + 1 && raws[..|old(raws)|] == old(raws)
      ensures IsWhole(raws[|raws| - 1])
      ensures var f := FrameOf(raws[|raws| - 1]); f.correlation == corr && len < taken.Length && f.body == taken[..len]
      ensures old(Unread()) == raws[|raws| - 1] + Unread()
      ensures raws[|raws| - 1][..16] == hdr[..] && hdrHave == 0 && body == null
    {
      hide GoodHeader, GetWord, BodyLen, IsWhole, AllWhole, Concat, FrameOf;
      taken, len, corr := body, bodyLen, correlation;
      ghost var raw := hdr[..] + body[..bodyLen];
      assert hdr[..hdrHave] == hdr[..];
      RawIsWhole(hdr[..], body[..bodyLen]);
      ConcatTaken(raws, raw, Unread());
      ghost var before := Unread();
      body := null;
      hdrHave, bodyLen, bodyHave := 0, 0, 0;
      assert before == raw + Unread();
      raws := raws + [raw];
    }

    // connDie
    method ConnDie()
      modifies this`dead
      ensures dead && (old(Flushed()) || Cutoff() ==> Flushed())
      ensures old(Layout() && Accounted()) ==> Layout() && Accounted()
    {
      dead := true;
    }

    lemma NothingBuffered()
      requires Layout() && hdrHave == 0 && body == null && rpos >= rlen
      ensures Buffered() == []
    {
    }

    lemma NothingCut()
      ensures Cut([]) == []
    {
    }

    lemma NothingSent()
      requires Flushed() && Greeted() && !helloDone && !dead
      ensures sock.sent == [] && Cutoff() && raws == [] && queued == [] && outQ == [] && outPos == 0 && started == 0
    {
      assert outQ[outPos..] == [];
    }

    lemma OneFrame(f: Frame)
      requires Encodable(f)
      ensures Wire([f]) == FrameBytes(f)
    {
      assert [f][1..] == [];
      assert Wire([f][1..]) == [];
    }

    // The frame that is in is the first of the unread.
    lemma FirstOfUnread()
      requires Layout() && Assembling() && hdrHave == FRAME_HEADER_LEN && bodyHave == bodyLen
      ensures Cut(Unread()) != [] && Cut(Unread())[0].kind == hdr[4]
    {
      hide GoodHeader, GetWord, BodyLen, IsWhole, Cut;
      var raw := hdr[..] + body[..bodyLen];
      assert hdr[..hdrHave] == hdr[..];
      RawIsWhole(hdr[..], body[..bodyLen]);
      CutWhole(raw, rbuf[rpos..rlen] + sock.pending);
      assert Unread() == raw + (rbuf[rpos..rlen] + sock.pending);
      assert raw[4] == raw[..16][4];
    }

    // helloAnswer: the first frame, answered with the HELLO_ACK - ack: what its tree encodes
    // to - and taken.
    method HelloAnswer(hello: Hello, ack: Option<seq<Byte>>) returns (ok: bool)
      requires Valid() && !dead && hdrHave == FRAME_HEADER_LEN && bodyHave == bodyLen
      requires Accounted() && Flushed() && Greeted() && !helloDone && Fits(ack)
      modifies this`body, this`hdrHave, this`bodyLen, this`bodyHave, this`raws, this`helloDone, this`queued
      modifies sock`sent, sock`signals, sock`broken, sock`full, sock`expired
      ensures Valid() && Accounted() && Greeted() && (if ok then Flushed() else Cutoff())
      ensures helloDone <==> old(hdr[4]) == FRAME_HELLO && !hello.refused
      ensures ok <==> helloDone && ack.Some? && hello.tables && sock.sent == Wire(queued)
      ensures helloDone ==> |raws| == 1 && IsWhole(raws[0]) && queued == Acked(FrameOf(raws[0]).correlation, ack)
      ensures helloDone ==> |Unread()| < |old(Unread())|
      ensures helloDone && sock.sent != Wire(queued) ==> sock.broken || sock.expired
      ensures !helloDone ==> Unread() == old(Unread()) && Cut(Unread()) != [] && Cut(Unread())[0].kind == old(hdr[4])
      ensures body == old(body) || body == null
    {
      assert hdr.Length == FRAME_HEADER_LEN;
      hide Concat, AllWhole, GoodHeader, GetWord, BodyLen, FrameBytes, Wire, Cut, IsWhole, FrameOf, Encodable,
           Assembling,
           Layout, Accounted, Flushed, Cutoff, Unread, Greeted, Acked;
      NothingSent();
      if hdr[4] != FRAME_HELLO || hello.refused {
        FirstOfUnread();
        return false;
      }
      ok := AcceptHello(hello.tables, ack);
    }

    method AcceptHello(tables: bool, ack: Option<seq<Byte>>) returns (ok: bool)
      requires Valid() && !dead && hdrHave == FRAME_HEADER_LEN && bodyHave == bodyLen && hdr[4] == FRAME_HELLO
      requires Accounted() && Fits(ack) && sock.sent == [] && raws == [] && queued == [] && started == 0
      requires outQ == [] && outPos == 0
      modifies this`body, this`hdrHave, this`bodyLen, this`bodyHave, this`raws, this`helloDone, this`queued
      modifies sock`sent, sock`signals, sock`broken, sock`full, sock`expired
      ensures Valid() && Accounted() && Greeted() && (if ok then Flushed() else Cutoff()) && helloDone
      ensures ok <==> ack.Some? && tables && sock.sent == Wire(queued)
      ensures |raws| == 1 && IsWhole(raws[0]) && queued == Acked(FrameOf(raws[0]).correlation, ack)
      ensures |Unread()| < |old(Unread())| && (sock.sent != Wire(queued) ==> sock.broken || sock.expired)
      ensures body == null
    {
      hide Concat, AllWhole, GoodHeader, GetWord, BodyLen, FrameBytes, Wire, Cut, IsWhole, FrameOf, Encodable,
           Assembling,
           Layout, Accounted, Flushed, Cutoff, Unread, Greeted;
      ok := SendAck(ack);
      AckIsOut(ok);
      TakeHello();
      ok := ok && tables;
    }

    lemma AckIsOut(whole: bool)
      requires !dead && outQ == [] && outPos == 0 && (forall f <- queued :: Encodable(f)) && sock.sent <= Wire(queued)
      requires whole ==> sock.sent == Wire(queued)
      ensures Cutoff() && (whole ==> Flushed())
    {
      hide Wire;
      assert outQ[outPos..] == [];
    }

    method TakeHello()
      requires Valid() && !dead && hdrHave == FRAME_HEADER_LEN && bodyHave == bodyLen
      requires Accounted() && raws == [] && started == 0 && hdr[4] == FRAME_HELLO
      modifies this`body, this`hdrHave, this`bodyLen, this`bodyHave, this`raws, this`helloDone
      ensures Valid() && Accounted() && Greeted() && helloDone
      ensures |raws| == 1 && IsWhole(raws[0]) && FrameOf(raws[0]).correlation == old(correlation)
      ensures |Unread()| < |old(Unread())| && body == null
    {
      hide Concat, AllWhole, GoodHeader, GetWord, BodyLen, IsWhole, FrameOf;
      ghost var h := hdr[..];
      var taken, len, corr := FrameTake();
      assert raws[0][4] == raws[0][..16][4] == h[4];
      helloDone := true;
    }

    // frameSend of the HELLO_ACK: straight to the socket, nothing is queued yet.
    method SendAck(ack: Option<seq<Byte>>) returns (ok: bool)
      requires queued == [] && sock.sent == [] && Fits(ack)
      modifies this`queued, sock`sent, sock`signals, sock`broken, sock`full, sock`expired
      ensures ack.Some? ==> queued == [Frame(FRAME_HELLO_ACK, correlation, ack.value)]
      ensures ack.None? ==> queued == []
      ensures (forall f <- queued :: Encodable(f)) && sock.sent <= Wire(queued)
      ensures ok <==> ack.Some? && sock.sent == Wire(queued)
      ensures sock.sent != Wire(queued) ==> sock.broken || sock.expired
    {
      hide FrameBytes;
      if ack.None? {
        return false;
      }
      var f := Frame(FRAME_HELLO_ACK, correlation, ack.value);
      OneFrame(f);
      ok := WriteAll(sock, FrameBytes(f));
      queued := [f];
    }

    // requestRespond, on the loop: the request's response to the end of the queue.
    method Respond(corr: Word, reply: Option<seq<Byte>>)
      requires Flushed() && pending > 0 && Fits(reply)
      modifies this`outQ, this`outPos, this`outWatch, this`dead, this`queued, this`pending
      modifies sock`sent, sock`signals, sock`broken, sock`full
      ensures Flushed() && pending == old(pending) - 1
      ensures !old(dead) && reply.Some? ==> queued == old(queued) + [Frame(FRAME_RESPONSE, corr, reply.value)]
      ensures old(dead) || reply.None? ==> queued == old(queued)
      ensures old(dead) ==> dead
      ensures dead ==> old(dead) || sock.broken
    {
      var ok := FrameQueue(FRAME_RESPONSE, corr, reply);
      pending := pending - 1;
    }

    // requestStart, as far as the connection goes: a connection with nothing else in flight
    // and nothing to send can move to a thread of its own.
    method StartRequest(corr: Word, start: Start) returns (ok: bool)
      requires Flushed() && !dead && !dedicated && (start.Run? ==> Fits(start.reply))
      modifies this`outQ, this`outPos, this`outWatch, this`dead, this`queued
      modifies this`pending, this`dedicated, this`firstReq
      modifies sock`sent, sock`signals, sock`broken, sock`full, sock`blocking
      ensures Flushed() && (dead ==> sock.broken)
      ensures ok <==> StartsOk(start, dedicated)
      ensures ok <==> start.Run? && (dedicated ==> start.how.Blocking? && start.how.threadStarts)
      ensures dedicated <==> start.Run? && start.how.Blocking? && old(pending) == 0 && old(outQ) == []
      ensures start.Run? && start.reply.Some? && !start.how.Coroutine? && !dedicated ==>
                queued == old(queued) + [Frame(FRAME_RESPONSE, corr, start.reply.value)]
      ensures start.Refused? || start.reply.None? || start.how.Coroutine? || dedicated ==> queued == old(queued)
      ensures pending == old(pending) + if start.Run? && start.how.Coroutine? then 1 else 0
      ensures dedicated ==> outQ == [] && !dead && sock.blocking && firstReq == corr
    {
      if start.Refused? {
        return false;
      }
      pending := pending + 1;
      match start.how {
        case AtOnce =>
          Respond(corr, start.reply);
        case Coroutine =>
        case Blocking(threadStarts) =>
          if pending == 1 && outQ == [] {
            pending := 0;
            dedicated, sock.blocking, firstReq := true, true, corr;
            return threadStarts;
          }
          Respond(corr, start.reply);
      }
      return true;
    }

    // A request frame: taken and started.
    method OnRequest(start: Start)
      requires Valid() && !dead && !dedicated && hdrHave == FRAME_HEADER_LEN && bodyHave == bodyLen
      requires Accounted() && Flushed() && Greeted() && helloDone && (start.Run? ==> Fits(start.reply))
      modifies this`body, this`hdrHave, this`bodyLen, this`bodyHave, this`raws, this`dead
      modifies this`outQ, this`outPos, this`outWatch, this`queued
      modifies this`started, this`pending, this`dedicated, this`firstReq
      modifies sock`sent, sock`signals, sock`broken, sock`full, sock`blocking
      ensures Valid() && Accounted() && Flushed() && Greeted() && started == old(started) + 1
      ensures |raws| == |old(raws)| + 1 && raws[..|old(raws)|] == old(raws) && IsWhole(raws[|old(raws)|])
      ensures old(Unread()) == raws[|old(raws)|] + Unread() && body == null && hdrHave == 0
      ensures queued == old(queued) + if dedicated then [] else Answer(FrameOf(raws[|old(raws)|]).correlation, start)
      ensures dead ==> sock.broken || !StartsOk(start, dedicated)
      ensures !dead ==> StartsOk(start, dedicated) && (dedicated ==> Moved())
    {
      hide Concat, AllWhole, GoodHeader, GetWord, BodyLen, Wire, IsWhole, FrameOf, Flushed, StartsOk, Assembling,
           Accounted, Unread;
      var taken, len, corr := FrameTake();
      RestIsUnread();
      started := started + 1;
      var ok := StartRequest(corr, start);
      AccountedFor();
      if !ok {
        ConnDie();
      }
    }

    // One more frame taken, told of what it says.
    lemma ToldOn(ack: Option<seq<Byte>>, starts: nat -> Start, before: seq<seq<Byte>>, was: seq<Frame>)
      requires AllWhole(before) && AllWhole(raws) && before != [] && |raws| == |before| + 1
      requires raws[..|before|] == before
      requires was == Acked(FrameOf(before[0]).correlation, ack) + Answers(FramesOf(before[1..]), starts)
      requires var corr := FrameOf(raws[|before|]).correlation;
               queued == was + if dedicated then [] else Answer(corr, starts(|before| - 1))
      ensures Told(ack, starts)
    {
      hide IsWhole, FrameOf, Answers, FramesOf;
      var raw := raws[|before|];
      assert raws[1..|raws| - 1] == before[1..] && raws[0] == before[0];
      assert raws[1..] == before[1..] + [raw];
      if !dedicated {
        FramesSnoc(before[1..], raw);
        AnswersSnoc(FramesOf(before[1..]), FrameOf(raw), starts);
      }
    }

    // A frame that is in.
    method OnFrame(hello: Hello, ack: Option<seq<Byte>>, starts: nat -> Start) returns (first: bool)
      requires Valid() && !dead && !dedicated && hdrHave == FRAME_HEADER_LEN && bodyHave == bodyLen
      requires Accounted() && Flushed() && Greeted() && Told(ack, starts) && Served(hello, ack, starts)
      requires Fits(ack) && AllFit(starts)
      modifies this`body, this`hdrHave, this`bodyLen, this`bodyHave, this`raws, this`dead, this`helloDone
      modifies this`outQ, this`outPos, this`outWatch, this`queued
      modifies this`started, this`pending, this`dedicated, this`firstReq
      modifies sock`sent, sock`signals, sock`broken, sock`full, sock`expired, sock`blocking
      ensures Valid() && Accounted() && Flushed() && Greeted() && old(raws) <= raws
      ensures Told(ack, starts) && (!dead ==> Served(hello, ack, starts)) && (dead ==> Cause(hello, ack, starts))
      ensures !dead ==> |Unread()| < |old(Unread())|
      ensures !dead && dedicated ==> !first && Moved()
      ensures !first ==> hdrHave == 0 && body == null
      ensures body == old(body) || body == null
    {
      hide Layout, Assembling, Accounted, Flushed, Greeted, Cutoff, Told, Served, Cause, Moved;
      first := !helloDone;
      if first {
        FirstFrame(hello, ack, starts);
      } else {
        NextFrame(hello, ack, starts);
      }
    }

    method FirstFrame(hello: Hello, ack: Option<seq<Byte>>, ghost starts: nat -> Start)
      requires Valid() && !dead && !dedicated && hdrHave == FRAME_HEADER_LEN && bodyHave == bodyLen
      requires Accounted() && Flushed() && Greeted() && !helloDone && Fits(ack)
      modifies this`body, this`hdrHave, this`bodyLen, this`bodyHave, this`raws, this`dead, this`helloDone, this`queued
      modifies sock`sent, sock`signals, sock`broken, sock`full, sock`expired
      ensures Valid() && Accounted() && Flushed() && Greeted() && old(raws) <= raws
      ensures Told(ack, starts) && (!dead ==> Served(hello, ack, starts)) && (dead ==> Cause(hello, ack, starts))
      ensures !dead ==> |Unread()| < |old(Unread())|
      ensures body == old(body) || body == null
    {
      hide Layout, Assembling, Accounted, Flushed, Cutoff, Concat, Cut, IsWhole, Wire, Told, Spoiled, FrameOf, AllWhole;
      var ok := HelloAnswer(hello, ack);
      if !ok {
        RestIsUnread();
        ConnDie();
      }
      NoRequests(ack, starts);
    }

    lemma NoRequests(ack: Option<seq<Byte>>, starts: nat -> Start)
      requires Layout() && Accounted()
      requires helloDone ==> |raws| == 1 && !dedicated && queued == Acked(FrameOf(raws[0]).correlation, ack)
      ensures Told(ack, starts)
    {
      assert helloDone ==> raws[1..] == [];
    }

    lemma RestIsUnread()
      requires Layout() && Accounted() && !dead
      ensures AllWhole(raws) && sock.arrived == Concat(raws) + Unread()
      ensures Concat(raws) <= sock.arrived && sock.arrived[|Concat(raws)|..] == Unread()
    {
      hide Concat, IsWhole;
    }

    lemma AccountedFor()
      requires Layout() && AllWhole(raws) && sock.arrived == Concat(raws) + Unread()
      ensures Accounted()
    {
      hide Concat, IsWhole;
    }

    method NextFrame(ghost hello: Hello, ghost ack: Option<seq<Byte>>, starts: nat -> Start)
      requires Valid() && !dead && !dedicated && hdrHave == FRAME_HEADER_LEN && bodyHave == bodyLen
      requires Accounted() && Flushed() && Greeted() && Told(ack, starts) && Served(hello, ack, starts)
      requires helloDone && AllFit(starts)
      modifies this`body, this`hdrHave, this`bodyLen, this`bodyHave, this`raws, this`dead
      modifies this`outQ, this`outPos, this`outWatch, this`queued
      modifies this`started, this`pending, this`dedicated, this`firstReq
      modifies sock`sent, sock`signals, sock`broken, sock`full, sock`blocking
      ensures Valid() && Accounted() && Flushed() && Greeted() && old(raws) <= raws
      ensures Told(ack, starts) && (!dead ==> Served(hello, ack, starts)) && (dead ==> Cause(hello, ack, starts))
      ensures |Unread()| < |old(Unread())| && hdrHave == 0 && body == null
      ensures !dead && dedicated ==> Moved()
    {
      hide Assembling, Flushed, Cutoff, Concat, Cut, IsWhole, Wire, FramesOf, Answers;
      ghost var before, was := raws, queued;
      OnRequest(starts(started));
      ToldOn(ack, starts, before, was);
      WholeIsLong(raws[|before|]);
    }

    // connInput: every frame there is, as long as bytes are buffered.
    method ConnInput(hello: Hello, ack: Option<seq<Byte>>, starts: nat -> Start)
      requires Valid() && Accounted() && Flushed() && Greeted() && !dead && !dedicated
      requires Told(ack, starts) && Served(hello, ack, starts) && Fits(ack) && AllFit(starts)
      modifies this`hdrHave, this`body, this`bodyLen, this`bodyHave, this`correlation, this`rpos, this`rlen, this`raws
      modifies this`dead, this`helloDone, this`started, this`pending, this`dedicated, this`firstReq
      modifies this`outQ, this`outPos, this`outWatch, this`queued
      modifies hdr, rbuf, body, sock`pending, sock`signals, sock`gone, sock`sent, sock`broken, sock`full
      modifies sock`expired, sock`blocking
      ensures Valid() && Accounted() && Flushed() && Greeted()
      ensures old(raws) <= raws
      ensures Told(ack, starts) && (!dead ==> Served(hello, ack, starts)) && (dead ==> Cause(hello, ack, starts))
      ensures !dead && !dedicated ==> Cut(Buffered()) == []
      ensures !dead && !dedicated ==> sock.pending == [] || |Unread()| < |old(Unread())|
      ensures !dead && dedicated ==> Moved()
      ensures body == old(body) || body == null || fresh(body)
    {
      hide Layout, Assembling, Accounted, Cut, Spoiled, Flushed, Greeted, Cutoff, Told, Served, Cause, Moved;
      NothingCut();
      while !dead && !dedicated
        invariant Valid() && Accounted() && Flushed() && Greeted()
        invariant old(raws) <= raws
        invariant Told(ack, starts) && (!dead ==> Served(hello, ack, starts)) && (dead ==> Cause(hello, ack, starts))
        invariant body == old(body) || body == null || fresh(body)
        invariant !dead && dedicated ==> Moved()
        invariant !dead ==> |Unread()| <= |old(Unread())|
        decreases if dead then 0 else 1 + |Unread()|
      {
        var whole, isDead := FrameAssemble();
        if !whole {
          if isDead {
            EndsByInput(hello, ack, starts);
            ConnDie();
          }
          return;
        }
        var first := OnFrame(hello, ack, starts);
        if !first && rpos >= rlen {
          NothingBuffered();
          return;
        }
      }
    }

    lemma EndsByInput(hello: Hello, ack: Option<seq<Byte>>, starts: nat -> Start)
      requires Layout() && Accounted() && !dead && (Spoiled(Unread()) || sock.gone)
      ensures Cause(hello, ack, starts)
    {
      hide Concat, Spoiled, Cut, Layout, Accounted;
      RestIsUnread();
    }

    lemma ConcatNone(pieces: seq<seq<Byte>>)
      ensures Concat(pieces[..0]) == []
    {
    }

    lemma ConcatSnoc(pieces: seq<seq<Byte>>, i: nat)
      requires i < |pieces|
      ensures Concat(pieces[..i + 1]) == Concat(pieces[..i]) + pieces[i]
    {
      assert pieces[..i + 1][..i] == pieces[..i];
    }

    // The peer's bytes come in.
    method Arrive(bytes: seq<Byte>)
      requires Layout() && Accounted()
      modifies sock`arrived, sock`pending
      ensures Layout() && Accounted() && sock.arrived == old(sock.arrived) + bytes
    {
      hide Concat, AllWhole;
      sock.Arrive(bytes);
      assert !dead ==> sock.arrived == Concat(raws) + Unread();
    }

    // The peer's bytes come in, and the loop is told as long as there are any to read.
    method OnBytes(bytes: seq<Byte>, hello: Hello, ack: Option<seq<Byte>>, starts: nat -> Start)
      requires Valid() && Accounted() && Flushed() && Greeted() && Told(ack, starts) && Fits(ack) && AllFit(starts)
      requires if dead then Cause(hello, ack, starts) else Served(hello, ack, starts)
      requires !dead ==> if dedicated then Moved() else sock.pending == [] && Cut(Buffered()) == []
      modifies this, hdr, rbuf, body, sock
      ensures Valid() && Accounted() && Flushed() && Greeted() && Told(ack, starts)
      ensures sock.arrived == old(sock.arrived) + bytes
      ensures if dead then Cause(hello, ack, starts) else Served(hello, ack, starts)
      ensures !dead ==> if dedicated then Moved() else sock.pending == [] && Cut(Buffered()) == []
      ensures body == old(body) || body == null || fresh(body)
    {
      hide Concat, Cut, IsWhole, GoodHeader, BodyLen, GetWord, Spoiled, Greeted, Flushed, Told, Served, Assembling,
           Moved,
           Ends;
      ghost var rest := sock.arrived[|Concat(raws)|..];
      Arrive(bytes);
      assert sock.arrived[|Concat(raws)|..] == rest + bytes;
      if dead && !sock.gone && !sock.broken {
        EndsStill(hello, ack, sock.expired, starts, |raws|, dedicated, rest, bytes);
      }
      while !dead && !dedicated && sock.pending != []
        invariant Valid() && Accounted() && Flushed() && Greeted() && Told(ack, starts)
        invariant sock.arrived == old(sock.arrived) + bytes
        invariant if dead then Cause(hello, ack, starts) else Served(hello, ack, starts)
        invariant !dead ==> if dedicated then Moved() else sock.pending == [] ==> Cut(Buffered()) == []
        invariant body == old(body) || body == null || fresh(body)
        decreases !dead && !dedicated && sock.pending != [], |Unread()|
      {
        ConnInput(hello, ack, starts);
      }
    }

    // A whole session: the peer's bytes in any pieces, until the connection dies or has a
    // thread of its own. The frames taken are a function of the bytes alone - all there are,
    // as long as it lives - the first of them the HELLO; and so is what is queued.
    method Session(pieces: seq<seq<Byte>>, hello: Hello, ack: Option<seq<Byte>>, starts: nat -> Start)
      requires Valid() && Accounted() && Flushed() && Greeted() && !dead && !dedicated && !helloDone
      requires sock.arrived == [] && Fits(ack) && AllFit(starts)
      modifies this, hdr, rbuf, body, sock
      ensures Valid() && Accounted() && Flushed() && Greeted() && sock.arrived == Concat(pieces)
      ensures FramesOf(raws) <= Cut(Concat(pieces))
      ensures !dead && !dedicated ==> FramesOf(raws) == Cut(Concat(pieces))
      ensures Told(ack, starts)
      ensures if dead then Cause(hello, ack, starts) else Served(hello, ack, starts)
      ensures !dead && dedicated ==> Moved()
    {
      hide Cut, FramesOf, IsWhole, GoodHeader, BodyLen, GetWord, Spoiled, Flushed, Told, Served, Assembling, Moved,
           Cause;
      ConcatNone(pieces);
      NothingYet(hello, ack, starts);
      for i := 0 to |pieces|
        invariant Valid() && Accounted() && Flushed() && Greeted() && sock.arrived == Concat(pieces[..i])
        invariant Told(ack, starts) && if dead then Cause(hello, ack, starts) else Served(hello, ack, starts)
        invariant !dead ==> if dedicated then Moved() else sock.pending == [] && Cut(Buffered()) == []
        invariant body == old(body) || body == null || fresh(body)
      {
        ConcatSnoc(pieces, i);
        OnBytes(pieces[i], hello, ack, starts);
      }
      assert pieces[..|pieces|] == pieces;
      AllTaken();
    }

    lemma NothingYet(hello: Hello, ack: Option<seq<Byte>>, starts: nat -> Start)
      requires Valid() && Accounted() && Greeted() && !dead && !helloDone && sock.arrived == []
      ensures sock.pending == [] && Cut(Buffered()) == [] && Told(ack, starts) && Served(hello, ack, starts)
    {
      NothingCut();
      assert Concat(raws) == [];
      assert Unread() == [];
      assert Buffered() == [];
    }

    // The frames taken are the first the bytes hold, and all when what is left holds none.
    lemma AllTaken()
      requires Layout() && Accounted()
      ensures FramesOf(raws) <= Cut(sock.arrived)
      ensures !dead && sock.pending == [] && Cut(Buffered()) == [] ==> FramesOf(raws) == Cut(sock.arrived)
    {
      hide Concat, Cut, FramesOf, IsWhole;
      var rest := sock.arrived[|Concat(raws)|..];
      CutConcat(raws, rest);
      assert sock.arrived == Concat(raws) + rest;
      if !dead && sock.pending == [] {
        assert rest == Unread() == Buffered();
      }
    }

    // -------------------------------------------------------------------------
    // The response queue

    // outFlush: as much as the socket takes; the rest waits for EPOLLOUT.
    method OutFlush()
      requires !dead && outPos <= |outQ| && forall f <- queued :: Encodable(f)
      requires sock.sent + outQ[outPos..] == Wire(queued)
      modifies this`outQ, this`outPos, this`outWatch, this`dead, sock`sent, sock`signals, sock`broken, sock`full
      ensures Flushed() && (dead ==> sock.broken)
      ensures !dead && outQ != [] ==> outWatch && sock.full
      ensures !dead && outQ == [] ==> !outWatch && sock.sent == Wire(queued)
      ensures old(sock.sent) <= sock.sent
    {
      hide Wire;
      while outPos < |outQ|
        invariant outPos <= |outQ| && !dead
        invariant sock.sent + outQ[outPos..] == Wire(queued)
        invariant old(sock.sent) <= sock.sent
        decreases |outQ| - outPos, sock.signals
      {
        var w := sock.Send(outQ[outPos..]);
        match w
        case Sent(n) =>
          assert outQ[outPos..] == outQ[outPos..][..n] + outQ[outPos + n..];
          outPos := outPos + n;
        case SendInterrupted =>
        case SendAgain =>
          if !outWatch {
            outWatch := true;
          }
          return;
        case SendFailed =>
          ConnDie();
          return;
      }
      assert outQ[outPos..] == [];
      outPos := 0;
      outQ := [];
      if outWatch {
        outWatch := false;
      }
    }

    // frameQueue: the frame at the end of the queue, and flushed unless a flush is
    // waiting already. body: what the encoder made of the tree, None when it failed.
    method FrameQueue(kind: Byte, corr: Word, body: Option<seq<Byte>>) returns (ok: bool)
      requires Flushed()
      requires body.Some? ==> |body.value| < 0x8000_0000
      modifies this`outQ, this`outPos, this`outWatch, this`dead, this`queued, sock`sent, sock`signals, sock`broken
      modifies sock`full
      ensures Flushed()
      ensures ok <==> !old(dead) && body.Some?
      ensures queued == old(queued) + if ok then [Frame(kind, corr, body.value)] else []
      ensures !ok ==> outQ == old(outQ) && outPos == old(outPos) && sock.sent == old(sock.sent)
      ensures ok && !dead && outQ != [] ==> old(outWatch) || sock.full
      ensures old(sock.sent) <= sock.sent && (dead && !old(dead) ==> sock.broken) && (old(dead) ==> dead)
    {
      hide FrameBytes, Wire;
      if dead {
        return false;
      }
      if body.None? {
        return false;
      }
      var f := Frame(kind, corr, body.value);
      WireSnoc(queued, f);
      assert (outQ + FrameBytes(f))[outPos..] == outQ[outPos..] + FrameBytes(f);
      assert sock.sent + (outQ[outPos..] + FrameBytes(f)) == (sock.sent + outQ[outPos..]) + FrameBytes(f);
      queued := queued + [f];
      outQ := outQ + FrameBytes(f);
      if !outWatch {
        OutFlush();
      }
      return true;
    }
  }

  // ---------------------------------------------------------------------------
  // End to end: one end's queue, the other end's assembly

  // Received bytes are a prefix of the sent ones, and those of the frames queued:
  // the frames taken are, in order, a prefix of the frames queued - whatever the
  // partial sends and the splits of the reads were, and however large the frames.
  lemma TakenArePrefixOfQueued(queued: seq<Frame>, sent: seq<Byte>, arrived: seq<Byte>, raws: seq<seq<Byte>>,
                               unread: seq<Byte>)
    requires forall f <- queued :: Encodable(f)
    requires arrived <= sent <= Wire(queued)
    requires AllWhole(raws) && arrived == Concat(raws) + unread
    ensures FramesOf(raws) <= queued
    ensures FramesOf(raws) + Cut(unread) == Cut(arrived)
    ensures arrived == Wire(queued) && Cut(unread) == [] ==>
            (FramesOf(raws) == queued <==> forall f <- queued :: Acceptable(f))
  {
    hide FramesOf, Concat, Cut, Wire, AllWhole;
    CutConcat(raws, unread);
    var rest := Wire(queued)[|arrived|..];
    assert arrived + rest == Wire(queued);
    CutPrefix(arrived, rest);
    CutWireIsPrefix(queued);
    CutWireExactly(queued);
  }
}
