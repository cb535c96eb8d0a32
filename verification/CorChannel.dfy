// One direction of a cor:// connection: the sender's string table, the receiver's
// mirror of it, and the frames between them (corRestCor.c:366-376, 632-672, 1115,
// 2145-2165). Encoding order is wire order and wire order is decoding order.
module CorChannel {
  import opened Base
  import opened CorFrame
  import opened CorCodec

  // A tree and the correlation its frame carries.
  datatype Entry<Tree> = Entry(correlation: Word, tree: Tree)

  datatype Channel<Tree, Table> = Channel(
    kind: Byte,                // of its frames
    out: Table,                // what the sender has defined
    mirror: Table,             // the receiver's mirror of it
    queue: seq<Frame>,         // encoded, not wholly written
    wire: seq<Frame>,          // wholly written, not decoded
    sent: seq<Entry<Tree>>,    // history: everything encoded, in encoding order
    got: seq<Entry<Tree>>)     // history: everything decoded, in decoding order

  function Fresh<Tree, Table>(kind: Byte, table: Table): Channel<Tree, Table> {
    Channel(kind, table, table, [], [], [], [])
  }

  // ---------------------------------------------------------------------------
  // The operations

  function NewFrame<Tree, Table>(c: Codec<Tree, Table>, ch: Channel<Tree, Table>, e: Entry<Tree>): Frame {
    Frame(ch.kind, e.correlation, c.encode(e.tree, ch.out))
  }

  // frameQueue, and frameSend up to its write: encoded with the sender's table, which learns.
  function Enqueue<Tree, Table>(c: Codec<Tree, Table>, ch: Channel<Tree, Table>, e: Entry<Tree>): Channel<Tree, Table> {
    ch.(queue := ch.queue + [NewFrame(c, ch, e)], out := c.learn(e.tree, ch.out), sent := ch.sent + [e])
  }

  // The oldest queued frame's last byte is written.
  function Written<Tree, Table>(ch: Channel<Tree, Table>): Channel<Tree, Table>
    requires ch.queue != []
  {
    ch.(queue := ch.queue[1..], wire := ch.wire + [ch.queue[0]])
  }

  // frameSend whole, past the queue: a dedicated thread's (corRestCor.c:916-920).
  function SendNow<Tree, Table>(c: Codec<Tree, Table>, ch: Channel<Tree, Table>, e: Entry<Tree>): Channel<Tree, Table> {
    ch.(wire := ch.wire + [NewFrame(c, ch, e)], out := c.learn(e.tree, ch.out), sent := ch.sent + [e])
  }

  // The next frame, decoded with the mirror, which learns the same; None when it
  // cannot be decoded or is too large.
  function Receive<Tree, Table>(c: Codec<Tree, Table>, ch: Channel<Tree, Table>): Option<Channel<Tree, Table>>
    requires ch.wire != []
  {
    var f := ch.wire[0];
    if !Acceptable(f) then None
    else
      match c.decode(f.body, ch.mirror)
      case None => None
      case Some((tree, table)) =>
        Some(ch.(wire := ch.wire[1..], mirror := table, got := ch.got + [Entry(f.correlation, tree)]))
  }

  // ---------------------------------------------------------------------------
  // In step

  // The sender's table as it was after encoding these.
  ghost function TableAfter<Tree, Table>(c: Codec<Tree, Table>, table: Table, es: seq<Entry<Tree>>): Table {
    if es == [] then table
    else c.learn(es[|es| - 1].tree, TableAfter(c, table, es[..|es| - 1]))
  }

  // The frame the k-th encoding made.
  ghost function FrameAt<Tree, Table>(c: Codec<Tree, Table>, table: Table, ch: Channel<Tree, Table>, k: nat): Frame
    requires k < |ch.sent|
  {
    Frame(ch.kind, ch.sent[k].correlation, c.encode(ch.sent[k].tree, TableAfter(c, table, ch.sent[..k])))
  }

  // What is between the two ends, oldest first.
  ghost function Transit<Tree, Table>(ch: Channel<Tree, Table>): seq<Frame> {
    ch.wire + ch.queue
  }

  // After k frames decoded, the mirror is the sender's table after encoding k, the
  // trees decoded are the first k encoded, and the rest is on its way in order.
  ghost predicate InStep<Tree, Table>(c: Codec<Tree, Table>, table: Table, ch: Channel<Tree, Table>) {
    && ch.got <= ch.sent
    && ch.mirror == TableAfter(c, table, ch.got)
    && ch.out == TableAfter(c, table, ch.sent)
    && |ch.got| + |Transit(ch)| == |ch.sent|
    && forall k :: 0 <= k < |Transit(ch)| ==> Transit(ch)[k] == FrameAt(c, table, ch, |ch.got| + k)
  }

  lemma FreshInStep<Tree, Table>(c: Codec<Tree, Table>, kind: Byte, table: Table)
    ensures InStep(c, table, Fresh<Tree, Table>(kind, table))
  {
  }

  // One more encoding, its frame the last in transit.
  lemma GrowInStep<Tree, Table>(c: Codec<Tree, Table>, table: Table, ch: Channel<Tree, Table>, e: Entry<Tree>,
                                ch': Channel<Tree, Table>)
    requires InStep(c, table, ch)
    requires Transit(ch') == Transit(ch) + [NewFrame(c, ch, e)]
    requires ch'.sent == ch.sent + [e] && ch'.got == ch.got && ch'.kind == ch.kind
    requires ch'.mirror == ch.mirror && ch'.out == c.learn(e.tree, ch.out)
    ensures InStep(c, table, ch')
  {
    var n := |ch.sent|;
    assert ch'.sent[..n] == ch.sent;
    forall k | 0 <= k < |Transit(ch')|
      ensures Transit(ch')[k] == FrameAt(c, table, ch', |ch'.got| + k)
    {
      var j := |ch.got| + k;
      assert j <= n ==> ch'.sent[..j] == ch.sent[..j];
    }
  }

  lemma EnqueueInStep<Tree, Table>(c: Codec<Tree, Table>, table: Table, ch: Channel<Tree, Table>, e: Entry<Tree>)
    requires InStep(c, table, ch)
    ensures InStep(c, table, Enqueue(c, ch, e))
  {
    GrowInStep(c, table, ch, e, Enqueue(c, ch, e));
  }

  lemma WrittenInStep<Tree, Table>(c: Codec<Tree, Table>, table: Table, ch: Channel<Tree, Table>)
    requires InStep(c, table, ch) && ch.queue != []
    ensures InStep(c, table, Written(ch)) && Transit(Written(ch)) == Transit(ch)
  {
    hide TableAfter;
    var ch' := Written(ch);
    assert Transit(ch') == Transit(ch);
    forall k | 0 <= k < |Transit(ch')|
      ensures Transit(ch')[k] == FrameAt(c, table, ch', |ch'.got| + k)
    {
      assert FrameAt(c, table, ch', |ch'.got| + k) == FrameAt(c, table, ch, |ch.got| + k);
    }
  }

  // A frame written past the queue keeps the ends in step only because the queue is empty.
  lemma SendNowInStep<Tree, Table>(c: Codec<Tree, Table>, table: Table, ch: Channel<Tree, Table>, e: Entry<Tree>)
    requires InStep(c, table, ch) && ch.queue == []
    ensures InStep(c, table, SendNow(c, ch, e))
  {
    GrowInStep(c, table, ch, e, SendNow(c, ch, e));
  }

  lemma HeadDecodes<Tree(!new), Table(!new)>(c: Codec<Tree, Table>, table: Table, ch: Channel<Tree, Table>)
    requires RoundTrips(c) && InStep(c, table, ch) && ch.wire != []
    ensures |ch.got| < |ch.sent|
    ensures var e := ch.sent[|ch.got|];
            && ch.wire[0].correlation == e.correlation
            && c.decode(ch.wire[0].body, ch.mirror) == Some((e.tree, c.learn(e.tree, ch.mirror)))
  {
    var k := |ch.got|;
    assert Transit(ch)[0] == FrameAt(c, table, ch, k + 0);
    assert ch.sent[..k] == ch.got;
  }

  lemma ShiftInStep<Tree, Table>(c: Codec<Tree, Table>, table: Table, ch: Channel<Tree, Table>,
                                 ch': Channel<Tree, Table>)
    requires InStep(c, table, ch) && ch.wire != []
    requires |ch.got| < |ch.sent|
    requires var e := ch.sent[|ch.got|];
             ch' == ch.(wire := ch.wire[1..], mirror := c.learn(e.tree, ch.mirror), got := ch.got + [e])
    ensures InStep(c, table, ch')
  {
    var k := |ch.got|;
    assert ch'.got[..k] == ch.got;
    assert ch'.got == ch.sent[..k + 1];
    assert Transit(ch') == Transit(ch)[1..];
    forall j | 0 <= j < |Transit(ch')|
      ensures Transit(ch')[j] == FrameAt(c, table, ch', |ch'.got| + j)
    {
      assert Transit(ch')[j] == Transit(ch)[j + 1] == FrameAt(c, table, ch, k + (j + 1));
      assert FrameAt(c, table, ch', |ch'.got| + j) == FrameAt(c, table, ch, k + (j + 1));
    }
  }

  // The next frame is decoded into exactly the next tree encoded, and only its size
  // can refuse it.
  lemma ReceiveInStep<Tree(!new), Table(!new)>(c: Codec<Tree, Table>, table: Table, ch: Channel<Tree, Table>)
    requires RoundTrips(c) && InStep(c, table, ch) && ch.wire != []
    ensures |ch.got| < |ch.sent|
    ensures Receive(c, ch).Some? <==> Acceptable(ch.wire[0])
    ensures Receive(c, ch).Some? ==>
              var e := ch.sent[|ch.got|];
              && InStep(c, table, Receive(c, ch).value)
              && Receive(c, ch).value == ch.(wire := ch.wire[1..], mirror := c.learn(e.tree, ch.mirror),
                   got := ch.got + [e])
  {
    HeadDecodes(c, table, ch);
    if Acceptable(ch.wire[0]) {
      ShiftInStep(c, table, ch, Receive(c, ch).value);
    }
  }
}
