// The multiplexed cor:// connection as one labelled transition system: the client's
// coroutines with their write turn and read turn, the wire, and the server
// (corRestCor.c:1453-1510, 1714-1840, 2066-2104, 2130-2300 and 899-930, 1017-1046,
// 1186-1232). A step runs one coroutine, or the server, from one place where it
// yields to the next.
module CorMux {
  import opened Base
  import opened CorFrame
  import opened CorCodec
  import opened CorChannel

  // ---------------------------------------------------------------------------
  // State

  // Where a call's coroutine stands.
  datatype Phase =
    | WriteParked                      // in the writers' queue
    | WriteWoken                       // about to look at the write turn: new, or taken off the queue by a release
    | Connecting                       // both turns held, the HELLO under way
    | Sending(frame: Frame, pos: nat)  // the write turn held, pos bytes of its frame written
    | Started                          // the request is written, its caller does not wait yet
    | ReadParked                       // waits for its response, or for the read turn
    | ReadWoken                        // the same, woken
    | Reading                          // the read turn held, waiting for the socket
    | Finished

  datatype Outcome<Tree> = Pending | Replied(tree: Tree) | Failed

  // correlation: 0 until the request is encoded
  datatype Call<Tree> = Call(phase: Phase, correlation: nat, request: Tree, outcome: Outcome<Tree>)

  datatype Link = Closed | Open | Broken

  datatype Job<Tree> = Job(correlation: Word, request: Tree)
  datatype Answer<Tree> = Answer(correlation: Word, request: Tree, reply: Tree)

  datatype Mux<Tree, Table> = Mux(
    link: Link,
    all: seq<Call<Tree>>,          // every call ever started
    calls: seq<nat>,               // sent, response not yet in - newest first
    writing: bool,
    reading: bool,
    writers: seq<nat>,
    correlation: nat,
    up: Channel<Tree, Table>,      // requests
    frames: seq<Frame>,            // history: request frames written whole
    written: seq<Byte>,            // history: the bytes the client wrote
    inflight: seq<Job<Tree>>,      // requests the server has started
    dedicated: bool,               // the connection has a server thread of its own
    answered: seq<Answer<Tree>>,   // history: the responses the server built
    down: Channel<Tree, Table>)    // responses

  // The codec both ends were given, the table with n namespaces preloaded, and how
  // many namespaces each end has.
  datatype Config<!Tree, !Table> = Config(codec: Codec<Tree, Table>, preload: nat -> Table, ours: nat, theirs: nat)

  // tablesOpen: the namespaces both ends have.
  function TablesOpen<Tree, Table>(cfg: Config<Tree, Table>, own: nat, peer: nat): Table {
    cfg.preload(if peer < own then peer else own)
  }

  // Whichever end opens them: with the smaller of the two numbers.
  lemma SharedNamespaces<Tree, Table>(cfg: Config<Tree, Table>, own: nat, peer: nat, n: nat)
    requires n <= own && n <= peer && (n == own || n == peer)
    ensures TablesOpen(cfg, own, peer) == cfg.preload(n) == TablesOpen(cfg, peer, own)
  {
  }

  function Preloaded<Tree, Table>(cfg: Config<Tree, Table>): Table {
    TablesOpen(cfg, cfg.ours, cfg.theirs)
  }

  function Init<Tree, Table>(cfg: Config<Tree, Table>): Mux<Tree, Table> {
    Mux(Closed, [], [], false, false, [], 0,
        Fresh(FRAME_REQUEST, Preloaded(cfg)), [], [], [], false, [], Fresh(FRAME_RESPONSE, Preloaded(cfg)))
  }

  // ---------------------------------------------------------------------------
  // The pieces the steps are made of

  predicate Holds(c: Phase) { c.Connecting? || c.Sending? }

  predicate Reads(c: Phase) { c.Connecting? || c.Reading? }

  // Its park handle is set.
  predicate Parked(c: Phase) { c.ReadParked? || c.ReadWoken? }

  // Its request is encoded, and its caller not yet back.
  predicate Sent(c: Phase) { c.Sending? || c.Started? || Parked(c) || c.Reading? }

  function SetPhase<Tree, Table>(s: Mux<Tree, Table>, i: nat, p: Phase): Mux<Tree, Table>
    requires i < |s.all|
  {
    s.(all := s.all[i := s.all[i].(phase := p)])
  }

  function Without<T(==)>(calls: seq<T>, i: T): seq<T> {
    if calls == [] then []
    else if calls[0] == i then calls[1..]
    else [calls[0]] + Without(calls[1..], i)
  }

  // callDone: off the list, its outcome known, its coroutine woken if it waits.
  function CallDone<Tree, Table>(s: Mux<Tree, Table>, i: nat, outcome: Outcome<Tree>): Mux<Tree, Table>
    requires i < |s.all|
  {
    var c := s.all[i];
    s.(calls := Without(s.calls, i),
       all := s.all[i := c.(outcome := outcome, phase := if Parked(c.phase) then ReadWoken else c.phase)])
  }

  // muxFail: closed, and every call still waited for done with an error.
  function MuxFail<Tree, Table>(s: Mux<Tree, Table>): Mux<Tree, Table> {
    s.(link := Broken, calls := [],
       all := seq(|s.all|, i requires 0 <= i < |s.all| =>
         if i in s.calls then s.all[i].(outcome := Failed, phase := if Parked(s.all[i].phase) then ReadWoken
             else s.all[i].phase)
         else s.all[i]))
  }

  // writeTurn, when the turn is taken: to the end of the queue, and yield.
  function Park<Tree, Table>(s: Mux<Tree, Table>, i: nat): Mux<Tree, Table>
    requires i < |s.all|
  {
    SetPhase(s, i, WriteParked).(writers := s.writers + [i])
  }

  // writeTurnRelease: the first writer in the queue is woken.
  function ReleaseWrite<Tree, Table>(s: Mux<Tree, Table>): Mux<Tree, Table> {
    if s.writers == [] || s.writers[0] >= |s.all| then s.(writing := false)
    else SetPhase(s, s.writers[0], WriteWoken).(writing := false, writers := s.writers[1..])
  }

  // readTurnHandOff: the first parked call on the list is woken.
  function HandOff<Tree, Table>(s: Mux<Tree, Table>): Mux<Tree, Table> {
    var k := FirstIndex(s.calls, (i: nat) => i < |s.all| && Parked(s.all[i].phase));
    if k < |s.calls| then SetPhase(s, s.calls[k], ReadWoken) else s
  }

  // The end of corRestCorWait.
  function Finish<Tree, Table>(s: Mux<Tree, Table>, i: nat): Mux<Tree, Table>
    requires i < |s.all|
  {
    HandOff(SetPhase(s, i, Finished))
  }

  // Off the list, failed, and its caller back.
  function Fail<Tree, Table>(s: Mux<Tree, Table>, i: nat): Mux<Tree, Table>
    requires i < |s.all|
  {
    s.(calls := Without(s.calls, i), all := s.all[i := s.all[i].(outcome := Failed, phase := Finished)])
  }

  // The head of corRestCorWait's loop, up to where the coroutine yields again.
  function LoopTop<Tree, Table>(s: Mux<Tree, Table>, i: nat, timeUp: bool): Mux<Tree, Table>
    requires i < |s.all|
  {
    if !s.all[i].outcome.Pending? then Finish(s, i)
    else if timeUp then
      HandOff(Fail(s, i))
    else if s.reading then SetPhase(s, i, ReadParked)
    else SetPhase(s, i, Reading).(reading := true)
  }

  // corRestCorStart with the write turn and a connection: numbered, linked, encoded.
  function BeginSend<Tree, Table>(cfg: Config<Tree, Table>, s: Mux<Tree, Table>, i: nat): Mux<Tree, Table>
    requires i < |s.all| && CanSend(cfg, s, s.all[i].request)
  {
    var c := s.correlation + 1;
    var e := Entry(c, s.all[i].request);
    s.(writing := true,
       correlation := c,
       calls := [i] + s.calls,
       all := s.all[i := s.all[i].(correlation := c, phase := Sending(NewFrame(cfg.codec, s.up, e), 0))],
       up := Enqueue(cfg.codec, s.up, e))
  }

  // The HELLO is answered: both ends have opened their tables, each from its own counts.
  function Opened<Tree, Table>(cfg: Config<Tree, Table>, s: Mux<Tree, Table>): Mux<Tree, Table> {
    var client, server := TablesOpen(cfg, cfg.ours, cfg.theirs), TablesOpen(cfg, cfg.theirs, cfg.ours);
    s.(link := Open, reading := false,
       up := s.up.(out := client, mirror := server),
       down := s.down.(out := server, mirror := client))
  }

  // A correlation is left, and the encoding does not overflow its buffer.
  predicate CanSend<Tree, Table>(cfg: Config<Tree, Table>, s: Mux<Tree, Table>, request: Tree) {
    s.correlation + 1 < 0x1_0000_0000 && |cfg.codec.encode(request, s.up.out)| < 0x8000_0000
  }

  // writeTurn and what follows it, for a coroutine about to look at the turn.
  function WriteTurn<Tree, Table>(cfg: Config<Tree, Table>, s: Mux<Tree, Table>, i: nat): Mux<Tree, Table>
    requires i < |s.all| && (s.link == Open && !s.writing ==> CanSend(cfg, s, s.all[i].request))
  {
    if s.writing then Park(s, i)
    else if s.link == Open then BeginSend(cfg, s, i)
    else ReleaseWrite(Fail(s, i))
  }

  function Spawned<Tree, Table>(s: Mux<Tree, Table>, request: Tree): Mux<Tree, Table> {
    s.(all := s.all + [Call(WriteWoken, 0, request, Pending)])
  }

  // muxGet for a new call: the first one to a peer takes both turns and connects.
  function FirstTurn<Tree, Table>(cfg: Config<Tree, Table>, s: Mux<Tree, Table>, i: nat): Mux<Tree, Table>
    requires i < |s.all| && (s.link == Open && !s.writing ==> CanSend(cfg, s, s.all[i].request))
  {
    if s.link == Closed && !s.writing then SetPhase(s, i, Connecting).(writing := true, reading := true)
    else WriteTurn(cfg, s, i)
  }

  // readFrame: the next frame decoded, its call - if one still waits - done.
  function ReadFrame<Tree, Table>(cfg: Config<Tree, Table>, s: Mux<Tree, Table>): Mux<Tree, Table>
    requires s.down.wire != []
  {
    match Receive(cfg.codec, s.down)
    case None => MuxFail(s)
    case Some(down) =>
      var e := Entry(s.down.wire[0].correlation, down.got[|down.got| - 1].tree);
      var s' := s.(down := down);
      var k := FirstIndex(s.calls, (i: nat) => i < |s.all| && s.all[i].correlation == e.correlation);
      if k < |s.calls| then CallDone(s', s.calls[k], Replied(e.tree)) else s'
  }

  // The last byte of a frame is written.
  function FrameWritten<Tree, Table>(s: Mux<Tree, Table>, f: Frame): Mux<Tree, Table> {
    s.(frames := s.frames + [f],
       up := s.up.(wire := s.up.wire + [f], queue := if s.up.queue == [] then [] else s.up.queue[1..]))
  }

  // The writer puts k more bytes of its frame, and after the last one lets the turn go.
  function WritePart<Tree, Table>(s: Mux<Tree, Table>, i: nat, f: Frame, pos: nat, k: nat): Mux<Tree, Table>
    requires i < |s.all| && Encodable(f) && pos + k <= |FrameBytes(f)|
  {
    var s1 := s.(written := s.written + FrameBytes(f)[pos..pos + k]);
    if pos + k < |FrameBytes(f)| then SetPhase(s1, i, Sending(f, pos + k))
    else ReleaseWrite(SetPhase(FrameWritten(s1, f), i, Started))
  }

  // ---------------------------------------------------------------------------
  // The steps

  datatype Step<Tree> =
    | Ask(request: Tree)
    | WriterRuns(i: nat)
    | ConnectEnds(i: nat, ok: bool)
    | WriteSome(i: nat, k: nat)
    | SendFails(i: nat)
    | WaitBegins(i: nat, timeUp: bool)
    | ParkEnds(i: nat, timeUp: bool)
    | ReaderRuns(i: nat, ready: bool, timeUp: bool)
    | ReadFails(i: nat)
    | ServerTakes
    | ServerReplies(j: nat, reply: Tree)
    | ServerFlushes
    | ServerDedicates

  predicate Enabled<Tree, Table>(cfg: Config<Tree, Table>, s: Mux<Tree, Table>, step: Step<Tree>) {
    match step
    case Ask(request) =>
      // a broken connection is found by its name while its write turn is held
      (s.link != Broken || s.writing) && (s.link == Open && !s.writing ==> CanSend(cfg, s, request))
    case WriterRuns(i) =>
      && i < |s.all| && s.all[i].phase == WriteWoken
      && (s.link == Open && !s.writing ==> CanSend(cfg, s, s.all[i].request))
    case ConnectEnds(i, ok) =>
      && i < |s.all| && s.all[i].phase == Connecting
      && (ok ==> CanSend(cfg, Opened(cfg, s), s.all[i].request))
    case WriteSome(i, k) =>
      && i < |s.all| && s.all[i].phase.Sending? && s.link == Open && k > 0
      && Encodable(s.all[i].phase.frame)
      && s.all[i].phase.pos + k <= |FrameBytes(s.all[i].phase.frame)|
    case SendFails(i) =>
      i < |s.all| && s.all[i].phase.Sending?
    case WaitBegins(i, _) =>
      i < |s.all| && s.all[i].phase == Started
    case ParkEnds(i, _) =>
      i < |s.all| && Parked(s.all[i].phase)
    case ReaderRuns(i, ready, _) =>
      i < |s.all| && s.all[i].phase == Reading && (ready ==> s.link == Open && s.down.wire != [])
    case ReadFails(i) =>
      i < |s.all| && s.all[i].phase == Reading
    case ServerTakes =>
      && s.up.wire != [] && (s.dedicated ==> s.inflight == [])
      && Receive(cfg.codec, s.up).Some?
    case ServerReplies(j, reply) =>
      j < |s.inflight| && |cfg.codec.encode(reply, s.down.out)| < 0x8000_0000
    case ServerFlushes =>
      s.down.queue != []
    case ServerDedicates =>
      !s.dedicated && |s.inflight| == 1 && s.down.queue == []
  }

  function Next<Tree, Table>(cfg: Config<Tree, Table>, s: Mux<Tree, Table>, step: Step<Tree>): Mux<Tree, Table>
    requires Enabled(cfg, s, step)
  {
    match step
    case Ask(request) =>
      FirstTurn(cfg, Spawned(s, request), |s.all|)
    case WriterRuns(i) =>
      WriteTurn(cfg, s, i)
    case ConnectEnds(i, ok) =>
      if ok then
        BeginSend(cfg, Opened(cfg, s), i)
      else
        ReleaseWrite(Fail(s.(reading := false), i))
    case WriteSome(i, k) =>
      WritePart(s, i, s.all[i].phase.frame, s.all[i].phase.pos, k)
    case SendFails(i) =>
      MuxFail(ReleaseWrite(Fail(s, i)))
    case WaitBegins(i, timeUp) =>
      LoopTop(s, i, timeUp)
    case ParkEnds(i, timeUp) =>
      LoopTop(SetPhase(s, i, Started), i, timeUp)
    case ReaderRuns(i, ready, timeUp) =>
      var s1 := if ready then ReadFrame(cfg, s) else s;
      LoopTop(SetPhase(s1, i, Started).(reading := false), i, timeUp)
    case ReadFails(i) =>
      LoopTop(SetPhase(MuxFail(s), i, Started).(reading := false), i, true)
    case ServerTakes =>
      var up := Receive(cfg.codec, s.up).value;
      var e := up.got[|up.got| - 1];
      s.(up := up, inflight := s.inflight + [Job(e.correlation, e.tree)])
    case ServerReplies(j, reply) =>
      var job := s.inflight[j];
      var e := Entry(job.correlation, reply);
      s.(inflight := s.inflight[..j] + s.inflight[j + 1..],
         answered := s.answered + [Answer(job.correlation, job.request, reply)],
         down := if s.dedicated then SendNow(cfg.codec, s.down, e) else Enqueue(cfg.codec, s.down, e))
    case ServerFlushes =>
      s.(down := Written(s.down))
    case ServerDedicates =>
      s.(dedicated := true)
  }

  // What a run of steps leads to; None when a step was not enabled.
  function Run<Tree, Table>(cfg: Config<Tree, Table>, steps: seq<Step<Tree>>): Option<Mux<Tree, Table>> {
    if steps == [] then Some(Init(cfg))
    else
      match Run(cfg, steps[..|steps| - 1])
      case None => None
      case Some(s) =>
        if Enabled(cfg, s, steps[|steps| - 1]) then Some(Next(cfg, s, steps[|steps| - 1])) else None
  }
}
