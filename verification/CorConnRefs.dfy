// A server connection's references (corRestCor.c:545-583, 813-848, 1016-1092 and
// 1269-1343), as steps of the threads that hold one: its event loop or its dedicated
// thread, the handler of one event, every request in flight, and every request that has
// given its memory back but not its reference yet. Every atomic operation is a step.
module CorConnRefs {
  import opened Base

  // Who has the connection's own reference. Dropping: the socket is closed, the reference
  // about to go.
  datatype Owner = OnLoop | OnThread | Dropping | Gone

  // A request's block of memory is being got, in flight, the spare, or freed.
  datatype Conn = Conn(
    owner: Owner, hold: bool, dead: bool, dedicated: bool, refs: int,
    open: bool, closes: nat, freed: nat,
    blocks: nat, getting: Option<nat>, inFlight: set<nat>, spare: Option<nat>, blocksFreed: set<nat>, releasing: nat)

  const ACCEPTED := Conn(OnLoop, false, false, false, 1, true, 0, 0, 0, None, {}, None, {}, 0)

  datatype Step =
    | EventStart                  // serverLoop: the hold
    | EventEnd
    | TakeBlock                   // reqGet: the spare, or a new one
    | AddRef                      // reqGet: the request's reference
    | GiveBlock(b: nat)           // reqRelease: to the spare, or freed
    | DropRef                     // reqRelease: the request's reference
    | Die                         // connDie, up to its connUnref
    | Dedicate                    // connDedicate
    | ThreadEnd                   // dedicatedThread, up to its connUnref
    | DropOwn                     // the connUnref of the two

  // The one that reads requests: the handler of an event, or the dedicated thread.
  predicate Reading(c: Conn) {
    (c.hold && c.owner == OnLoop && !c.dead && !c.dedicated) || c.owner == OnThread
  }

  predicate Enabled(c: Conn, step: Step) {
    match step
    case EventStart => c.owner == OnLoop && !c.hold
    case EventEnd =>
      // the handler's own drop comes first
      c.hold && (c.owner == Dropping ==> c.dedicated) && (c.getting.None? || c.owner == OnThread)
    case TakeBlock => Reading(c) && c.getting.None?
    case AddRef => Reading(c) && c.getting.Some?
    case GiveBlock(b) => b in c.inFlight
    case DropRef => c.releasing > 0
    case Die =>
      // under the hold: connInput, or the flush, of an event's handler; without it: the
      // flush of a request whose coroutine the loop resumed outside any event of this
      // connection, when its response is queued
      (c.hold || c.inFlight != {}) && c.owner == OnLoop && c.getting.None?
    case Dedicate => c.hold && c.owner == OnLoop && c.getting.None? && c.inFlight != {}
    case ThreadEnd => c.owner == OnThread && c.getting.None?
    case DropOwn => c.owner == Dropping
  }

  // connClose
  function Closed(c: Conn): Conn {
    if c.open then c.(open := false, closes := c.closes + 1) else c
  }

  function SpareSet(c: Conn): set<nat> {
    if c.spare.Some? then {c.spare.value} else {}
  }

  // connUnref: the last one closes what is open and frees what is left.
  function Unref(c: Conn): Conn {
    var d := c.(refs := c.refs - 1);
    if d.refs != 0 then d
    else Closed(d).(spare := None, blocksFreed := d.blocksFreed + SpareSet(d), freed := d.freed + 1)
  }

  function Do(c: Conn, step: Step): Conn
    requires Enabled(c, step)
  {
    match step
    case EventStart => c.(hold := true, refs := c.refs + 1)
    case EventEnd => Unref(c.(hold := false))
    case TakeBlock =>
      if c.spare.Some? then c.(getting := c.spare, spare := None)
      else c.(getting := Some(c.blocks), blocks := c.blocks + 1)
    case AddRef => c.(getting := None, inFlight := c.inFlight + {c.getting.value}, refs := c.refs + 1)
    case GiveBlock(b) =>
      var d := c.(inFlight := c.inFlight - {b}, releasing := c.releasing + 1);
      if c.spare.None? then d.(spare := Some(b)) else d.(blocksFreed := c.blocksFreed + {b})
    case DropRef => Unref(c.(releasing := c.releasing - 1))
    case Die => Closed(c.(dead := true, owner := Dropping))
    case Dedicate => c.(dedicated := true, owner := OnThread)
    case ThreadEnd => Closed(c.(owner := Dropping))
    case DropOwn => Unref(c.(owner := Gone))
  }

  // ---------------------------------------------------------------------------
  // What every interleaving keeps

  function Holders(c: Conn): int {
    (if c.owner == Gone then 0 else 1) + (if c.hold then 1 else 0) + |c.inFlight| + c.releasing
  }

  predicate Counted(c: Conn) {
    c.refs == Holders(c) && c.freed == (if c.refs == 0 then 1 else 0)
  }

  predicate SocketOk(c: Conn) {
    && c.closes == (if c.open then 0 else 1)
    && (c.owner == OnLoop || c.owner == OnThread <==> c.open)
    && (c.dead ==> !c.open) && (c.owner == OnLoop ==> !c.dead && !c.dedicated)
  }

  predicate Placed(c: Conn, b: nat) {
    c.getting == Some(b) || b in c.inFlight || c.spare == Some(b) || b in c.blocksFreed
  }

  // Every block is somewhere.
  ghost predicate AllPlaced(c: Conn) {
    forall b: nat :: Placed(c, b) <==> b < c.blocks
  }

  // And in one place only.
  ghost predicate Apart(c: Conn) {
    && (c.getting.Some? ==> c.getting.value !in c.inFlight + c.blocksFreed && c.spare != c.getting)
    && (c.spare.Some? ==> c.spare.value !in c.inFlight + c.blocksFreed)
    && c.inFlight !! c.blocksFreed
  }

  ghost predicate BlocksOk(c: Conn) {
    AllPlaced(c) && Apart(c) && (c.getting.Some? ==> Reading(c)) && (c.refs == 0 ==> c.spare.None?)
  }

  ghost predicate Inv(c: Conn) {
    Counted(c) && SocketOk(c) && BlocksOk(c)
  }

  lemma CountAdd(s: set<nat>, b: nat)
    requires b !in s
    ensures |s + {b}| == |s| + 1
  {
  }

  lemma CountRemove(s: set<nat>, b: nat)
    requires b in s
    ensures |s - {b}| == |s| - 1
  {
  }

  lemma AddRefCounts(c: Conn)
    requires Counted(c) && Enabled(c, AddRef) && c.getting.value !in c.inFlight
    ensures Counted(Do(c, AddRef))
  {
    CountAdd(c.inFlight, c.getting.value);
  }

  lemma GiveBlockCounts(c: Conn, b: nat)
    requires Counted(c) && b in c.inFlight
    ensures Counted(Do(c, GiveBlock(b)))
  {
    CountRemove(c.inFlight, b);
  }

  lemma KeepsCount(c: Conn, step: Step)
    requires Inv(c) && Enabled(c, step)
    ensures Counted(Do(c, step))
  {
    hide SocketOk, Placed, Counted, Do;
    match step
    case AddRef => AddRefCounts(c);
    case GiveBlock(b) => GiveBlockCounts(c, b);
    case _ => UnrefCounts(c, step);
  }

  lemma UnrefCounts(c: Conn, step: Step)
    requires Counted(c) && Enabled(c, step) && !step.AddRef? && !step.GiveBlock?
    ensures Counted(Do(c, step))
  {
  }

  lemma KeepsSocket(c: Conn, step: Step)
    requires Inv(c) && Enabled(c, step)
    ensures SocketOk(Do(c, step))
  {
    hide BlocksOk;
  }

  // A block that is being got is got by one that still reads.
  lemma StillReads(c: Conn, step: Step)
    requires Inv(c) && Enabled(c, step)
    ensures Do(c, step).getting.Some? ==> Reading(Do(c, step))
  {
    hide BlocksOk, Placed, Counted;
    GettingReads(c);
  }

  lemma GettingReads(c: Conn)
    requires BlocksOk(c)
    ensures c.getting.Some? ==> Reading(c)
  {
  }

  lemma KeepsPlaced(c: Conn, step: Step)
    requires Inv(c) && Enabled(c, step)
    ensures AllPlaced(Do(c, step))
  {
    hide SocketOk, Counted, Holders, Apart, Reading;
    var d := Do(c, step);
    forall b: nat ensures Placed(d, b) <==> b < d.blocks {
      assert Placed(c, b) <==> b < c.blocks;
    }
  }

  lemma KeepsApart(c: Conn, step: Step)
    requires Inv(c) && Enabled(c, step)
    ensures Apart(Do(c, step)) && (Do(c, step).refs == 0 ==> Do(c, step).spare.None?)
  {
    hide SocketOk, Counted, Holders, Reading;
    NoUseAfterFree(c, step);
    assert !Placed(c, c.blocks);
  }

  lemma KeepsBlocks(c: Conn, step: Step)
    requires Inv(c) && Enabled(c, step)
    ensures BlocksOk(Do(c, step))
  {
    hide SocketOk, Counted, Holders, AllPlaced, Apart, Do, Enabled, Reading;
    KeepsPlaced(c, step);
    KeepsApart(c, step);
    StillReads(c, step);
  }

  lemma StepKeeps(c: Conn, step: Step)
    requires Inv(c) && Enabled(c, step)
    ensures Inv(Do(c, step))
  {
    hide Do, Counted, SocketOk, BlocksOk;
    KeepsCount(c, step);
    KeepsSocket(c, step);
    KeepsBlocks(c, step);
  }

  // A step is only ever taken by one that holds the connection: none after it was freed.
  lemma NoUseAfterFree(c: Conn, step: Step)
    requires Inv(c) && Enabled(c, step)
    ensures c.freed == 0 && c.refs > 0
  {
    match step
    case GiveBlock(b) => assert |c.inFlight| > 0;
    case _ =>
  }

  ghost predicate Runs(c: Conn, steps: seq<Step>)
    decreases |steps|
  {
    steps == [] || (Enabled(c, steps[0]) && Runs(Do(c, steps[0]), steps[1..]))
  }

  function After(c: Conn, steps: seq<Step>): Conn
    requires Runs(c, steps)
    decreases |steps|
  {
    if steps == [] then c else After(Do(c, steps[0]), steps[1..])
  }

  lemma {:induction false} RunKeeps(c: Conn, steps: seq<Step>)
    requires Inv(c) && Runs(c, steps)
    ensures Inv(After(c, steps))
    decreases |steps|
  {
    if steps != [] {
      StepKeeps(c, steps[0]);
      RunKeeps(Do(c, steps[0]), steps[1..]);
    }
  }

  // From its acceptance on, whatever the order: the count is the holders there are; the
  // connection is freed when the last one lets go, and once; its socket is closed once at
  // most, and is when it is freed; and then every block of a request was freed too.
  lemma EveryRun(steps: seq<Step>)
    requires Runs(ACCEPTED, steps)
    ensures var c := After(ACCEPTED, steps);
            && c.refs == Holders(c) && c.freed <= 1 && c.closes <= 1
            && (c.freed == 1 <==> c.owner == Gone && !c.hold && c.inFlight == {} && c.releasing == 0)
            && (c.freed == 1 ==> !c.open && c.closes == 1)
            && (c.freed == 1 ==> forall b: nat :: b in c.blocksFreed <==> b < c.blocks)
  {
    assert Inv(ACCEPTED) by {
      assert forall b: nat :: !Placed(ACCEPTED, b);
    }
    RunKeeps(ACCEPTED, steps);
    var c := After(ACCEPTED, steps);
    assert |c.inFlight| == 0 <==> c.inFlight == {};
    if c.freed == 1 {
      assert c.getting.None? && c.spare.None? && c.inFlight == {};
      assert forall b: nat :: Placed(c, b) <==> b in c.blocksFreed;
    }
  }

  // And it always comes to that: a connection the loop or its thread has done with is freed
  // once what is left of it - the handler and the requests - has let go, in as many steps
  // as they have left.
  function Left(c: Conn): nat {
    2 * |c.inFlight| + c.releasing + (if c.hold then 1 else 0) + (if c.owner == Dropping then 1 else 0)
  }

  lemma DoneWithEnds(c: Conn, step: Step)
    requires Inv(c) && Enabled(c, step) && (c.owner == Dropping || c.owner == Gone)
    ensures (Do(c, step).owner == Dropping || Do(c, step).owner == Gone) && Left(Do(c, step)) < Left(c)
  {
    hide BlocksOk, SocketOk;
    match step
    case GiveBlock(b) => CountRemove(c.inFlight, b);
    case _ =>
  }

  lemma DoneWithGetsOn(c: Conn) returns (step: Step)
    requires Inv(c) && (c.owner == Dropping || c.owner == Gone) && c.freed == 0
    ensures Enabled(c, step)
  {
    if c.owner == Dropping {
      step := DropOwn;
    } else if c.hold {
      step := EventEnd;
    } else if c.releasing > 0 {
      step := DropRef;
    } else {
      assert |c.inFlight| > 0;
      assert c.inFlight != {};
      var b :| b in c.inFlight;
      step := GiveBlock(b);
    }
  }
}
