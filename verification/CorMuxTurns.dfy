// The two turns of the multiplexed connection, over every run of CorMux: the write
// turn and the read turn are held by one coroutine at most, and nobody who waits for
// one is forgotten (corRestCor.c:1785-1840, 1936-1947, 2074-2076 and 2236-2307).
module CorMuxTurns {
  import opened Base
  import opened CorFrame
  import opened CorCodec
  import opened CorChannel
  import opened CorMux

  // ---------------------------------------------------------------------------
  // The invariant

  // The list of calls: exactly those sent whose outcome is open, each once.
  ghost predicate CallsOk<Tree, Table>(s: Mux<Tree, Table>) {
    && Distinct(s.calls)
    && (forall i :: i in s.calls ==> i < |s.all| && Sent(s.all[i].phase) && s.all[i].outcome.Pending?)
    && (forall i :: 0 <= i < |s.all| && Sent(s.all[i].phase) && s.all[i].outcome.Pending? ==> i in s.calls)
  }

  // Its request is not encoded yet.
  predicate BeforeSending(p: Phase) {
    p.WriteParked? || p.WriteWoken? || p.Connecting?
  }

  // What a phase says of the rest.
  ghost predicate PhasesOk<Tree, Table>(s: Mux<Tree, Table>) {
    && (forall i :: 0 <= i < |s.all| && BeforeSending(s.all[i].phase) ==> s.all[i].outcome.Pending?)
    && (forall i :: 0 <= i < |s.all| && s.all[i].phase.ReadParked? ==> s.all[i].outcome.Pending?)
    && (forall i :: 0 <= i < |s.all| && s.all[i].phase.Finished? ==> !s.all[i].outcome.Pending?)
    && (forall i :: 0 <= i < |s.all| && s.all[i].phase.Connecting? ==> s.link.Closed?)
    && (s.link.Closed? ==> forall i :: 0 <= i < |s.all| ==> !Sent(s.all[i].phase))
    && (!s.link.Open? ==> s.calls == [])
  }

  // The write turn.
  ghost predicate WriteOk<Tree, Table>(s: Mux<Tree, Table>) {
    && (forall i, j :: 0 <= i < |s.all| && 0 <= j < |s.all| && Holds(s.all[i].phase) && Holds(s.all[j].phase) ==>
         i == j)
    && (s.writing <==> exists i :: 0 <= i < |s.all| && Holds(s.all[i].phase))
    && Distinct(s.writers)
    && (forall i :: i in s.writers <==> 0 <= i < |s.all| && s.all[i].phase.WriteParked?)
    && (s.writers != [] ==> s.writing || exists i :: 0 <= i < |s.all| && s.all[i].phase.WriteWoken?)
  }

  // The read turn.
  ghost predicate ReadOk<Tree, Table>(s: Mux<Tree, Table>) {
    && (forall i, j :: 0 <= i < |s.all| && 0 <= j < |s.all| && Reads(s.all[i].phase) && Reads(s.all[j].phase) ==>
         i == j)
    && (s.reading <==> exists i :: 0 <= i < |s.all| && Reads(s.all[i].phase))
    && ((exists i :: 0 <= i < |s.all| && s.all[i].phase.ReadParked?) ==>
          s.reading || exists i :: 0 <= i < |s.all| && s.all[i].phase.ReadWoken?)
  }

  ghost predicate TurnsOk<Tree, Table>(s: Mux<Tree, Table>) {
    CallsOk(s) && PhasesOk(s) && WriteOk(s) && ReadOk(s)
  }

  // ---------------------------------------------------------------------------
  // Framing: what each invariant looks at

  // A phase, as the write turn sees it and as the read turn sees it.
  ghost function WriteClass(p: Phase): nat {
    if Holds(p) then 1 else if p.WriteParked? then 2 else if p.WriteWoken? then 3 else 0
  }

  ghost function ReadClass(p: Phase): nat {
    if Reads(p) then 1 else if p.ReadParked? then 2 else if p.ReadWoken? then 3 else 0
  }

  lemma WriteSame<Tree, Table>(s: Mux<Tree, Table>, s': Mux<Tree, Table>)
    requires WriteOk(s)
    requires |s'.all| == |s.all| && s'.writing == s.writing && s'.writers == s.writers
    requires forall i :: 0 <= i < |s.all| ==> WriteClass(s'.all[i].phase) == WriteClass(s.all[i].phase)
    ensures WriteOk(s')
  {
    if i :| 0 <= i < |s.all| && Holds(s.all[i].phase) {
      assert WriteClass(s'.all[i].phase) == 1;
    }
    if i :| 0 <= i < |s.all| && s.all[i].phase.WriteWoken? {
      assert WriteClass(s'.all[i].phase) == 3;
    }
  }

  // The read turn's promise set aside.
  ghost predicate ReadCore<Tree, Table>(s: Mux<Tree, Table>) {
    && (forall i, j :: 0 <= i < |s.all| && 0 <= j < |s.all| && Reads(s.all[i].phase) && Reads(s.all[j].phase) ==>
         i == j)
    && (s.reading <==> exists i :: 0 <= i < |s.all| && Reads(s.all[i].phase))
  }

  lemma CoreOfRead<Tree, Table>(s: Mux<Tree, Table>)
    requires ReadOk(s)
    ensures ReadCore(s)
  {
  }

  lemma ReadCoreSame<Tree, Table>(s: Mux<Tree, Table>, s': Mux<Tree, Table>)
    requires ReadCore(s)
    requires |s'.all| == |s.all| && s'.reading == s.reading
    requires forall i :: 0 <= i < |s.all| ==> Reads(s'.all[i].phase) == Reads(s.all[i].phase)
    ensures ReadCore(s')
  {
    if i :| 0 <= i < |s.all| && Reads(s.all[i].phase) {
      assert Reads(s'.all[i].phase);
    }
  }

  // Same reader; nobody newly parked, and nobody woken put back.
  lemma ReadSame<Tree, Table>(s: Mux<Tree, Table>, s': Mux<Tree, Table>)
    requires ReadOk(s)
    requires |s'.all| == |s.all| && s'.reading == s.reading
    requires forall i :: 0 <= i < |s.all| ==>
               || ReadClass(s'.all[i].phase) == ReadClass(s.all[i].phase)
               || (s.all[i].phase.ReadParked? && s'.all[i].phase.ReadWoken?)
    ensures ReadOk(s')
  {
    forall i | 0 <= i < |s.all|
      ensures Reads(s'.all[i].phase) == Reads(s.all[i].phase)
    {
      assert ReadClass(s'.all[i].phase) == 1 <==> ReadClass(s.all[i].phase) == 1;
    }
    ReadCoreSame(s, s');
    if i :| 0 <= i < |s.all| && s.all[i].phase.ReadWoken? {
      assert ReadClass(s'.all[i].phase) == 3;
    }
    if i :| 0 <= i < |s.all| && s'.all[i].phase.ReadParked? {
      assert ReadClass(s.all[i].phase) == 2;
    }
  }

  // ---------------------------------------------------------------------------
  // The list of calls

  lemma DistinctTail(calls: seq<nat>)
    requires Distinct(calls) && calls != []
    ensures Distinct(calls[1..]) && calls[0] !in calls[1..]
  {
    assert forall a :: 0 <= a < |calls| - 1 ==> calls[1..][a] == calls[a + 1];
  }

  lemma {:induction false} WithoutIs(calls: seq<nat>, i: nat)
    requires Distinct(calls)
    ensures Distinct(Without(calls, i))
    ensures forall j :: j in Without(calls, i) <==> j in calls && j != i
  {
    if calls != [] {
      DistinctTail(calls);
      assert forall j :: j in calls <==> j == calls[0] || j in calls[1..];
      if calls[0] != i {
        WithoutIs(calls[1..], i);
        var rest := Without(calls[1..], i);
        assert forall a :: 1 <= a < |[calls[0]] + rest| ==> ([calls[0]] + rest)[a] == rest[a - 1];
      }
    }
  }

  lemma HandOffIs<Tree, Table>(s: Mux<Tree, Table>)
    ensures
      || HandOff(s) == s
      || exists w ::
           w in s.calls && w < |s.all| && Parked(s.all[w].phase) && HandOff(s) == SetPhase(s, w, ReadWoken)
    ensures |HandOff(s).all| == |s.all|
    ensures (exists w :: 0 <= w < |s.all| && HandOff(s).all[w].phase.ReadWoken?)
            || (forall w :: w in s.calls && w < |s.all| ==> !Parked(s.all[w].phase))
  {
    var k := FirstIndex(s.calls, (i: nat) => i < |s.all| && Parked(s.all[i].phase));
    if k < |s.calls| {
      assert s.calls[k] in s.calls;
      assert HandOff(s).all[s.calls[k]].phase == ReadWoken;
    }
  }

  // Nothing that CallsOk and PhasesOk look at changed but parked calls woken.
  lemma CallsSame<Tree, Table>(s: Mux<Tree, Table>, s': Mux<Tree, Table>)
    requires CallsOk(s) && PhasesOk(s)
    requires |s'.all| == |s.all| && s'.calls == s.calls && s'.link == s.link
    requires forall i :: 0 <= i < |s.all| ==>
               && s'.all[i].outcome == s.all[i].outcome
               && (s'.all[i].phase == s.all[i].phase
                   || (Sent(s.all[i].phase) && Sent(s'.all[i].phase)
                       && (s'.all[i].phase.ReadParked? ==> s.all[i].outcome.Pending?))
                   || (s.all[i].phase.WriteWoken? && s'.all[i].phase.WriteParked?)
                   || (s.all[i].phase.WriteParked? && s'.all[i].phase.WriteWoken?))
    ensures CallsOk(s') && PhasesOk(s')
  {
  }

  lemma FailKeepsCalls<Tree, Table>(s: Mux<Tree, Table>, i: nat)
    requires CallsOk(s) && PhasesOk(s) && i < |s.all|
    ensures CallsOk(Fail(s, i)) && PhasesOk(Fail(s, i))
  {
    WithoutIs(s.calls, i);
  }

  lemma CallDoneKeepsCalls<Tree, Table>(s: Mux<Tree, Table>, i: nat, outcome: Outcome<Tree>)
    requires CallsOk(s) && PhasesOk(s) && i < |s.all| && !outcome.Pending? && Sent(s.all[i].phase)
    ensures CallsOk(CallDone(s, i, outcome)) && PhasesOk(CallDone(s, i, outcome))
  {
    WithoutIs(s.calls, i);
  }

  lemma MuxFailKeepsCalls<Tree, Table>(s: Mux<Tree, Table>)
    requires CallsOk(s) && PhasesOk(s)
    requires forall i :: 0 <= i < |s.all| ==> !s.all[i].phase.Connecting?
    ensures CallsOk(MuxFail(s)) && PhasesOk(MuxFail(s))
  {
  }

  // A call whose outcome is known may end.
  lemma EndKeepsCalls<Tree, Table>(s: Mux<Tree, Table>, i: nat)
    requires CallsOk(s) && PhasesOk(s) && i < |s.all| && !s.all[i].outcome.Pending?
    ensures CallsOk(SetPhase(s, i, Finished)) && PhasesOk(SetPhase(s, i, Finished))
  {
  }

  // ---------------------------------------------------------------------------
  // The write turn's pieces

  lemma ParkKeepsWrite<Tree, Table>(s: Mux<Tree, Table>, i: nat)
    requires WriteOk(s) && i < |s.all| && s.all[i].phase.WriteWoken? && s.writing
    ensures WriteOk(Park(s, i))
  {
    var s' := Park(s, i);
    var h :| 0 <= h < |s.all| && Holds(s.all[h].phase);
    assert Holds(s'.all[h].phase);
    assert i !in s.writers;
  }

  lemma TakeKeepsWrite<Tree, Table>(s: Mux<Tree, Table>, i: nat, p: Phase)
    requires WriteOk(s) && i < |s.all| && s.all[i].phase.WriteWoken? && !s.writing && Holds(p)
    ensures WriteOk(SetPhase(s, i, p).(writing := true))
  {
    var s' := SetPhase(s, i, p).(writing := true);
    assert Holds(s'.all[i].phase);
  }

  lemma WriterAtHead<Tree, Table>(s: Mux<Tree, Table>)
    requires WriteOk(s)
    ensures s.writers != [] ==> s.writers[0] < |s.all| && s.all[s.writers[0]].phase.WriteParked?
  {
    if s.writers != [] {
      assert s.writers[0] in s.writers;
    }
  }

  lemma HolderWrites<Tree, Table>(s: Mux<Tree, Table>, i: nat)
    requires WriteOk(s) && i < |s.all| && Holds(s.all[i].phase)
    ensures s.writing
  {
  }

  // Nobody holds the turn, and the queue is right.
  ghost predicate NoHolder<Tree, Table>(s: Mux<Tree, Table>) {
    && Distinct(s.writers)
    && (forall j :: 0 <= j < |s.all| ==> WriteClass(s.all[j].phase) != 1)
    && (forall j :: j in s.writers <==> 0 <= j < |s.all| && WriteClass(s.all[j].phase) == 2)
  }

  lemma FreedKeepsWrite<Tree, Table>(s: Mux<Tree, Table>)
    requires NoHolder(s)
    ensures WriteOk(ReleaseWrite(s))
  {
    var s' := ReleaseWrite(s);
    if s.writers != [] {
      var w := s.writers[0];
      DistinctTail(s.writers);
      assert forall j :: j in s.writers <==> j == w || j in s.writers[1..];
      assert WriteClass(s.all[w].phase) == 2;
      assert s'.all[w].phase.WriteWoken?;
    }
  }

  // i lets go of the turn, or finds it useless, and goes on as anything else (s1).
  lemma ReleaseKeepsWrite<Tree, Table>(s: Mux<Tree, Table>, i: nat, s1: Mux<Tree, Table>)
    requires WriteOk(s) && i < |s.all|
    requires Holds(s.all[i].phase) || (s.all[i].phase.WriteWoken? && !s.writing)
    requires |s1.all| == |s.all| && s1.writers == s.writers && WriteClass(s1.all[i].phase) == 0
    requires forall j :: 0 <= j < |s.all| && j != i ==> WriteClass(s1.all[j].phase) == WriteClass(s.all[j].phase)
    ensures WriteOk(ReleaseWrite(s1))
  {
    hide ReleaseWrite;
    assert forall j :: 0 <= j < |s.all| && j != i ==> WriteClass(s.all[j].phase) != 1;
    assert forall j :: 0 <= j < |s.all| ==> (WriteClass(s.all[j].phase) == 2 <==> s.all[j].phase.WriteParked?);
    FreedKeepsWrite(s1);
  }

  // ---------------------------------------------------------------------------
  // The read turn's pieces

  // A coroutine that holds nothing looks at the loop's head: whatever it does, the
  // parked calls have somebody.
  lemma LoopTopKeepsRead<Tree, Table>(s: Mux<Tree, Table>, i: nat, timeUp: bool)
    requires CallsOk(s) && PhasesOk(s) && ReadCore(s) && i < |s.all| && s.all[i].phase.Started?
    ensures ReadOk(LoopTop(s, i, timeUp))
  {
    if !s.all[i].outcome.Pending? {
      FinishKeepsRead(s, i);
    } else if timeUp {
      FailKeepsCalls(s, i);
      ReadCoreSame(s, Fail(s, i));
      HandOffKeepsRead(Fail(s, i));
    } else if s.reading {
      var s' := SetPhase(s, i, ReadParked);
      ReadCoreSame(s, s');
    } else {
      assert Reads(LoopTop(s, i, timeUp).all[i].phase);
    }
  }

  lemma FinishKeepsRead<Tree, Table>(s: Mux<Tree, Table>, i: nat)
    requires CallsOk(s) && PhasesOk(s) && ReadCore(s) && i < |s.all| && !s.all[i].outcome.Pending?
    requires s.all[i].phase.Started?
    ensures ReadOk(Finish(s, i))
  {
    EndKeepsCalls(s, i);
    var s1 := SetPhase(s, i, Finished);
    ReadCoreSame(s, s1);
    HandOffKeepsRead(s1);
  }

  lemma HandOffKeepsRead<Tree, Table>(s: Mux<Tree, Table>)
    requires CallsOk(s) && PhasesOk(s) && ReadCore(s)
    ensures ReadOk(HandOff(s))
  {
    HandOffIs(s);
    var s' := HandOff(s);
    ReadCoreSame(s, s');
    if w :| 0 <= w < |s.all| && s'.all[w].phase.ReadWoken? {
    } else {
      forall w | 0 <= w < |s.all|
        ensures !s'.all[w].phase.ReadParked?
      {
        assert s.all[w].phase.ReadParked? ==> w in s.calls;
      }
    }
  }

  lemma FinishKeepsCalls<Tree, Table>(s: Mux<Tree, Table>, i: nat)
    requires CallsOk(s) && PhasesOk(s) && i < |s.all| && !s.all[i].outcome.Pending?
    ensures CallsOk(Finish(s, i)) && PhasesOk(Finish(s, i))
  {
    EndKeepsCalls(s, i);
    HandOffKeepsCalls(SetPhase(s, i, Finished));
  }

  lemma HandOffKeepsCalls<Tree, Table>(s: Mux<Tree, Table>)
    requires CallsOk(s) && PhasesOk(s)
    ensures CallsOk(HandOff(s)) && PhasesOk(HandOff(s))
  {
    HandOffIs(s);
    CallsSame(s, HandOff(s));
  }

  lemma LoopTopKeepsCalls<Tree, Table>(s: Mux<Tree, Table>, i: nat, timeUp: bool)
    requires CallsOk(s) && PhasesOk(s) && i < |s.all| && s.all[i].phase.Started?
    ensures CallsOk(LoopTop(s, i, timeUp)) && PhasesOk(LoopTop(s, i, timeUp))
  {
    if !s.all[i].outcome.Pending? {
      FinishKeepsCalls(s, i);
    } else if timeUp {
      FailKeepsCalls(s, i);
      HandOffKeepsCalls(Fail(s, i));
    } else {
      CallsSame(s, LoopTop(s, i, timeUp));
    }
  }

  lemma FinishKeepsWrite<Tree, Table>(s: Mux<Tree, Table>, i: nat)
    requires WriteOk(s) && i < |s.all| && s.all[i].phase.Started?
    ensures WriteOk(Finish(s, i))
  {
    WriteSame(s, SetPhase(s, i, Finished));
    HandOffKeepsWrite(SetPhase(s, i, Finished));
  }

  lemma HandOffKeepsWrite<Tree, Table>(s: Mux<Tree, Table>)
    requires WriteOk(s)
    ensures WriteOk(HandOff(s))
  {
    HandOffIs(s);
    WriteSame(s, HandOff(s));
  }

  lemma LoopTopKeepsWrite<Tree, Table>(s: Mux<Tree, Table>, i: nat, timeUp: bool)
    requires WriteOk(s) && i < |s.all| && s.all[i].phase.Started?
    ensures WriteOk(LoopTop(s, i, timeUp))
  {
    if !s.all[i].outcome.Pending? {
      FinishKeepsWrite(s, i);
    } else if timeUp {
      WriteSame(s, Fail(s, i));
      HandOffKeepsWrite(Fail(s, i));
    } else {
      WriteSame(s, LoopTop(s, i, timeUp));
    }
  }

  // ---------------------------------------------------------------------------
  // The steps

  lemma SpawnKeepsWrite<Tree, Table>(s: Mux<Tree, Table>, request: Tree)
    requires WriteOk(s)
    ensures WriteOk(Spawned(s, request))
  {
    var s', n := Spawned(s, request), |s.all|;
    assert forall i :: 0 <= i < n ==> s'.all[i] == s.all[i];
    if i :| 0 <= i < n && Holds(s.all[i].phase) { assert Holds(s'.all[i].phase); }
    if i :| 0 <= i < n && s.all[i].phase.WriteWoken? { assert s'.all[i].phase.WriteWoken?; }
  }

  lemma SpawnKeepsRead<Tree, Table>(s: Mux<Tree, Table>, request: Tree)
    requires ReadOk(s)
    ensures ReadOk(Spawned(s, request))
  {
    var s', n := Spawned(s, request), |s.all|;
    assert forall i :: 0 <= i < n ==> s'.all[i] == s.all[i];
    if i :| 0 <= i < n && Reads(s.all[i].phase) { assert Reads(s'.all[i].phase); }
    if i :| 0 <= i < n && s.all[i].phase.ReadWoken? { assert s'.all[i].phase.ReadWoken?; }
  }

  lemma SpawnKeepsCalls<Tree, Table>(s: Mux<Tree, Table>, request: Tree)
    requires CallsOk(s) && PhasesOk(s)
    ensures CallsOk(Spawned(s, request)) && PhasesOk(Spawned(s, request))
  {
  }

  lemma ReleaseKeepsCalls<Tree, Table>(s: Mux<Tree, Table>)
    requires CallsOk(s) && PhasesOk(s)
    requires s.writers != [] ==> s.writers[0] < |s.all| && s.all[s.writers[0]].phase.WriteParked?
    ensures CallsOk(ReleaseWrite(s)) && PhasesOk(ReleaseWrite(s))
  {
    CallsSame(s, ReleaseWrite(s));
  }

  lemma ReleaseKeepsRead<Tree, Table>(s: Mux<Tree, Table>)
    requires ReadOk(s)
    requires s.writers != [] ==> s.writers[0] < |s.all| && s.all[s.writers[0]].phase.WriteParked?
    ensures ReadOk(ReleaseWrite(s))
  {
    ReadSame(s, ReleaseWrite(s));
  }

  lemma SendingKeepsCalls<Tree, Table>(cfg: Config<Tree, Table>, s: Mux<Tree, Table>, i: nat)
    requires CallsOk(s) && PhasesOk(s) && s.link.Open? && i < |s.all| && s.all[i].outcome.Pending?
    requires s.all[i].phase.WriteWoken? && CanSend(cfg, s, s.all[i].request)
    ensures CallsOk(BeginSend(cfg, s, i)) && PhasesOk(BeginSend(cfg, s, i))
  {
    var s' := BeginSend(cfg, s, i);
    assert i !in s.calls;
    assert Distinct(s'.calls) by {
      assert forall a :: 1 <= a < |s'.calls| ==> s'.calls[a] == s.calls[a - 1];
    }
    assert forall j :: j in s'.calls <==> j == i || j in s.calls;
  }

  lemma SendingKeepsTurns<Tree, Table>(cfg: Config<Tree, Table>, s: Mux<Tree, Table>, i: nat)
    requires TurnsOk(s) && s.link.Open? && !s.writing && i < |s.all|
    requires s.all[i].phase.WriteWoken? && s.all[i].outcome.Pending? && CanSend(cfg, s, s.all[i].request)
    ensures TurnsOk(BeginSend(cfg, s, i))
  {
    var s' := BeginSend(cfg, s, i);
    SendingKeepsCalls(cfg, s, i);
    TakeKeepsWrite(s, i, s'.all[i].phase);
    WriteSame(SetPhase(s, i, s'.all[i].phase).(writing := true), s');
    ReadSame(s, s');
  }

  lemma FailWriteKeepsTurns<Tree, Table>(s: Mux<Tree, Table>, i: nat)
    requires TurnsOk(s) && i < |s.all| && !Reads(s.all[i].phase)
    requires Holds(s.all[i].phase) || (s.all[i].phase.WriteWoken? && !s.writing)
    ensures TurnsOk(ReleaseWrite(Fail(s, i)))
  {
    hide CallsOk, PhasesOk, WriteOk, ReadOk, ReleaseWrite, Without;
    var s1 := Fail(s, i);
    WriterAtHead(s);
    FailKeepsCalls(s, i);
    ReleaseKeepsCalls(s1);
    ReadSame(s, s1);
    ReleaseKeepsRead(s1);
    ReleaseKeepsWrite(s, i, s1);
  }

  lemma WriteTurnKeepsTurns<Tree, Table>(cfg: Config<Tree, Table>, s: Mux<Tree, Table>, i: nat)
    requires TurnsOk(s) && i < |s.all| && s.all[i].phase.WriteWoken? && s.all[i].outcome.Pending?
    requires s.link == Open && !s.writing ==> CanSend(cfg, s, s.all[i].request)
    ensures TurnsOk(WriteTurn(cfg, s, i))
  {
    if s.writing {
      var s' := Park(s, i);
      ParkKeepsWrite(s, i);
      CallsSame(s, s');
      ReadSame(s, s');
    } else if s.link == Open {
      SendingKeepsTurns(cfg, s, i);
    } else {
      FailWriteKeepsTurns(s, i);
    }
  }

  lemma AskKeepsTurns<Tree, Table>(cfg: Config<Tree, Table>, s: Mux<Tree, Table>, request: Tree)
    requires TurnsOk(s) && Enabled(cfg, s, Ask(request))
    ensures TurnsOk(Next(cfg, s, Ask(request)))
  {
    var s1, i := Spawned(s, request), |s.all|;
    SpawnKeepsCalls(s, request);
    SpawnKeepsWrite(s, request);
    SpawnKeepsRead(s, request);
    if s.link == Closed && !s.writing {
      ConnectBegins(s1, i);
    } else {
      WriteTurnKeepsTurns(cfg, s1, i);
    }
  }

  // Both turns taken before the connect: on a connection not there nobody reads.
  lemma ConnectBegins<Tree, Table>(s: Mux<Tree, Table>, i: nat)
    requires TurnsOk(s) && s.link == Closed && !s.writing
    requires i < |s.all| && s.all[i].phase.WriteWoken? && s.all[i].outcome.Pending?
    ensures TurnsOk(SetPhase(s, i, Connecting).(writing := true, reading := true))
  {
    hide CallsOk, PhasesOk, WriteOk, ReadOk;
    var s' := SetPhase(s, i, Connecting).(writing := true, reading := true);
    TakeKeepsWrite(s, i, Connecting);
    WriteSame(SetPhase(s, i, Connecting).(writing := true), s');
    ConnectorCalls(s, i, s');
    ConnectorReads(s, i, s');
  }

  lemma ConnectorCalls<Tree, Table>(s: Mux<Tree, Table>, i: nat, s': Mux<Tree, Table>)
    requires CallsOk(s) && PhasesOk(s) && s.link == Closed
    requires i < |s.all| && s.all[i].phase.WriteWoken? && s.all[i].outcome.Pending?
    requires s' == SetPhase(s, i, Connecting).(writing := true, reading := true)
    ensures CallsOk(s') && PhasesOk(s')
  {
  }

  lemma ConnectorReads<Tree, Table>(s: Mux<Tree, Table>, i: nat, s': Mux<Tree, Table>)
    requires PhasesOk(s) && WriteOk(s) && s.link == Closed && !s.writing && i < |s.all|
    requires s' == SetPhase(s, i, Connecting).(writing := true, reading := true)
    ensures ReadOk(s')
  {
    assert forall j :: 0 <= j < |s.all| && Reads(s.all[j].phase) ==> Holds(s.all[j].phase);
    assert Reads(s'.all[i].phase);
  }

  lemma ConnectedKeepsTurns<Tree, Table>(cfg: Config<Tree, Table>, s: Mux<Tree, Table>, i: nat)
    requires TurnsOk(s) && Enabled(cfg, s, ConnectEnds(i, true))
    ensures TurnsOk(Next(cfg, s, ConnectEnds(i, true)))
  {
    hide CallsOk, PhasesOk, WriteOk, ReadOk, CanSend, Enqueue;
    var s' := Next(cfg, s, ConnectEnds(i, true));
    HolderWrites(s, i);
    WriteSame(s, s');
    ConnectorSends(s, i, s');
    ConnectorLeaves(s, i, s'.(all := s'.all[i := s'.all[i].(phase := Finished)]));
    ReadSame(s'.(all := s'.all[i := s'.all[i].(phase := Finished)]), s');
  }

  // The first request is alone on a connection that has just opened.
  lemma ConnectorSends<Tree, Table>(s: Mux<Tree, Table>, i: nat, s': Mux<Tree, Table>)
    requires CallsOk(s) && PhasesOk(s) && i < |s.all| && s.all[i].phase.Connecting?
    requires |s'.all| == |s.all| && s'.link.Open? && s'.calls == [i] + s.calls
    requires s'.all[i].phase.Sending? && s'.all[i].outcome == s.all[i].outcome
    requires forall j :: 0 <= j < |s.all| && j != i ==>
             s'.all[j].phase == s.all[j].phase && s'.all[j].outcome == s.all[j].outcome
    requires WriteOk(s)
    ensures CallsOk(s') && PhasesOk(s')
  {
    assert Holds(s.all[i].phase);
    assert s'.calls == [i];
  }

  lemma ConnectFailsKeepsTurns<Tree, Table>(s: Mux<Tree, Table>, i: nat)
    requires TurnsOk(s) && i < |s.all| && s.all[i].phase.Connecting?
    ensures TurnsOk(ReleaseWrite(Fail(s.(reading := false), i)))
  {
    hide CallsOk, PhasesOk, WriteOk, ReadOk, ReleaseWrite, Without;
    var s0 := s.(reading := false);
    var s1 := Fail(s0, i);
    WriterAtHead(s);
    CallsSame(s, s0);
    FailKeepsCalls(s0, i);
    ReleaseKeepsCalls(s1);
    ConnectorLeaves(s, i, s1);
    ReleaseKeepsRead(s1);
    ReleaseKeepsWrite(s, i, s1);
  }

  // The one that connects is the reader, and nobody waits for a response yet.
  lemma ConnectorLeaves<Tree, Table>(s: Mux<Tree, Table>, i: nat, s1: Mux<Tree, Table>)
    requires PhasesOk(s) && ReadOk(s) && i < |s.all| && s.all[i].phase.Connecting?
    requires |s1.all| == |s.all| && !s1.reading && s1.all[i].phase.Finished?
    requires forall j :: 0 <= j < |s.all| && j != i ==> s1.all[j].phase == s.all[j].phase
    ensures ReadOk(s1)
  {
    assert Reads(s.all[i].phase);
  }

  // Everything the turns look at is the same.
  lemma SameTurns<Tree, Table>(s: Mux<Tree, Table>, s': Mux<Tree, Table>)
    requires TurnsOk(s)
    requires |s'.all| == |s.all| && s'.calls == s.calls && s'.link == s.link
    requires s'.writing == s.writing && s'.writers == s.writers && s'.reading == s.reading
    requires forall i :: 0 <= i < |s.all| ==>
               && s'.all[i].outcome == s.all[i].outcome
               && (s'.all[i].phase == s.all[i].phase || (s'.all[i].phase.Sending? && s.all[i].phase.Sending?))
    ensures TurnsOk(s')
  {
    CallsSame(s, s');
    WriteSame(s, s');
    ReadSame(s, s');
  }

  lemma FrameDoneKeepsTurns<Tree, Table>(s: Mux<Tree, Table>, i: nat)
    requires TurnsOk(s) && i < |s.all| && s.all[i].phase.Sending?
    ensures TurnsOk(ReleaseWrite(SetPhase(s, i, Started)))
  {
    hide CallsOk, PhasesOk, WriteOk, ReadOk, ReleaseWrite;
    var s1 := SetPhase(s, i, Started);
    WriterAtHead(s);
    CallsSame(s, s1);
    ReleaseKeepsCalls(s1);
    ReadSame(s, s1);
    ReleaseKeepsRead(s1);
    ReleaseKeepsWrite(s, i, s1);
  }

  lemma WritePartKeepsTurns<Tree, Table>(s: Mux<Tree, Table>, i: nat, f: Frame, pos: nat, k: nat)
    requires TurnsOk(s) && i < |s.all| && s.all[i].phase.Sending?
    requires Encodable(f) && pos + k <= |FrameBytes(f)|
    ensures TurnsOk(WritePart(s, i, f, pos, k))
  {
    var s1 := s.(written := s.written + FrameBytes(f)[pos..pos + k]);
    if pos + k < |FrameBytes(f)| {
      SameTurns(s, SetPhase(s1, i, Sending(f, pos + k)));
    } else {
      SameTurns(s, FrameWritten(s1, f));
      FrameDoneKeepsTurns(FrameWritten(s1, f), i);
    }
  }

  lemma MuxFailKeepsTurns<Tree, Table>(s: Mux<Tree, Table>)
    requires CallsOk(s) && PhasesOk(s) && WriteOk(s) && ReadOk(s)
    requires !s.link.Closed?
    ensures TurnsOk(MuxFail(s))
  {
    hide CallsOk, WriteOk, ReadOk;
    MuxFailKeepsCalls(s);
    WriteSame(s, MuxFail(s));
    ReadSame(s, MuxFail(s));
  }

  lemma SendFailsKeepsTurns<Tree, Table>(s: Mux<Tree, Table>, i: nat)
    requires TurnsOk(s) && i < |s.all| && s.all[i].phase.Sending?
    ensures TurnsOk(MuxFail(ReleaseWrite(Fail(s, i))))
  {
    FailWriteKeepsTurns(s, i);
    MuxFailKeepsTurns(ReleaseWrite(Fail(s, i)));
  }

  lemma ParkEndsKeepsTurns<Tree, Table>(s: Mux<Tree, Table>, i: nat, timeUp: bool)
    requires TurnsOk(s) && i < |s.all| && (Parked(s.all[i].phase) || s.all[i].phase.Started?)
    ensures TurnsOk(LoopTop(SetPhase(s, i, Started), i, timeUp))
  {
    hide CallsOk, PhasesOk, WriteOk, ReadOk, ReadCore, LoopTop;
    var s1 := SetPhase(s, i, Started);
    CallsSame(s, s1);
    WriteSame(s, s1);
    CoreOfRead(s);
    ReadCoreSame(s, s1);
    LoopTopKeepsCalls(s1, i, timeUp);
    LoopTopKeepsWrite(s1, i, timeUp);
    LoopTopKeepsRead(s1, i, timeUp);
  }

  lemma CallDoneKeepsTurns<Tree, Table>(s: Mux<Tree, Table>, i: nat, outcome: Outcome<Tree>)
    requires TurnsOk(s) && i in s.calls && !outcome.Pending?
    ensures i < |s.all| && TurnsOk(CallDone(s, i, outcome))
  {
    CallDoneKeepsCalls(s, i, outcome);
    WriteSame(s, CallDone(s, i, outcome));
    ReadSame(s, CallDone(s, i, outcome));
  }

  // The three things readFrame can come to.
  lemma ReadFrameIs<Tree, Table>(cfg: Config<Tree, Table>, s: Mux<Tree, Table>)
    requires s.down.wire != []
    ensures Receive(cfg.codec, s.down).None? ==> ReadFrame(cfg, s) == MuxFail(s)
    ensures Receive(cfg.codec, s.down).Some? ==>
              var down := Receive(cfg.codec, s.down).value;
              var c, tree := s.down.wire[0].correlation, down.got[|down.got| - 1].tree;
              || (ReadFrame(cfg, s) == s.(down := down) && forall i :: i in s.calls && i < |s.all| ==>
                  s.all[i].correlation != c)
              || (exists i ::
                    && i in s.calls && i < |s.all| && s.all[i].correlation == c
                    && ReadFrame(cfg, s) == CallDone(s.(down := down), i, Replied(tree)))
  {
    if Receive(cfg.codec, s.down).Some? {
      var c := s.down.wire[0].correlation;
      var k := FirstIndex(s.calls, (i: nat) => i < |s.all| && s.all[i].correlation == c);
      if k < |s.calls| {
        assert s.calls[k] in s.calls;
      }
    }
  }

  // Nobody started or stopped reading.
  ghost predicate SameReaders<Tree, Table>(s: Mux<Tree, Table>, s': Mux<Tree, Table>) {
    |s'.all| == |s.all| && forall i :: 0 <= i < |s.all| && s.all[i].phase.Reading? ==> s'.all[i].phase.Reading?
  }

  lemma DeliveryKeepsTurns<Tree, Table>(s: Mux<Tree, Table>, down: Channel<Tree, Table>, i: nat, tree: Tree)
    requires TurnsOk(s) && i in s.calls && i < |s.all|
    ensures TurnsOk(CallDone(s.(down := down), i, Replied(tree)))
    ensures SameReaders(s, CallDone(s.(down := down), i, Replied(tree)))
  {
    hide CallsOk, PhasesOk, WriteOk, ReadOk, Without;
    SameTurns(s, s.(down := down));
    CallDoneKeepsTurns(s.(down := down), i, Replied(tree));
  }

  lemma FailedReaders<Tree, Table>(s: Mux<Tree, Table>)
    ensures SameReaders(s, MuxFail(s))
  {
  }

  // readFrame leaves the turns as they were, whoever it wakes.
  lemma ReadFrameKeepsTurns<Tree, Table>(cfg: Config<Tree, Table>, s: Mux<Tree, Table>)
    requires TurnsOk(s) && s.link.Open? && s.down.wire != []
    ensures TurnsOk(ReadFrame(cfg, s)) && SameReaders(s, ReadFrame(cfg, s))
  {
    hide ReadFrame, MuxFail, CallDone, CallsOk, PhasesOk, WriteOk, ReadOk;
    ReadFrameIs(cfg, s);
    if Receive(cfg.codec, s.down).None? {
      MuxFailKeepsTurns(s);
      FailedReaders(s);
    } else {
      var down := Receive(cfg.codec, s.down).value;
      var tree := down.got[|down.got| - 1].tree;
      if ReadFrame(cfg, s) == s.(down := down) {
        SameTurns(s, s.(down := down));
      } else {
        var i :| i in s.calls && i < |s.all| && ReadFrame(cfg, s) == CallDone(s.(down := down), i, Replied(tree));
        DeliveryKeepsTurns(s, down, i, tree);
      }
    }
  }

  // The reader lets go of the turn and looks again.
  lemma ReaderLooksAgain<Tree, Table>(s: Mux<Tree, Table>, i: nat, timeUp: bool)
    requires TurnsOk(s) && i < |s.all| && s.all[i].phase.Reading?
    ensures TurnsOk(LoopTop(SetPhase(s, i, Started).(reading := false), i, timeUp))
  {
    var s1 := SetPhase(s, i, Started).(reading := false);
    CallsSame(s, s1);
    WriteSame(s, s1);
    assert ReadCore(s1);
    LoopTopKeepsCalls(s1, i, timeUp);
    LoopTopKeepsWrite(s1, i, timeUp);
    LoopTopKeepsRead(s1, i, timeUp);
  }

  // ---------------------------------------------------------------------------
  // Every step, every run

  lemma WriterKeepsTurns<Tree, Table>(cfg: Config<Tree, Table>, s: Mux<Tree, Table>, step: Step<Tree>)
    requires TurnsOk(s) && Enabled(cfg, s, step)
    requires step.WriterRuns? || step.WriteSome? || step.SendFails?
    ensures TurnsOk(Next(cfg, s, step))
  {
    hide WriteTurn, WritePart, MuxFail, ReleaseWrite, Fail, CallsOk, WriteOk, ReadOk;
    match step
    case WriterRuns(i) => WriteTurnKeepsTurns(cfg, s, i);
    case WriteSome(i, k) => WritePartKeepsTurns(s, i, s.all[i].phase.frame, s.all[i].phase.pos, k);
    case SendFails(i) => SendFailsKeepsTurns(s, i);
  }

  lemma ConnectorKeepsTurns<Tree, Table>(cfg: Config<Tree, Table>, s: Mux<Tree, Table>, i: nat, ok: bool)
    requires TurnsOk(s) && Enabled(cfg, s, ConnectEnds(i, ok))
    ensures TurnsOk(Next(cfg, s, ConnectEnds(i, ok)))
  {
    hide TurnsOk, BeginSend, Opened, CanSend, ReleaseWrite, Fail;
    if ok {
      ConnectedKeepsTurns(cfg, s, i);
    } else {
      ConnectFailsKeepsTurns(s, i);
    }
  }

  lemma WaiterKeepsTurns<Tree, Table>(cfg: Config<Tree, Table>, s: Mux<Tree, Table>, step: Step<Tree>)
    requires TurnsOk(s) && Enabled(cfg, s, step)
    requires step.WaitBegins? || step.ParkEnds?
    ensures TurnsOk(Next(cfg, s, step))
  {
    hide TurnsOk, LoopTop;
    if step.WaitBegins? {
      assert SetPhase(s, step.i, Started) == s;
    }
    ParkEndsKeepsTurns(s, step.i, step.timeUp);
  }

  lemma ReaderKeepsTurns<Tree, Table>(cfg: Config<Tree, Table>, s: Mux<Tree, Table>, step: Step<Tree>)
    requires TurnsOk(s) && Enabled(cfg, s, step)
    requires step.ReaderRuns? || step.ReadFails?
    ensures TurnsOk(Next(cfg, s, step))
  {
    hide TurnsOk, LoopTop, ReadFrame, MuxFail;
    match step
    case ReaderRuns(i, ready, timeUp) =>
      if ready {
        ReadFrameKeepsTurns(cfg, s);
      }
      ReaderLooksAgain(if ready then ReadFrame(cfg, s) else s, i, timeUp);
    case ReadFails(i) =>
      FailingIsQuiet(s, i);
      ReaderLooksAgain(MuxFail(s), i, true);
  }

  // A reader whose connection fails is still the reader.
  lemma FailingIsQuiet<Tree, Table>(s: Mux<Tree, Table>, i: nat)
    requires TurnsOk(s) && i < |s.all| && s.all[i].phase.Reading?
    ensures TurnsOk(MuxFail(s)) && SameReaders(s, MuxFail(s))
  {
    hide MuxFail, CallsOk, WriteOk, ReadOk;
    MuxFailKeepsTurns(s);
    FailedReaders(s);
  }

  lemma ServerKeepsTurns<Tree, Table>(cfg: Config<Tree, Table>, s: Mux<Tree, Table>, step: Step<Tree>)
    requires TurnsOk(s) && Enabled(cfg, s, step)
    requires step.ServerTakes? || step.ServerReplies? || step.ServerFlushes? || step.ServerDedicates?
    ensures TurnsOk(Next(cfg, s, step))
  {
    hide TurnsOk, Receive, Written, Enqueue, SendNow;
    SameTurns(s, Next(cfg, s, step));
  }

  lemma {:induction false} NextKeepsTurns<Tree, Table>(cfg: Config<Tree, Table>, s: Mux<Tree, Table>, step: Step<Tree>)
    requires TurnsOk(s) && Enabled(cfg, s, step)
    ensures TurnsOk(Next(cfg, s, step))
  {
    hide TurnsOk, Enabled, Next;
    match step
    case Ask(request) => AskKeepsTurns(cfg, s, request);
    case WriterRuns(_) => WriterKeepsTurns(cfg, s, step);
    case WriteSome(_, _) => WriterKeepsTurns(cfg, s, step);
    case SendFails(_) => WriterKeepsTurns(cfg, s, step);
    case ConnectEnds(i, ok) => ConnectorKeepsTurns(cfg, s, i, ok);
    case WaitBegins(_, _) => WaiterKeepsTurns(cfg, s, step);
    case ParkEnds(_, _) => WaiterKeepsTurns(cfg, s, step);
    case ReaderRuns(_, _, _) => ReaderKeepsTurns(cfg, s, step);
    case ReadFails(_) => ReaderKeepsTurns(cfg, s, step);
    case ServerTakes => ServerKeepsTurns(cfg, s, step);
    case ServerReplies(_, _) => ServerKeepsTurns(cfg, s, step);
    case ServerFlushes => ServerKeepsTurns(cfg, s, step);
    case ServerDedicates => ServerKeepsTurns(cfg, s, step);
  }

  lemma {:induction false} TurnsAlways<Tree, Table>(cfg: Config<Tree, Table>, steps: seq<Step<Tree>>)
    requires Run(cfg, steps).Some?
    ensures TurnsOk(Run(cfg, steps).value)
  {
    if steps != [] {
      TurnsAlways(cfg, steps[..|steps| - 1]);
      NextKeepsTurns(cfg, Run(cfg, steps[..|steps| - 1]).value, steps[|steps| - 1]);
    }
  }

  // The write turn: one coroutine holds it at most, connecting included, and a waiting
  // writer has the turn's holder, or a woken writer, before it.
  lemma {:induction false} WriteTurnHeldByOne<Tree, Table>(cfg: Config<Tree, Table>, steps: seq<Step<Tree>>, i: nat,
                                                           j: nat)
    requires Run(cfg, steps).Some?
    ensures var s := Run(cfg, steps).value;
            && (i < |s.all| && j < |s.all| && Holds(s.all[i].phase) && Holds(s.all[j].phase) ==> i == j && s.writing)
            && (s.writers != [] ==> s.writing || exists w :: 0 <= w < |s.all| && s.all[w].phase.WriteWoken?)
  {
    TurnsAlways(cfg, steps);
  }

  // The read turn: one coroutine reads at most, and a parked call has a reader, or a
  // woken call, to count on - whoever finished, timed out or handed on.
  lemma {:induction false} NoCallIsStranded<Tree, Table>(cfg: Config<Tree, Table>, steps: seq<Step<Tree>>, i: nat,
                                                         j: nat)
    requires Run(cfg, steps).Some?
    ensures var s := Run(cfg, steps).value;
            && (i < |s.all| && j < |s.all| && Reads(s.all[i].phase) && Reads(s.all[j].phase) ==> i == j && s.reading)
            && (i < |s.all| && s.all[i].phase.ReadParked? ==>
                  exists w :: 0 <= w < |s.all| && (Reads(s.all[w].phase) || s.all[w].phase.ReadWoken?))
  {
    TurnsAlways(cfg, steps);
    var s := Run(cfg, steps).value;
    if i < |s.all| && s.all[i].phase.ReadParked? {
      if s.reading {
        var w :| 0 <= w < |s.all| && Reads(s.all[w].phase);
      } else {
        var w :| 0 <= w < |s.all| && s.all[w].phase.ReadWoken?;
      }
    }
  }
}
