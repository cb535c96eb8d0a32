// The linked lists in memory are the sequences of the transition system: each operation of
// the client connection (CorMuxConn) takes an object that represents a state to one that
// represents the state the transition system's function gives, and so does each stretch of
// corRestCorWait from one place where it yields to the next (corRestCor.c:1727-1840 and
// 2119-2327).
module CorMuxRefines {
  import opened Base
  import opened CorChannel
  import opened CorMux
  import opened CorMuxConn

  // The objects of the calls that have been sent, by their number.
  type Objects<!Tree> = map<nat, CorRestCorCall<Tree>>

  ghost predicate OneEach<Tree>(objs: Objects<Tree>) {
    forall i, j :: i in objs && j in objs && i != j ==> objs[i] != objs[j]
  }

  // What a call's fields say of it: its result once it is done, and whether its coroutine
  // waits, and has been woken.
  ghost predicate FieldsSay<Tree>(correlation: nat, park: bool, woken: bool, done: bool, failed: bool,
                                  tree: Option<Tree>,
                                  c: Call<Tree>) {
    && correlation == c.correlation && park == Parked(c.phase) && (park ==> woken == c.phase.ReadWoken?)
    && (!c.phase.Finished? ==>
          && (done <==> !c.outcome.Pending?)
          && (c.outcome.Replied? ==> !failed && tree == Some(c.outcome.tree))
          && (c.outcome.Failed? ==> failed))
  }

  ghost predicate Says<Tree>(o: CorRestCorCall<Tree>, c: Call<Tree>)
    reads o
  {
    FieldsSay(o.correlation, o.park, o.woken, o.done, o.failed, o.respTree, c)
  }

  ghost predicate ListIs<Tree>(list: seq<CorRestCorCall<Tree>>, calls: seq<nat>, objs: Objects<Tree>) {
    |list| == |calls| && forall k :: 0 <= k < |calls| ==> calls[k] in objs && list[k] == objs[calls[k]]
  }

  ghost predicate CallsAre<Tree>(all: seq<Call<Tree>>, objs: Objects<Tree>)
    reads objs.Values
  {
    forall i :: i in objs ==> i < |all| && Says(objs[i], all[i])
  }

  ghost predicate WritersAre<Tree>(waiting: seq<Waiter>, writers: seq<nat>, all: seq<Call<Tree>>)
    reads waiting
  {
    && |waiting| == |writers|
    && forall k :: 0 <= k < |writers| ==> writers[k] < |all| && all[writers[k]].phase.WriteParked? && !waiting[k].woken
  }

  ghost predicate Represents<Tree, Table>(m: MuxConn<Tree>, s: Mux<Tree, Table>, objs: Objects<Tree>)
    reads m, m.list, m.waiting, objs.Values
  {
    && m.Valid() && OneEach(objs)
    && ListIs(m.list, s.calls, objs) && CallsAre(s.all, objs) && WritersAre(m.waiting, s.writers, s.all)
    && m.writing == s.writing && m.reading == s.reading && m.open == s.link.Open?
  }

  // ---------------------------------------------------------------------------
  // The list

  lemma {:induction false} WithoutIsWithout<Tree>(list: seq<CorRestCorCall<Tree>>, calls: seq<nat>, objs: Objects<Tree>,
                                                  i: nat)
    requires OneEach(objs) && ListIs(list, calls, objs) && i in objs
    ensures ListIs(Without(list, objs[i]), Without(calls, i), objs)
  {
    if calls != [] {
      assert ListIs(list[1..], calls[1..], objs);
      if calls[0] == i {
        assert list[0] == objs[i];
      } else {
        assert list[0] != objs[i];
        WithoutIsWithout(list[1..], calls[1..], objs, i);
        var w, v := Without(list[1..], objs[i]), Without(calls[1..], i);
        assert ListIs([list[0]] + w, [calls[0]] + v, objs);
      }
    }
  }

  lemma {:induction false} WithoutIn<T>(l: seq<T>, x: T)
    ensures forall y <- Without(l, x) :: y in l
  {
    if l != [] && l[0] != x {
      WithoutIn(l[1..], x);
      assert forall y :: y in l <==> y == l[0] || y in l[1..];
    }
  }

  // A call changes that is no parked writer.
  lemma WritersKept<Tree>(waiting: seq<Waiter>, writers: seq<nat>, all: seq<Call<Tree>>, i: nat, c: Call<Tree>)
    requires WritersAre(waiting, writers, all) && i < |all| && c.phase.WriteParked? == all[i].phase.WriteParked?
    ensures WritersAre(waiting, writers, all[i := c])
  {
  }

  // callDone
  method CallDoneRefines<Tree, Table>(m: MuxConn<Tree>, ghost s: Mux<Tree, Table>, ghost objs: Objects<Tree>,
                                      ghost i: nat,
                                      callP: CorRestCorCall<Tree>, tree: Option<Tree>)
    requires Represents(m, s, objs) && i in s.calls && i in objs && callP == objs[i]
    modifies m`calls, m`list, callP, m.list`next
    ensures Represents(m, CallDone(s, i, if tree.Some? then Replied(tree.value) else Failed), objs)
    ensures forall k :: 0 <= k < |m.list| ==> m.list[k] in old(m.list)
  {
    hide Without, MuxConn.CallsLinked, MuxConn.WritersLinked, WritersAre;
    WithoutIsWithout(m.list, s.calls, objs, i);
    WithoutIn(m.list, callP);
    ghost var s' := CallDone(s, i, if tree.Some? then Replied(tree.value) else Failed);
    WritersKept(m.waiting, s.writers, s.all, i, s'.all[i]);
    m.CallDone(callP, tree, tree.None?);
    forall j | j in objs ensures j < |s'.all| && Says(objs[j], s'.all[j]) {
    }
  }

  // A call is on the list in memory when it is on the sequence.
  lemma OnTheList<Tree>(list: seq<CorRestCorCall<Tree>>, calls: seq<nat>, objs: Objects<Tree>, i: nat)
    requires ListIs(list, calls, objs) && OneEach(objs) && i in objs
    ensures objs[i] in list <==> i in calls
  {
    if i in calls {
      var k :| 0 <= k < |calls| && calls[k] == i;
      assert list[k] == objs[i];
    }
    if objs[i] in list {
      var k :| 0 <= k < |list| && list[k] == objs[i];
      assert calls[k] == i;
    }
  }

  // muxFail
  method MuxFailRefines<Tree, Table>(m: MuxConn<Tree>, ghost s: Mux<Tree, Table>, ghost objs: Objects<Tree>)
    requires Represents(m, s, objs)
    modifies m`open, m`calls, m`list, m.list
    ensures Represents(m, MuxFail(s), objs) && m.list == []
  {
    hide MuxConn.CallsLinked, MuxConn.WritersLinked;
    ghost var list := m.list;
    m.MuxFail();
    ghost var s' := MuxFail(s);
    forall j | j in objs ensures j < |s'.all| && Says(objs[j], s'.all[j]) {
      OnTheList(list, s.calls, objs, j);
    }
  }

  // The call a response is for: the same one.
  method FindCallRefines<Tree, Table>(m: MuxConn<Tree>, ghost s: Mux<Tree, Table>, ghost objs: Objects<Tree>,
                                      correlation: nat)
    returns (callP: CorRestCorCall?<Tree>)
    requires Represents(m, s, objs)
    ensures var k := FirstIndex(s.calls, (i: nat) => i < |s.all| && s.all[i].correlation == correlation);
            if k < |s.calls| then s.calls[k] in objs && callP == objs[s.calls[k]] else callP == null
  {
    hide MuxConn.CallsLinked, MuxConn.WritersLinked;
    callP := m.FindCall(correlation);
    ghost var k := FirstIndex(s.calls, (i: nat) => i < |s.all| && s.all[i].correlation == correlation);
    ghost var k' := FirstIndex(m.list, (c: CorRestCorCall<Tree>) => c.correlation == correlation);
    assert forall j :: 0 <= j < |s.calls| ==> m.list[j].correlation == s.all[s.calls[j]].correlation;
    assert k == k';
  }

  lemma WokenSays<Tree>(correlation: nat, park: bool, woken: bool, done: bool, failed: bool, tree: Option<Tree>,
                        c: Call<Tree>,
                        wakes: bool)
    requires FieldsSay(correlation, park, woken, done, failed, tree, c) && (wakes ==> park)
    ensures FieldsSay(correlation, park, woken || wakes, done, failed, tree, if wakes then c.(phase := ReadWoken)
            else c)
  {
  }

  lemma FirstParked<Tree, Table>(s: Mux<Tree, Table>, k: nat)
    requires k <= |s.calls| && forall i :: 0 <= i < |s.calls| ==> s.calls[i] < |s.all|
    requires forall i :: 0 <= i < k ==> !Parked(s.all[s.calls[i]].phase)
    requires k < |s.calls| ==> Parked(s.all[s.calls[k]].phase)
    ensures HandOff(s) == if k < |s.calls| then SetPhase(s, s.calls[k], ReadWoken) else s
  {
    assert k == FirstIndex(s.calls, (i: nat) => i < |s.all| && Parked(s.all[i].phase));
  }

  lemma ListDistinct<Tree>(m: MuxConn<Tree>)
    requires m.Valid()
    ensures Distinct(m.list)
  {
  }

  lemma ParksAgree<Tree, Table>(m: MuxConn<Tree>, s: Mux<Tree, Table>, objs: Objects<Tree>)
    requires Represents(m, s, objs)
    ensures forall i :: 0 <= i < |s.calls| ==> s.calls[i] < |s.all| && m.list[i].park == Parked(s.all[s.calls[i]].phase)
  {
    hide MuxConn.CallsLinked, MuxConn.WritersLinked, WritersAre, Parked;
  }

  // readTurnHandOff
  method HandOffRefines<Tree, Table>(m: MuxConn<Tree>, ghost s: Mux<Tree, Table>, ghost objs: Objects<Tree>)
    requires Represents(m, s, objs)
    modifies m.list`woken
    ensures Represents(m, HandOff(s), objs)
  {
    hide MuxConn.CallsLinked, MuxConn.WritersLinked, HandOff, WritersAre, FieldsSay;
    ghost var list := m.list;
    ListDistinct(m);
    ParksAgree(m, s, objs);
    ghost var k := m.ReadTurnHandOff();
    FirstParked(s, k);
    if k < |list| {
      WritersKept(m.waiting, s.writers, s.all, s.calls[k], s.all[s.calls[k]].(phase := ReadWoken));
    }
    ghost var s' := HandOff(s);
    forall j | j in objs ensures j < |s'.all| && Says(objs[j], s'.all[j]) {
      var o, wakes := objs[j], k < |list| && j == s.calls[k];
      assert wakes <==> k < |list| && o == list[k];
      WokenSays(o.correlation, o.park, old(o.woken), o.done, o.failed, o.respTree, s.all[j], wakes);
    }
  }

  // writeTurn, finding the turn taken.
  method ParkRefines<Tree, Table>(m: MuxConn<Tree>, ghost s: Mux<Tree, Table>, ghost objs: Objects<Tree>, ghost i: nat,
                                  w: Waiter)
    requires Represents(m, s, objs) && i < |s.all| && i !in objs && w !in m.waiting && w.next == null && !w.woken
    modifies m`writers, m`waiting, m.waiting`next
    ensures Represents(m, Park(s, i), objs)
  {
    hide MuxConn.CallsLinked, MuxConn.WritersLinked;
    m.Queue(w);
  }

  // writeTurnRelease
  method ReleaseRefines<Tree, Table>(m: MuxConn<Tree>, ghost s: Mux<Tree, Table>, ghost objs: Objects<Tree>)
    requires Represents(m, s, objs) && Distinct(s.writers) && forall i <- s.writers :: i !in objs
    modifies m`writing, m`writers, m`waiting, m.waiting`woken
    ensures Represents(m, ReleaseWrite(s), objs)
    ensures old(m.waiting) != [] ==> old(m.waiting)[0].woken
  {
    hide MuxConn.CallsLinked, MuxConn.WritersLinked;
    m.WriteTurnRelease();
  }

  // ---------------------------------------------------------------------------
  // corRestCorWait

  // A call's coroutine moves, and no object changes.
  lemma PhaseRepresents<Tree, Table>(m: MuxConn<Tree>, s: Mux<Tree, Table>, objs: Objects<Tree>, i: nat, p: Phase)
    requires Represents(m, s, objs) && i in objs && !s.all[i].phase.WriteParked?
    requires Says(objs[i], s.all[i].(phase := p))
    ensures Represents(m, SetPhase(s, i, p), objs)
  {
    hide MuxConn.CallsLinked, MuxConn.WritersLinked, FieldsSay;
  }

  // What the coroutine does next: its caller is back, or it waits - for its response or the
  // read turn, or, as the reader, for the socket.
  datatype Waits = Returns | Parks | Selects

  lemma DoneIs<Tree, Table>(m: MuxConn<Tree>, s: Mux<Tree, Table>, objs: Objects<Tree>, i: nat)
    requires Represents(m, s, objs) && i in objs
    ensures i < |s.all| && m.reading == s.reading
    ensures s.all[i].phase.Started? ==> (objs[i].done <==> !s.all[i].outcome.Pending?)
  {
  }

  // Back to its caller, with what it has.
  method FinishRefines<Tree, Table>(m: MuxConn<Tree>, ghost s: Mux<Tree, Table>, ghost objs: Objects<Tree>,
                                    ghost i: nat)
    requires Represents(m, s, objs) && i in objs && s.all[i].phase.Started?
    modifies m.list`woken
    ensures Represents(m, Finish(s, i), objs)
  {
    hide MuxConn.CallsLinked, MuxConn.WritersLinked, HandOff;
    PhaseRepresents(m, s, objs, i, Finished);
    HandOffRefines(m, SetPhase(s, i, Finished), objs);
  }

  // Back to its caller with an error, off the list.
  method TimeOutRefines<Tree, Table>(m: MuxConn<Tree>, ghost s: Mux<Tree, Table>, ghost objs: Objects<Tree>,
                                     ghost i: nat,
                                     callP: CorRestCorCall<Tree>)
    requires Represents(m, s, objs) && i in objs && callP == objs[i] && s.all[i].phase.Started?
    modifies m`calls, m`list, callP, m.list`next
    ensures Represents(m, Fail(s, i), objs) && forall k :: 0 <= k < |m.list| ==> m.list[k] in old(m.list)
  {
    hide Without, MuxConn.CallsLinked, MuxConn.WritersLinked;
    WithoutIsWithout(m.list, s.calls, objs, i);
    WithoutIn(m.list, callP);
    m.CallUnlink(callP);
    callP.failed := true;
    ghost var s' := Fail(s, i);
    forall j | j in objs ensures j < |s'.all| && Says(objs[j], s'.all[j]) {
    }
  }

  // Another coroutine has the turn.
  method WaitRefines<Tree, Table>(m: MuxConn<Tree>, ghost s: Mux<Tree, Table>, ghost objs: Objects<Tree>, ghost i: nat,
                                  callP: CorRestCorCall<Tree>)
    requires Represents(m, s, objs) && i in objs && callP == objs[i] && s.all[i].phase.Started?
    modifies callP`park, callP`woken
    ensures Represents(m, SetPhase(s, i, ReadParked), objs)
  {
    hide MuxConn.CallsLinked, MuxConn.WritersLinked;
    callP.park, callP.woken := true, false;
  }

  // The turn taken.
  method TakeRefines<Tree, Table>(m: MuxConn<Tree>, ghost s: Mux<Tree, Table>, ghost objs: Objects<Tree>, ghost i: nat)
    requires Represents(m, s, objs) && i in objs && s.all[i].phase.Started?
    modifies m`reading
    ensures Represents(m, SetPhase(s, i, Reading).(reading := true), objs)
  {
    hide MuxConn.CallsLinked, MuxConn.WritersLinked;
    m.reading := true;
  }

  // The turn let go of.
  method LetGoRefines<Tree, Table>(m: MuxConn<Tree>, ghost s: Mux<Tree, Table>, ghost objs: Objects<Tree>, ghost i: nat)
    requires Represents(m, s, objs) && i in objs && i < |s.all| && s.all[i].phase.Reading?
    modifies m`reading
    ensures Represents(m, SetPhase(s, i, Started).(reading := false), objs)
  {
    hide MuxConn.CallsLinked, MuxConn.WritersLinked;
    m.reading := false;
  }

  // The head of the loop, and what follows it when there is no more to wait for.
  method LoopTopRefines<Tree, Table>(m: MuxConn<Tree>, ghost s: Mux<Tree, Table>, ghost objs: Objects<Tree>,
                                     ghost i: nat,
                                     callP: CorRestCorCall<Tree>, timeUp: bool) returns (w: Waits)
    requires Represents(m, s, objs) && i in objs && callP == objs[i] && s.all[i].phase.Started?
    modifies m`calls, m`list, m`reading, callP, m.list`next, m.list`woken
    ensures Represents(m, LoopTop(s, i, timeUp), objs)
    ensures w == if !s.all[i].outcome.Pending? || timeUp then Returns else if s.reading then Parks else Selects
  {
    hide Represents, Without, HandOff, Finish, Fail;
    DoneIs(m, s, objs, i);
    if callP.done {
      FinishRefines(m, s, objs, i);
      return Returns;
    } else if timeUp {
      TimeOutRefines(m, s, objs, i, callP);
      HandOffRefines(m, Fail(s, i), objs);
      return Returns;
    } else if m.reading {
      WaitRefines(m, s, objs, i, callP);
      return Parks;
    }
    TakeRefines(m, s, objs, i);
    return Selects;
  }

  // The coroutine runs again: no longer parked.
  method UnparkRefines<Tree, Table>(m: MuxConn<Tree>, ghost s: Mux<Tree, Table>, ghost objs: Objects<Tree>,
                                    ghost i: nat,
                                    callP: CorRestCorCall<Tree>)
    requires Represents(m, s, objs) && i in objs && callP == objs[i] && Parked(s.all[i].phase)
    modifies callP`park
    ensures Represents(m, SetPhase(s, i, Started), objs)
  {
    hide MuxConn.CallsLinked, MuxConn.WritersLinked;
    callP.park := false;
  }

  // readFrame, the frame's correlation and what its body decoded to read from the wire.
  method ReadFrameRefines<Tree, Table>(ghost cfg: Config<Tree, Table>, m: MuxConn<Tree>, ghost s: Mux<Tree, Table>,
                                       ghost objs: Objects<Tree>, correlation: nat, tree: Option<Tree>)
    requires Represents(m, s, objs) && s.down.wire != [] && correlation == s.down.wire[0].correlation
    requires tree.None? <==> Receive(cfg.codec, s.down).None?
    requires tree.Some? ==> var got := Receive(cfg.codec, s.down).value.got; tree == Some(got[|got| - 1].tree)
    modifies m`open, m`calls, m`list, m.list
    ensures Represents(m, ReadFrame(cfg, s), objs) && forall k :: 0 <= k < |m.list| ==> m.list[k] in old(m.list)
  {
    hide MuxConn.CallsLinked, MuxConn.WritersLinked, Receive, Without, CallDone, MuxFail;
    var callP := FindCallRefines(m, s, objs, correlation);
    if tree.None? {
      MuxFailRefines(m, s, objs);
      return;
    }
    ghost var s1 := s.(down := Receive(cfg.codec, s.down).value);
    assert Represents(m, s1, objs);
    if callP != null {
      ghost var k := FirstIndex(s.calls, (i: nat) => i < |s.all| && s.all[i].correlation == correlation);
      CallDoneRefines(m, s1, objs, s.calls[k], callP, tree);
    }
  }

  lemma StillReads<Tree, Table>(cfg: Config<Tree, Table>, s: Mux<Tree, Table>, i: nat)
    requires i < |s.all| && s.all[i].phase.Reading?
    ensures s.down.wire != [] ==> |ReadFrame(cfg, s).all| == |s.all| && ReadFrame(cfg, s).all[i].phase.Reading?
  {
    hide Receive, Without, FirstIndex;
  }

  // The reader, back from the socket: a frame read when there is one, the turn let go of,
  // and the loop's head again.
  method ReaderRefines<Tree, Table>(ghost cfg: Config<Tree, Table>, m: MuxConn<Tree>, ghost s: Mux<Tree, Table>,
                                    ghost objs: Objects<Tree>, ghost i: nat, callP: CorRestCorCall<Tree>, ready: bool,
                                    correlation: nat, tree: Option<Tree>, timeUp: bool) returns (w: Waits)
    requires Represents(m, s, objs) && i in objs && callP == objs[i] && Enabled(cfg, s, ReaderRuns(i, ready, timeUp))
    requires ready ==>
               && correlation == s.down.wire[0].correlation && (tree.None? <==> Receive(cfg.codec, s.down).None?)
               && (tree.Some? ==> var got := Receive(cfg.codec, s.down).value.got; tree == Some(got[|got| - 1].tree))
    modifies m`open, m`calls, m`list, m`reading, m.list, callP
    ensures Represents(m, Next(cfg, s, ReaderRuns(i, ready, timeUp)), objs)
  {
    hide Represents, Receive, Without, ReadFrame, LoopTop;
    DoneIs(m, s, objs, i);
    StillReads(cfg, s, i);
    if ready {
      ReadFrameRefines(cfg, m, s, objs, correlation, tree);
    }
    ghost var s1 := if ready then ReadFrame(cfg, s) else s;
    LetGoRefines(m, s1, objs, i);
    w := LoopTopRefines(m, SetPhase(s1, i, Started).(reading := false), objs, i, callP, timeUp);
  }

  // The caller of a call that has been written, or the coroutine that was parked.
  method WaiterRefines<Tree, Table>(ghost cfg: Config<Tree, Table>, m: MuxConn<Tree>, ghost s: Mux<Tree, Table>,
                                    ghost objs: Objects<Tree>, ghost i: nat, callP: CorRestCorCall<Tree>, timeUp: bool)
    returns (w: Waits)
    requires Represents(m, s, objs) && i in objs && callP == objs[i] && i < |s.all|
    requires s.all[i].phase.Started? || Parked(s.all[i].phase)
    modifies m`calls, m`list, m`reading, callP, m.list`next, m.list`woken
    ensures Represents(m, Next(cfg, s, if s.all[i].phase.Started? then WaitBegins(i, timeUp) else ParkEnds(i, timeUp)),
            objs)
  {
    hide Represents, LoopTop;
    if callP.park {
      ParkIs(m, s, objs, i);
      UnparkRefines(m, s, objs, i, callP);
    } else {
      ParkIs(m, s, objs, i);
      assert SetPhase(s, i, Started) == s;
    }
    w := LoopTopRefines(m, SetPhase(s, i, Started), objs, i, callP, timeUp);
  }

  lemma ParkIs<Tree, Table>(m: MuxConn<Tree>, s: Mux<Tree, Table>, objs: Objects<Tree>, i: nat)
    requires Represents(m, s, objs) && i in objs
    ensures i < |s.all| && objs[i].park == Parked(s.all[i].phase)
  {
  }

  // The reader, when no wait is to be had: every call ends.
  method NoWaitRefines<Tree, Table>(ghost cfg: Config<Tree, Table>, m: MuxConn<Tree>, ghost s: Mux<Tree, Table>,
                                    ghost objs: Objects<Tree>, ghost i: nat,
                                        callP: CorRestCorCall<Tree>) returns (w: Waits)
    requires Represents(m, s, objs) && i in objs && callP == objs[i] && i < |s.all| && s.all[i].phase.Reading?
    modifies m`open, m`calls, m`list, m`reading, m.list, callP
    ensures Represents(m, Next(cfg, s, ReadFails(i)), objs)
  {
    hide Represents, LoopTop;
    MuxFailRefines(m, s, objs);
    LetGoRefines(m, MuxFail(s), objs, i);
    w := LoopTopRefines(m, SetPhase(MuxFail(s), i, Started).(reading := false), objs, i, callP, true);
  }

  // corRestCorStart, the write turn had: a new call is linked, and its frame on its way.
  method SendRefines<Tree, Table>(ghost cfg: Config<Tree, Table>, m: MuxConn<Tree>, ghost s: Mux<Tree, Table>,
                                  ghost objs: Objects<Tree>, ghost i: nat, callP: CorRestCorCall<Tree>)
    requires Represents(m, s, objs) && i < |s.all| && i !in objs && CanSend(cfg, s, s.all[i].request)
    requires callP !in objs.Values && callP.correlation == s.correlation + 1
    requires !callP.done && !callP.park && s.all[i].phase.WriteWoken? && s.all[i].outcome.Pending?
    modifies m`calls, m`list, m`writing, callP`next
    ensures Represents(m, BeginSend(cfg, s, i), objs[i := callP])
  {
    hide MuxConn.CallsLinked, MuxConn.WritersLinked, CanSend;
    assert forall j :: j in objs ==> objs[j] != callP;
    m.writing := true;
    m.Link(callP);
  }
}
