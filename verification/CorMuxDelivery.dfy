// A response that is read reaches its call, and stays there; what makes a call fail; and a
// call from its start to its end (corRestCor.c:2105-2178 and 2229-2327).
module CorMuxDelivery {
  import opened Base
  import opened CorFrame
  import opened CorCodec
  import opened CorChannel
  import opened CorMux
  import opened CorMuxTurns
  import opened CorMuxMatch
  import opened CorMuxTheorems

  // ---------------------------------------------------------------------------
  // One frame read

  // The next frame that is small enough is the next response the server built.
  lemma NextResponse<Tree(!new), Table(!new)>(cfg: Config<Tree, Table>, s: Mux<Tree, Table>)
    requires RoundTrips(cfg.codec) && MatchOk(cfg, s) && s.down.wire != [] && Acceptable(s.down.wire[0])
    ensures Receive(cfg.codec, s.down).Some?
    ensures |s.down.got| < |s.answered| && s.down.wire[0].correlation == s.answered[|s.down.got|].correlation
    ensures var got := Receive(cfg.codec, s.down).value.got;
            |got| > 0 && got[|got| - 1].tree == s.answered[|s.down.got|].reply
  {
    hide BytesOk, NothingLost, RepliesOk, NumbersOk;
    ReceiveInStep(cfg.codec, Preloaded(cfg), s.down);
    assert Transit(s.down)[0] == FrameAt(cfg.codec, Preloaded(cfg), s.down, |s.down.got|);
  }

  lemma OneCallEach<Tree, Table>(s: Mux<Tree, Table>, i: nat, j: nat)
    requires NumbersOk(s) && i in s.calls && j in s.calls && i < |s.all| && j < |s.all|
    requires s.all[i].correlation == s.all[j].correlation
    ensures i == j
  {
  }

  // What the head of the loop leaves of the other calls.
  lemma LookChangesOne<Tree, Table>(s: Mux<Tree, Table>, i: nat, timeUp: bool)
    requires i < |s.all| && s.all[i].phase.Started?
    ensures var s' := LoopTop(s, i, timeUp);
            && |s'.all| == |s.all| && (forall m <- s'.calls :: m in s.calls) && s'.link == s.link
            && forall m :: 0 <= m < |s.all| && (m != i || !timeUp || !s.all[i].outcome.Pending?) ==>
                 s'.all[m].outcome == s.all[m].outcome
  {
    hide Without, HandOff;
    WithoutLess(s.calls, i);
    HandOffChangesNone(SetPhase(s, i, Finished));
    HandOffChangesNone(Fail(s, i));
  }

  lemma HandOffChangesNone<Tree, Table>(s: Mux<Tree, Table>)
    ensures var s' := HandOff(s);
            && |s'.all| == |s.all| && s'.calls == s.calls && s'.link == s.link
            && forall m :: 0 <= m < |s.all| ==> s'.all[m].outcome == s.all[m].outcome
  {
    HandOffIs(s);
    HandOffCalls(s);
  }

  lemma HandOffCalls<Tree, Table>(s: Mux<Tree, Table>)
    ensures HandOff(s).calls == s.calls && HandOff(s).link == s.link
  {
  }

  // A call off the list is off it, and it was on it once.
  lemma GoneFromList(calls: seq<nat>, j: nat)
    requires Distinct(calls)
    ensures j !in Without(calls, j)
  {
    WithoutIs(calls, j);
  }

  // The reader reads a frame for call j: j has the response the server built, and is waited
  // for no more; every other call is as it was - but for the reader itself, when its time is
  // up.
  lemma ReaderDelivers<Tree(!new), Table(!new)>(cfg: Config<Tree, Table>, s: Mux<Tree, Table>, i: nat, timeUp: bool,
                                                j: nat)
    requires RoundTrips(cfg.codec) && MatchOk(cfg, s) && TurnsOk(s) && Enabled(cfg, s, ReaderRuns(i, true, timeUp))
    requires Acceptable(s.down.wire[0]) && j in s.calls && j < |s.all|
    requires s.all[j].correlation == s.down.wire[0].correlation
    ensures |s.down.got| < |s.answered| && s.answered[|s.down.got|].correlation == s.all[j].correlation
    ensures var s' := Next(cfg, s, ReaderRuns(i, true, timeUp));
            && |s'.all| == |s.all| && s'.link == s.link
            && s'.all[j].outcome == Replied(s.answered[|s.down.got|].reply) && j !in s'.calls
            && forall m :: 0 <= m < |s.all| && m != j && (m != i || !timeUp) ==> s'.all[m].outcome == s.all[m].outcome
  {
    hide Receive, LoopTop, ReadFrame, MatchOk, NumbersOk, PhasesOk, WriteOk, ReadOk, Without;
    NextResponse(cfg, s);
    ReadFrameIs(cfg, s);
    var down := Receive(cfg.codec, s.down).value;
    var tree := down.got[|down.got| - 1].tree;
    var d :| d in s.calls && d < |s.all| && s.all[d].correlation == s.all[j].correlation
      && ReadFrame(cfg, s) == CallDone(s.(down := down), d, Replied(tree));
    NumbersOf(cfg, s);
    OneCallEach(s, d, j);
    GoneFromList(s.calls, j);
    var s1 := ReadFrame(cfg, s);
    assert s1.all[i].phase.Reading?;
    LookChangesOne(SetPhase(s1, i, Started).(reading := false), i, timeUp);
  }

  lemma NumbersOf<Tree, Table>(cfg: Config<Tree, Table>, s: Mux<Tree, Table>)
    requires MatchOk(cfg, s)
    ensures NumbersOk(s)
  {
  }

  // A frame no call on the list is for changes no outcome.
  lemma LateIsDropped<Tree(!new), Table(!new)>(cfg: Config<Tree, Table>, s: Mux<Tree, Table>, i: nat, timeUp: bool)
    requires RoundTrips(cfg.codec) && MatchOk(cfg, s) && TurnsOk(s) && Enabled(cfg, s, ReaderRuns(i, true, timeUp))
    requires Acceptable(s.down.wire[0])
    requires forall j <- s.calls :: j < |s.all| && s.all[j].correlation != s.down.wire[0].correlation
    ensures var s' := Next(cfg, s, ReaderRuns(i, true, timeUp));
            && |s'.all| == |s.all| && s'.link == s.link
            && forall m :: 0 <= m < |s.all| && (m != i || !timeUp) ==> s'.all[m].outcome == s.all[m].outcome
  {
    hide Receive, LoopTop, ReadFrame, MatchOk, PhasesOk, WriteOk, ReadOk;
    NextResponse(cfg, s);
    ReadFrameIs(cfg, s);
    var s1 := ReadFrame(cfg, s);
    assert s1.all == s.all;
    LookChangesOne(SetPhase(s1, i, Started).(reading := false), i, timeUp);
  }

  // ---------------------------------------------------------------------------
  // In every run

  lemma RunOfFront<Tree, Table>(cfg: Config<Tree, Table>, steps: seq<Step<Tree>>, more: seq<Step<Tree>>)
    requires Run(cfg, steps + more).Some?
    ensures Run(cfg, steps).Some?
    decreases |more|
  {
    if more == [] {
      assert steps + more == steps;
    } else {
      assert (steps + more)[..|steps + more| - 1] == steps + more[..|more| - 1];
      RunOfFront(cfg, steps, more[..|more| - 1]);
    }
  }

  lemma RunOn<Tree, Table>(cfg: Config<Tree, Table>, steps: seq<Step<Tree>>, step: Step<Tree>)
    requires Run(cfg, steps + [step]).Some?
    ensures Run(cfg, steps).Some? && Enabled(cfg, Run(cfg, steps).value, step)
    ensures Run(cfg, steps + [step]).value == Next(cfg, Run(cfg, steps).value, step)
  {
    hide Enabled, Next;
    assert (steps + [step])[..|steps|] == steps;
  }

  // In every run, a call whose response is read while it is on the list holds that response
  // from then on.
  lemma HeldForGood<Tree(!new), Table(!new)>(cfg: Config<Tree, Table>, steps: seq<Step<Tree>>, i: nat, timeUp: bool,
                                             more: seq<Step<Tree>>, j: nat)
    requires RoundTrips(cfg.codec) && Run(cfg, steps + [ReaderRuns(i, true, timeUp)] + more).Some?
    requires Run(cfg, steps).Some? && j in Run(cfg, steps).value.calls && j < |Run(cfg, steps).value.all|
    requires var s := Run(cfg, steps).value;
             && s.down.wire != [] && Acceptable(s.down.wire[0])
             && s.all[j].correlation == s.down.wire[0].correlation
    ensures var s, s' := Run(cfg, steps).value, Run(cfg, steps + [ReaderRuns(i, true, timeUp)] + more).value;
            && |s.down.got| < |s.answered| && s.answered[|s.down.got|].correlation == s.all[j].correlation
            && j < |s'.all| && s'.all[j].outcome == Replied(s.answered[|s.down.got|].reply)
  {
    hide Run, Enabled, Next, MatchOk, TurnsOk;
    var read := steps + [ReaderRuns(i, true, timeUp)];
    RunOfFront(cfg, read, more);
    RunOn(cfg, steps, ReaderRuns(i, true, timeUp));
    MatchAlways(cfg, steps);
    TurnsAlways(cfg, steps);
    FrontIsEnabled(cfg, Run(cfg, steps).value, i, timeUp);
    ReaderDelivers(cfg, Run(cfg, steps).value, i, timeUp, j);
    CompletesOnce(cfg, read, more);
  }

  lemma FrontIsEnabled<Tree, Table>(cfg: Config<Tree, Table>, s: Mux<Tree, Table>, i: nat, timeUp: bool)
    requires Enabled(cfg, s, ReaderRuns(i, true, timeUp))
    ensures s.down.wire != []
  {
  }

  // A call that is not numbered has not been sent, and the other way round.
  ghost predicate NumberedOnce<Tree, Table>(s: Mux<Tree, Table>) {
    forall i :: 0 <= i < |s.all| && BeforeSending(s.all[i].phase) ==> s.all[i].correlation == 0
  }

  // Nobody goes back to where he has no number.
  ghost predicate NoneBack<Tree, Table>(s: Mux<Tree, Table>, s': Mux<Tree, Table>) {
    && |s'.all| == |s.all|
    && forall i :: 0 <= i < |s.all| && BeforeSending(s'.all[i].phase) ==>
         BeforeSending(s.all[i].phase) && s'.all[i].correlation == s.all[i].correlation
  }

  lemma NoneBackTwice<Tree, Table>(s: Mux<Tree, Table>, s1: Mux<Tree, Table>, s2: Mux<Tree, Table>)
    requires NoneBack(s, s1) && NoneBack(s1, s2)
    ensures NoneBack(s, s2)
  {
  }

  lemma ReleaseNoneBack<Tree, Table>(s: Mux<Tree, Table>)
    requires s.writers != [] ==> s.writers[0] < |s.all| && s.all[s.writers[0]].phase.WriteParked?
    ensures NoneBack(s, ReleaseWrite(s))
  {
  }

  lemma LookNoneBack<Tree, Table>(s: Mux<Tree, Table>, i: nat, timeUp: bool)
    requires i < |s.all| && s.all[i].phase.Started?
    ensures NoneBack(s, LoopTop(s, i, timeUp))
  {
    hide Without, HandOff;
    HandOffIs(SetPhase(s, i, Finished));
    HandOffIs(Fail(s, i));
  }

  // One call goes on, and no other.
  lemma OneGoesOn<Tree, Table>(s: Mux<Tree, Table>, i: nat, s1: Mux<Tree, Table>)
    requires i < |s.all| == |s1.all|
    requires !BeforeSending(s1.all[i].phase)
             || (s.all[i].phase.WriteWoken? && s1.all[i].correlation == s.all[i].correlation)
    requires forall j :: 0 <= j < |s.all| && j != i ==>
               s1.all[j].phase == s.all[j].phase && s1.all[j].correlation == s.all[j].correlation
    ensures NoneBack(s, s1)
  {
  }

  lemma MuxFailNoneBack<Tree, Table>(s: Mux<Tree, Table>)
    ensures NoneBack(s, MuxFail(s))
  {
  }

  lemma WriterRunsNoneBack<Tree, Table>(cfg: Config<Tree, Table>, s: Mux<Tree, Table>, i: nat)
    requires WriteOk(s) && Enabled(cfg, s, WriterRuns(i))
    ensures NoneBack(s, Next(cfg, s, WriterRuns(i)))
  {
    hide Without, ReleaseWrite, CanSend, Enqueue, WriteOk, NoneBack;
    WriterAtHead(s);
    if s.writing || s.link == Open {
      OneGoesOn(s, i, Next(cfg, s, WriterRuns(i)));
    } else {
      FreedNoneBack(s, i, Fail(s, i));
    }
  }

  lemma ConnectNoneBack<Tree, Table>(cfg: Config<Tree, Table>, s: Mux<Tree, Table>, i: nat, ok: bool)
    requires WriteOk(s) && Enabled(cfg, s, ConnectEnds(i, ok))
    ensures NoneBack(s, Next(cfg, s, ConnectEnds(i, ok)))
  {
    hide Without, ReleaseWrite, CanSend, Enqueue, WriteOk, NoneBack;
    WriterAtHead(s);
    if ok {
      OneGoesOn(s, i, Next(cfg, s, ConnectEnds(i, ok)));
    } else {
      FreedNoneBack(s, i, Fail(s.(reading := false), i));
    }
  }

  lemma WriteNoneBack<Tree, Table>(cfg: Config<Tree, Table>, s: Mux<Tree, Table>, i: nat, k: nat)
    requires WriteOk(s) && Enabled(cfg, s, WriteSome(i, k))
    ensures NoneBack(s, Next(cfg, s, WriteSome(i, k)))
  {
    hide ReleaseWrite, WriteOk, NoneBack, FrameBytes;
    WriterAtHead(s);
    var f, pos := s.all[i].phase.frame, s.all[i].phase.pos;
    var s1 := s.(written := s.written + FrameBytes(f)[pos..pos + k]);
    if pos + k < |FrameBytes(f)| {
      OneGoesOn(s, i, Next(cfg, s, WriteSome(i, k)));
    } else {
      FreedNoneBack(s, i, SetPhase(FrameWritten(s1, f), i, Started));
    }
  }

  lemma SendFailsNoneBack<Tree, Table>(cfg: Config<Tree, Table>, s: Mux<Tree, Table>, i: nat)
    requires WriteOk(s) && Enabled(cfg, s, SendFails(i))
    ensures NoneBack(s, Next(cfg, s, SendFails(i)))
  {
    hide Without, ReleaseWrite, WriteOk, NoneBack, MuxFail;
    WriterAtHead(s);
    FreedNoneBack(s, i, Fail(s, i));
    MuxFailNoneBack(ReleaseWrite(Fail(s, i)));
    NoneBackTwice(s, ReleaseWrite(Fail(s, i)), MuxFail(ReleaseWrite(Fail(s, i))));
  }

  lemma WriterNoneBack<Tree, Table>(cfg: Config<Tree, Table>, s: Mux<Tree, Table>, step: Step<Tree>)
    requires WriteOk(s) && Enabled(cfg, s, step)
    requires step.WriterRuns? || step.ConnectEnds? || step.WriteSome? || step.SendFails?
    ensures NoneBack(s, Next(cfg, s, step))
  {
    hide WriteOk, NoneBack, Next, Enabled;
    match step
    case WriterRuns(i) => WriterRunsNoneBack(cfg, s, i);
    case ConnectEnds(i, ok) => ConnectNoneBack(cfg, s, i, ok);
    case WriteSome(i, k) => WriteNoneBack(cfg, s, i, k);
    case SendFails(i) => SendFailsNoneBack(cfg, s, i);
  }

  // One call goes on, and its turn is let go of.
  lemma FreedNoneBack<Tree, Table>(s: Mux<Tree, Table>, i: nat, s1: Mux<Tree, Table>)
    requires i < |s.all| == |s1.all| && s1.writers == s.writers && !s.all[i].phase.WriteParked?
    requires s.writers != [] ==> s.writers[0] < |s.all| && s.all[s.writers[0]].phase.WriteParked?
    requires !BeforeSending(s1.all[i].phase)
    requires forall j :: 0 <= j < |s.all| && j != i ==>
               s1.all[j].phase == s.all[j].phase && s1.all[j].correlation == s.all[j].correlation
    ensures NoneBack(s, ReleaseWrite(s1))
  {
    ReleaseNoneBack(s1);
    NoneBackTwice(s, s1, ReleaseWrite(s1));
  }

  // The loop's head after something else.
  lemma ThenLookNoneBack<Tree, Table>(s: Mux<Tree, Table>, s1: Mux<Tree, Table>, i: nat, timeUp: bool)
    requires NoneBack(s, s1) && i < |s.all|
    ensures NoneBack(s, LoopTop(SetPhase(s1, i, Started), i, timeUp))
    ensures NoneBack(s, LoopTop(SetPhase(s1, i, Started).(reading := false), i, timeUp))
  {
    hide LoopTop;
    LookNoneBack(SetPhase(s1, i, Started), i, timeUp);
    LookNoneBack(SetPhase(s1, i, Started).(reading := false), i, timeUp);
  }

  lemma ReadFrameNoneBack<Tree, Table>(cfg: Config<Tree, Table>, s: Mux<Tree, Table>)
    requires s.down.wire != []
    ensures NoneBack(s, ReadFrame(cfg, s))
  {
    hide ReadFrame, Receive, Without;
    ReadFrameIs(cfg, s);
  }

  lemma WaiterNoneBack<Tree, Table>(cfg: Config<Tree, Table>, s: Mux<Tree, Table>, step: Step<Tree>)
    requires Enabled(cfg, s, step)
    requires step.WaitBegins? || step.ParkEnds? || step.ReaderRuns? || step.ReadFails?
    ensures NoneBack(s, Next(cfg, s, step))
  {
    hide LoopTop, ReadFrame, MuxFail, NoneBack;
    SameNoneBack(s);
    match step
    case WaitBegins(i, timeUp) =>
      assert SetPhase(s, i, Started) == s;
      ThenLookNoneBack(s, s, i, timeUp);
    case ParkEnds(i, timeUp) =>
      ThenLookNoneBack(s, s, i, timeUp);
    case ReaderRuns(i, ready, timeUp) =>
      if ready {
        ReadFrameNoneBack(cfg, s);
      }
      ThenLookNoneBack(s, if ready then ReadFrame(cfg, s) else s, i, timeUp);
    case ReadFails(i) =>
      MuxFailNoneBack(s);
      ThenLookNoneBack(s, MuxFail(s), i, true);
  }

  lemma SameNoneBack<Tree, Table>(s: Mux<Tree, Table>)
    ensures NoneBack(s, s)
  {
  }

  lemma NextIsNumberedOnce<Tree, Table>(cfg: Config<Tree, Table>, s: Mux<Tree, Table>, step: Step<Tree>)
    requires TurnsOk(s) && NumberedOnce(s) && Enabled(cfg, s, step)
    ensures NumberedOnce(Next(cfg, s, step))
  {
    hide CallsOk, PhasesOk, ReadOk, WriteOk;
    if step.WriterRuns? || step.ConnectEnds? || step.WriteSome? || step.SendFails? {
      hide Next, Enabled;
      WriterNoneBack(cfg, s, step);
    } else if step.WaitBegins? || step.ParkEnds? || step.ReaderRuns? || step.ReadFails? {
      hide Next, Enabled;
      WaiterNoneBack(cfg, s, step);
    } else if step.Ask? {
      AskIsNumberedOnce(cfg, s, step.request);
    }
  }

  lemma AskIsNumberedOnce<Tree, Table>(cfg: Config<Tree, Table>, s: Mux<Tree, Table>, request: Tree)
    requires TurnsOk(s) && NumberedOnce(s) && Enabled(cfg, s, Ask(request))
    ensures NumberedOnce(Next(cfg, s, Ask(request)))
  {
    hide CallsOk, PhasesOk, ReadOk, WriteOk, Without, ReleaseWrite, CanSend, Enqueue;
    var s1, i := Spawned(s, request), |s.all|;
    assert NumberedOnce(s1);
  }

  lemma {:induction false} NumberedOnceAlways<Tree, Table>(cfg: Config<Tree, Table>, steps: seq<Step<Tree>>)
    requires Run(cfg, steps).Some?
    ensures NumberedOnce(Run(cfg, steps).value)
  {
    hide TurnsOk, Enabled, Next;
    if steps != [] {
      var before := steps[..|steps| - 1];
      NumberedOnceAlways(cfg, before);
      TurnsAlways(cfg, before);
      NextIsNumberedOnce(cfg, Run(cfg, before).value, steps[|steps| - 1]);
    }
  }

  // In every run, a call is done with once the response to it has been read: it holds that
  // response, or it had failed before.
  lemma ReadIsSettled<Tree(!new), Table(!new)>(cfg: Config<Tree, Table>, steps: seq<Step<Tree>>, k: nat, j: nat)
    requires RoundTrips(cfg.codec) && Run(cfg, steps).Some?
    requires var s := Run(cfg, steps).value;
             && k < |s.down.got| && k < |s.answered| && j < |s.all| && s.all[j].correlation == s.answered[k].correlation
    ensures var s := Run(cfg, steps).value;
            s.all[j].outcome == Replied(s.answered[k].reply) || s.all[j].outcome.Failed?
  {
    hide Run, MatchOk, TurnsOk;
    MatchAlways(cfg, steps);
    TurnsAlways(cfg, steps);
    NumberedOnceAlways(cfg, steps);
    var s := Run(cfg, steps).value;
    SettledIn(cfg, s, k, j);
    if s.all[j].outcome.Replied? {
      AnsweredForIt(cfg, s, j);
      var k' :| BuiltFor(s, k', s.all[j]);
      assert k' == k;
    }
  }

  lemma SettledIn<Tree, Table>(cfg: Config<Tree, Table>, s: Mux<Tree, Table>, k: nat, j: nat)
    requires MatchOk(cfg, s) && TurnsOk(s) && NumberedOnce(s) && k < |s.down.got| && k < |s.answered| && j < |s.all|
    requires s.all[j].correlation == s.answered[k].correlation
    ensures !s.all[j].outcome.Pending?
  {
    hide BytesOk, NothingLost, WriteOk, ReadOk, TablesOk;
    assert Taken(s, s.answered[k].correlation, s.answered[k].request);
    assert j in s.calls ==> Unread(s, s.all[j].correlation);
  }

  // ---------------------------------------------------------------------------
  // What makes a call fail

  // The time of its own wait is up, its own connect failed, the connection it found had
  // failed, or the connection failed: a write, a wait that cannot be had, or a frame that is
  // none.
  ghost predicate Fails<Tree, Table>(cfg: Config<Tree, Table>, s: Mux<Tree, Table>, step: Step<Tree>, j: nat) {
    match step
    case WriterRuns(i) => i == j && s.link != Open && !s.writing
    case ConnectEnds(i, ok) => i == j && !ok
    case SendFails(i) => i == j || j in s.calls
    case WaitBegins(i, timeUp) => i == j && timeUp
    case ParkEnds(i, timeUp) => i == j && timeUp
    case ReaderRuns(i, ready, timeUp) =>
      (i == j && timeUp) || (ready && s.down.wire != [] && Receive(cfg.codec, s.down).None? && j in s.calls)
    case ReadFails(i) => i == j || j in s.calls
    case _ => false
  }

  lemma FailsOnlyWhen<Tree, Table>(cfg: Config<Tree, Table>, s: Mux<Tree, Table>, step: Step<Tree>, j: nat)
    requires Enabled(cfg, s, step) && j < |s.all| && s.all[j].outcome.Pending?
    ensures j < |Next(cfg, s, step).all|
    ensures Next(cfg, s, step).all[j].outcome.Failed? ==> Fails(cfg, s, step, j)
  {
    if step.Ask? || step.WriterRuns? || step.ConnectEnds? || step.WriteSome? || step.SendFails? {
      WriterFails(cfg, s, step, j);
    } else if step.WaitBegins? || step.ParkEnds? || step.ReaderRuns? || step.ReadFails? {
      WaiterFails(cfg, s, step, j);
    }
  }

  lemma ReleaseChangesNone<Tree, Table>(s: Mux<Tree, Table>)
    ensures var s' := ReleaseWrite(s);
            && |s'.all| == |s.all| && s'.calls == s.calls
            && forall m :: 0 <= m < |s.all| ==> s'.all[m].outcome == s.all[m].outcome
  {
  }

  lemma WriterFails<Tree, Table>(cfg: Config<Tree, Table>, s: Mux<Tree, Table>, step: Step<Tree>, j: nat)
    requires Enabled(cfg, s, step) && j < |s.all| && s.all[j].outcome.Pending?
    requires step.Ask? || step.WriterRuns? || step.ConnectEnds? || step.WriteSome? || step.SendFails?
    ensures j < |Next(cfg, s, step).all|
    ensures Next(cfg, s, step).all[j].outcome.Failed? ==> Fails(cfg, s, step, j)
  {
    hide Without, ReleaseWrite, CanSend, Enqueue, FrameBytes;
    match step
    case Ask(request) => ReleaseChangesNone(Fail(Spawned(s, request), |s.all|));
    case WriterRuns(i) => ReleaseChangesNone(Fail(s, i));
    case ConnectEnds(i, ok) => ReleaseChangesNone(Fail(s.(reading := false), i));
    case WriteSome(i, k) =>
      var f, pos := s.all[i].phase.frame, s.all[i].phase.pos;
      ReleaseChangesNone(SetPhase(FrameWritten(s.(written := s.written + FrameBytes(f)[pos..pos + k]), f), i, Started));
    case SendFails(i) =>
      ReleaseChangesNone(Fail(s, i));
      WithoutLess(s.calls, i);
  }

  lemma ReaderFails<Tree, Table>(cfg: Config<Tree, Table>, s: Mux<Tree, Table>, i: nat, ready: bool, timeUp: bool,
                                 j: nat)
    requires Enabled(cfg, s, ReaderRuns(i, ready, timeUp)) && j < |s.all| && s.all[j].outcome.Pending?
    ensures j < |Next(cfg, s, ReaderRuns(i, ready, timeUp)).all|
    ensures Next(cfg, s, ReaderRuns(i, ready, timeUp)).all[j].outcome.Failed? ==>
              Fails(cfg, s, ReaderRuns(i, ready, timeUp), j)
  {
    hide LoopTop, ReadFrame, Receive, Without;
    var s1 := if ready then ReadFrame(cfg, s) else s;
    if ready {
      ReadFrameIs(cfg, s);
    }
    LookChangesOne(SetPhase(s1, i, Started).(reading := false), i, timeUp);
  }

  lemma WaiterFails<Tree, Table>(cfg: Config<Tree, Table>, s: Mux<Tree, Table>, step: Step<Tree>, j: nat)
    requires Enabled(cfg, s, step) && j < |s.all| && s.all[j].outcome.Pending?
    requires step.WaitBegins? || step.ParkEnds? || step.ReaderRuns? || step.ReadFails?
    ensures j < |Next(cfg, s, step).all|
    ensures Next(cfg, s, step).all[j].outcome.Failed? ==> Fails(cfg, s, step, j)
  {
    hide LoopTop, ReadFrame, Receive;
    match step
    case WaitBegins(i, timeUp) => LookChangesOne(s, i, timeUp);
    case ParkEnds(i, timeUp) => LookChangesOne(SetPhase(s, i, Started), i, timeUp);
    case ReaderRuns(i, ready, timeUp) => ReaderFails(cfg, s, i, ready, timeUp, j);
    case ReadFails(i) => LookChangesOne(SetPhase(MuxFail(s), i, Started).(reading := false), i, true);
  }

  // And then it does fail - or a response came in with the same step.
  lemma FailsThen<Tree, Table>(cfg: Config<Tree, Table>, s: Mux<Tree, Table>, step: Step<Tree>, j: nat)
    requires TurnsOk(s) && Enabled(cfg, s, step) && j < |s.all| && s.all[j].outcome.Pending? && Fails(cfg, s, step, j)
    ensures j < |Next(cfg, s, step).all|
    ensures var outcome := Next(cfg, s, step).all[j].outcome;
            outcome.Failed? || (outcome.Replied? && step.ReaderRuns? && step.ready)
  {
    hide Without, ReleaseWrite, CanSend, Enqueue, HandOff, LoopTop, ReadFrame, Receive, PhasesOk, WriteOk, ReadOk;
    match step
    case WriterRuns(i) => ReleaseChangesNone(Fail(s, i));
    case ConnectEnds(i, ok) => ReleaseChangesNone(Fail(s.(reading := false), i));
    case SendFails(i) => SendFailsThen(s, i, j);
    case WaitBegins(i, timeUp) => LookFails(s, i);
    case ParkEnds(i, timeUp) => LookFails(SetPhase(s, i, Started), i);
    case ReaderRuns(i, ready, timeUp) => ReaderFailsThen(cfg, s, i, ready, timeUp, j);
    case ReadFails(i) =>
      var s1 := SetPhase(MuxFail(s), i, Started).(reading := false);
      LookChangesOne(s1, i, true);
    case _ =>
  }

  lemma LookFails<Tree, Table>(s: Mux<Tree, Table>, i: nat)
    requires i < |s.all| && s.all[i].outcome.Pending?
    ensures |LoopTop(s, i, true).all| == |s.all| && LoopTop(s, i, true).all[i].outcome == Failed
  {
    hide Without, HandOff;
    HandOffChangesNone(Fail(s, i));
  }

  lemma SendFailsThen<Tree, Table>(s: Mux<Tree, Table>, i: nat, j: nat)
    requires Distinct(s.calls) && i < |s.all| && j < |s.all| && (i == j || j in s.calls)
    ensures |MuxFail(ReleaseWrite(Fail(s, i))).all| == |s.all|
    ensures MuxFail(ReleaseWrite(Fail(s, i))).all[j].outcome == Failed
  {
    hide Without, ReleaseWrite;
    ReleaseChangesNone(Fail(s, i));
    WithoutIs(s.calls, i);
  }

  lemma ReaderFailsThen<Tree, Table>(cfg: Config<Tree, Table>, s: Mux<Tree, Table>, i: nat, ready: bool, timeUp: bool,
                                     j: nat)
    requires Enabled(cfg, s, ReaderRuns(i, ready, timeUp)) && j < |s.all| && s.all[j].outcome.Pending?
    requires Fails(cfg, s, ReaderRuns(i, ready, timeUp), j) && (forall m :: m in s.calls ==> m < |s.all|)
    ensures j < |Next(cfg, s, ReaderRuns(i, ready, timeUp)).all|
    ensures var outcome := Next(cfg, s, ReaderRuns(i, ready, timeUp)).all[j].outcome;
            outcome.Failed? || (outcome.Replied? && ready)
  {
    hide LoopTop, ReadFrame, Receive, Without;
    var s1 := if ready then ReadFrame(cfg, s) else s;
    if ready {
      ReadFrameIs(cfg, s);
    }
    var s2 := SetPhase(s1, i, Started).(reading := false);
    LookChangesOne(s2, i, timeUp);
    if s2.all[i].outcome.Pending? {
      LookFails(s2, i);
    }
  }

  // Whose step it is.
  function MoverOf<Tree>(step: Step<Tree>): Option<nat> {
    match step
    case WriterRuns(i) => Some(i)
    case ConnectEnds(i, _) => Some(i)
    case WriteSome(i, _) => Some(i)
    case SendFails(i) => Some(i)
    case WaitBegins(i, _) => Some(i)
    case ParkEnds(i, _) => Some(i)
    case ReaderRuns(i, _, _) => Some(i)
    case ReadFails(i) => Some(i)
    case _ => None
  }

  // As long as a call is not finished, some coroutine can go on: its own, unless it is in the
  // writers' queue - then the one that has the write turn, or was woken for it.
  lemma SomebodyGoesOn<Tree, Table>(cfg: Config<Tree, Table>, s: Mux<Tree, Table>, i: nat) returns (step: Step<Tree>)
    requires TurnsOk(s) && i < |s.all| && s.all[i].phase != Finished
    requires forall j :: 0 <= j < |s.all| ==> CanSend(cfg, s, s.all[j].request)
    ensures Enabled(cfg, s, step) && MoverOf(step).Some?
    ensures s.all[i].phase != WriteParked ==> MoverOf(step) == Some(i)
    ensures s.all[i].phase == WriteParked ==>
              var j := MoverOf(step).value; j < |s.all| && (Holds(s.all[j].phase) || s.all[j].phase == WriteWoken)
  {
    hide CallsOk, ReadOk, CanSend;
    var j := i;
    if s.all[i].phase == WriteParked {
      assert s.writers != [] by { assert i in s.writers; }
      if k :| 0 <= k < |s.all| && Holds(s.all[k].phase) {
        j := k;
      } else {
        j :| 0 <= j < |s.all| && s.all[j].phase.WriteWoken?;
      }
    }
    match s.all[j].phase
    case WriteWoken => step := WriterRuns(j);
    case Connecting => step := ConnectEnds(j, false);
    case Sending(_, _) => step := SendFails(j);
    case Started => step := WaitBegins(j, false);
    case ReadParked => step := ParkEnds(j, false);
    case ReadWoken => step := ParkEnds(j, false);
    case Reading => step := ReaderRuns(j, false, false);
    case WriteParked =>
    case Finished =>
  }

  // A frame that is too large, or no frame of the codec's, ends every call that waits.
  lemma BadFrameFailsAll<Tree, Table>(cfg: Config<Tree, Table>, s: Mux<Tree, Table>, i: nat, timeUp: bool, j: nat)
    requires TurnsOk(s) && Enabled(cfg, s, ReaderRuns(i, true, timeUp)) && Receive(cfg.codec, s.down).None?
    requires j in s.calls && j < |s.all|
    ensures var s' := Next(cfg, s, ReaderRuns(i, true, timeUp));
            j < |s'.all| && s'.all[j].outcome == Failed && s'.link == Broken
  {
    hide LoopTop, Receive, PhasesOk, WriteOk, ReadOk;
    LookChangesOne(SetPhase(MuxFail(s), i, Started).(reading := false), i, timeUp);
  }

  // ---------------------------------------------------------------------------
  // A call from its start to its end

  // What a call to a peer not connected to goes through when all goes well.
  function GoodSteps<Tree>(request: Tree, len: nat, reply: Tree): seq<Step<Tree>> {
    [Ask(request), ConnectEnds(0, true), WriteSome(0, len), ServerTakes, ServerReplies(0, reply), ServerFlushes,
     WaitBegins(0, false), ReaderRuns(0, true, false)]
  }

  lemma StepOn<Tree, Table>(cfg: Config<Tree, Table>, steps: seq<Step<Tree>>, step: Step<Tree>, s: Mux<Tree, Table>)
    requires Run(cfg, steps) == Some(s) && Enabled(cfg, s, step)
    ensures Run(cfg, steps + [step]) == Some(Next(cfg, s, step))
  {
    hide Enabled, Next;
    assert (steps + [step])[..|steps|] == steps;
  }

  // Connected, and the request written whole.
  lemma RequestGoes<Tree, Table>(cfg: Config<Tree, Table>, request: Tree) returns (s: Mux<Tree, Table>)
    requires |cfg.codec.encode(request, Preloaded(cfg))| <= FRAME_MAX
    ensures var t := Preloaded(cfg);
            var f := Frame(FRAME_REQUEST, 1, cfg.codec.encode(request, t));
            && Run(cfg, [Ask(request), ConnectEnds(0, true), WriteSome(0, |FrameBytes(f)|)]) == Some(s)
            && s.link == Open && s.all == [Call(Started, 1, request, Pending)] && s.calls == [0] && !s.reading
            && s.up == Channel(FRAME_REQUEST, cfg.codec.learn(request, t), t, [], [f], [Entry(1, request)], [])
            && s.down == Fresh(FRAME_RESPONSE, t) && s.inflight == [] && s.answered == [] && !s.dedicated
  {
    hide FrameBytes;
    var t := Preloaded(cfg);
    var f := Frame(FRAME_REQUEST, 1, cfg.codec.encode(request, t));
    SomeBytes(f);
    var s0 := Init(cfg);
    var s1 := Next(cfg, s0, Ask(request));
    StepOn(cfg, [], Ask(request), s0);
    assert [] + [Ask(request)] == [Ask(request)];
    assert s1.all == [Call(Connecting, 0, request, Pending)];
    var s2 := Next(cfg, s1, ConnectEnds(0, true));
    StepOn(cfg, [Ask(request)], ConnectEnds(0, true), s1);
    assert [Ask(request)] + [ConnectEnds(0, true)] == [Ask(request), ConnectEnds(0, true)];
    assert s2.all == [Call(Sending(f, 0), 1, request, Pending)];
    var write := WriteSome(0, |FrameBytes(f)|);
    StepOn(cfg, [Ask(request), ConnectEnds(0, true)], write, s2);
    assert [Ask(request), ConnectEnds(0, true)] + [write] == [Ask(request), ConnectEnds(0, true), write];
    s := Next(cfg, s2, write);
    assert s.calls == [0];
  }

  lemma SomeBytes(f: Frame)
    requires Encodable(f)
    ensures |FrameBytes(f)| > 0
  {
  }

  // The server takes it,
  lemma RequestIsTaken<Tree(!new), Table(!new)>(cfg: Config<Tree, Table>, request: Tree, s: Mux<Tree, Table>)
    returns (s': Mux<Tree, Table>)
    requires RoundTrips(cfg.codec)
    requires var t := Preloaded(cfg);
             var f := Frame(FRAME_REQUEST, 1, cfg.codec.encode(request, t));
             && |f.body| <= FRAME_MAX && s.up.wire == [f] && s.up.mirror == t && s.up.got == []
             && s.inflight == [] && !s.dedicated
    ensures Enabled(cfg, s, ServerTakes) && s' == Next(cfg, s, ServerTakes)
    ensures s'.inflight == [Job(1, request)] && s' == s.(up := s'.up, inflight := s'.inflight)
  {
    var t := Preloaded(cfg);
    assert cfg.codec.decode(cfg.codec.encode(request, t), t) == Some((request, cfg.codec.learn(request, t)));
    s' := Next(cfg, s, ServerTakes);
  }

  // answers it,
  lemma RequestIsAnswered<Tree, Table>(cfg: Config<Tree, Table>, request: Tree, reply: Tree, s: Mux<Tree, Table>)
    returns (s': Mux<Tree, Table>)
    requires s.inflight == [Job(1, request)] && s.answered == [] && !s.dedicated
    requires s.down == Fresh(FRAME_RESPONSE, Preloaded(cfg)) && |cfg.codec.encode(reply, Preloaded(cfg))| <= FRAME_MAX
    ensures Enabled(cfg, s, ServerReplies(0, reply)) && s' == Next(cfg, s, ServerReplies(0, reply))
    ensures s'.answered == [Answer(1, request, reply)] && s'.down.mirror == Preloaded(cfg) && s'.down.got == []
    ensures s'.down.wire == [] && s'.down.queue == [Frame(FRAME_RESPONSE, 1, cfg.codec.encode(reply, Preloaded(cfg)))]
    ensures s'.all == s.all && s'.calls == s.calls && s'.link == s.link && s'.reading == s.reading
  {
    s' := Next(cfg, s, ServerReplies(0, reply));
  }

  // and flushes what it queued.
  lemma ResponseComes<Tree(!new), Table(!new)>(cfg: Config<Tree, Table>, request: Tree, reply: Tree,
                                               steps: seq<Step<Tree>>, s: Mux<Tree, Table>) returns (s': Mux<Tree,
                                                   Table>)
    requires RoundTrips(cfg.codec) && Run(cfg, steps) == Some(s)
    requires var t := Preloaded(cfg);
             var f := Frame(FRAME_REQUEST, 1, cfg.codec.encode(request, t));
             && |f.body| <= FRAME_MAX && s.up.wire == [f] && s.up.mirror == t && s.up.got == []
             && s.inflight == [] && s.answered == [] && !s.dedicated && s.down == Fresh(FRAME_RESPONSE, t)
             && |cfg.codec.encode(reply, t)| <= FRAME_MAX
    ensures Run(cfg, steps + [ServerTakes, ServerReplies(0, reply), ServerFlushes]) == Some(s')
    ensures s'.all == s.all && s'.calls == s.calls && s'.link == s.link && s'.reading == s.reading
    ensures var t := Preloaded(cfg);
            && s'.answered == [Answer(1, request, reply)] && s'.down.mirror == t && s'.down.got == []
            && s'.down.wire == [Frame(FRAME_RESPONSE, 1, cfg.codec.encode(reply, t))]
  {
    hide Run, Receive, Enqueue, SendNow, RoundTrips;
    var s1 := RequestIsTaken(cfg, request, s);
    StepOn(cfg, steps, ServerTakes, s);
    var s2 := RequestIsAnswered(cfg, request, reply, s1);
    StepOn(cfg, steps + [ServerTakes], ServerReplies(0, reply), s1);
    StepOn(cfg, steps + [ServerTakes] + [ServerReplies(0, reply)], ServerFlushes, s2);
    s' := Next(cfg, s2, ServerFlushes);
    assert steps + [ServerTakes] + [ServerReplies(0, reply)] + [ServerFlushes] ==
           steps + [ServerTakes, ServerReplies(0, reply), ServerFlushes];
  }

  lemma FrameForTheOnlyCall<Tree(!new), Table(!new)>(cfg: Config<Tree, Table>, reply: Tree, s: Mux<Tree, Table>)
    returns (s': Mux<Tree, Table>)
    requires RoundTrips(cfg.codec) && s.link == Open && s.calls == [0]
    requires |s.all| == 1 && s.all[0].phase == Reading && s.all[0].correlation == 1
    requires |cfg.codec.encode(reply, Preloaded(cfg))| <= FRAME_MAX && s.down.mirror == Preloaded(cfg)
    requires s.down.wire == [Frame(FRAME_RESPONSE, 1, cfg.codec.encode(reply, Preloaded(cfg)))]
    ensures Enabled(cfg, s, ReaderRuns(0, true, false)) && s' == Next(cfg, s, ReaderRuns(0, true, false))
    ensures s'.all == [s.all[0].(phase := Finished, outcome := Replied(reply))] && s'.calls == []
  {
    hide HandOff, Without;
    var t := Preloaded(cfg);
    assert cfg.codec.decode(cfg.codec.encode(reply, t), t) == Some((reply, cfg.codec.learn(reply, t)));
    var s1 := ReadFrame(cfg, s);
    ReadFrameIs(cfg, s);
    OnlyOne(s.calls);
    assert s1.all == [s.all[0].(outcome := Replied(reply))];
    assert s1.calls == [];
    s' := Next(cfg, s, ReaderRuns(0, true, false));
    NobodyToHandTo(SetPhase(SetPhase(s1, 0, Started).(reading := false), 0, Finished));
  }

  lemma OnlyOne(calls: seq<nat>)
    requires calls == [0]
    ensures Without(calls, 0) == [] && forall k :: 0 <= k < |calls| ==> calls[k] == 0
  {
  }

  lemma NobodyToHandTo<Tree, Table>(s: Mux<Tree, Table>)
    requires s.calls == []
    ensures HandOff(s) == s
  {
  }

  lemma ResponseIsRead<Tree(!new), Table(!new)>(cfg: Config<Tree, Table>, reply: Tree, steps: seq<Step<Tree>>,
                                                s: Mux<Tree, Table>) returns (s': Mux<Tree, Table>)
    requires RoundTrips(cfg.codec) && Run(cfg, steps) == Some(s) && s.link == Open && !s.reading && s.calls == [0]
    requires |s.all| == 1 && s.all[0].phase == Started && s.all[0].correlation == 1 && s.all[0].outcome == Pending
    requires var t := Preloaded(cfg);
             && |cfg.codec.encode(reply, t)| <= FRAME_MAX && s.down.mirror == t
             && s.down.wire == [Frame(FRAME_RESPONSE, 1, cfg.codec.encode(reply, t))]
    ensures Run(cfg, steps + [WaitBegins(0, false), ReaderRuns(0, true, false)]) == Some(s')
    ensures s'.all == [s.all[0].(phase := Finished, outcome := Replied(reply))] && s'.calls == []
  {
    hide Run, ReadFrame, Receive, HandOff, RoundTrips;
    var s1 := Next(cfg, s, WaitBegins(0, false));
    StepOn(cfg, steps, WaitBegins(0, false), s);
    s' := FrameForTheOnlyCall(cfg, reply, s1);
    StepOn(cfg, steps + [WaitBegins(0, false)], ReaderRuns(0, true, false), s1);
    assert steps + [WaitBegins(0, false)] + [ReaderRuns(0, true, false)] ==
           steps + [WaitBegins(0, false), ReaderRuns(0, true, false)];
  }

  // Whatever the codec, the request and the reply, within the limit for a frame: the call ends
  // with that reply.
  lemma CallCompletes<Tree(!new), Table(!new)>(cfg: Config<Tree, Table>, request: Tree, reply: Tree)
    requires RoundTrips(cfg.codec)
    requires |cfg.codec.encode(request, Preloaded(cfg))| <= FRAME_MAX
    requires |cfg.codec.encode(reply, Preloaded(cfg))| <= FRAME_MAX
    ensures var f := Frame(FRAME_REQUEST, 1, cfg.codec.encode(request, Preloaded(cfg)));
            var r := Run(cfg, GoodSteps(request, |FrameBytes(f)|, reply));
            r.Some? && r.value.all == [Call(Finished, 1, request, Replied(reply))]
  {
    hide Run, FrameBytes;
    var f := Frame(FRAME_REQUEST, 1, cfg.codec.encode(request, Preloaded(cfg)));
    var sent := [Ask(request), ConnectEnds(0, true), WriteSome(0, |FrameBytes(f)|)];
    var s1 := RequestGoes(cfg, request);
    var s2 := ResponseComes(cfg, request, reply, sent, s1);
    var answered := sent + [ServerTakes, ServerReplies(0, reply), ServerFlushes];
    var s3 := ResponseIsRead(cfg, reply, answered, s2);
    assert answered + [WaitBegins(0, false), ReaderRuns(0, true, false)] == GoodSteps(request, |FrameBytes(f)|, reply);
  }
}
