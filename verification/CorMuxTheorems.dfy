// What a user of the multiplexed connection may count on, in every run of CorMux.
module CorMuxTheorems {
  import opened Base
  import opened CorFrame
  import opened CorCodec
  import opened CorChannel
  import opened CorMux
  import opened CorMuxTurns
  import opened CorMuxMatch

  // The k-th response the server built is the call's: its correlation, its request, and what
  // the call holds.
  ghost predicate BuiltFor<Tree, Table>(s: Mux<Tree, Table>, k: int, c: Call<Tree>)
    requires c.outcome.Replied?
  {
    && 0 <= k < |s.answered| && s.answered[k].correlation == c.correlation
    && s.answered[k].request == c.request && s.answered[k].reply == c.outcome.tree
  }

  // A call that ended without error holds the response the server built for it: for
  // its correlation, which is nobody else's, and for the request it sent.
  lemma ReplyIsItsOwn<Tree(!new), Table(!new)>(cfg: Config<Tree, Table>, steps: seq<Step<Tree>>, i: nat)
    requires RoundTrips(cfg.codec) && Run(cfg, steps).Some?
    requires var s := Run(cfg, steps).value; i < |s.all| && s.all[i].outcome.Replied?
    ensures var s, c := Run(cfg, steps).value, Run(cfg, steps).value.all[i];
            && (exists k :: BuiltFor(s, k, c))
            && (forall j, k :: 0 <= j < k < |s.answered| ==> s.answered[j].correlation != s.answered[k].correlation)
            && (forall j :: 0 <= j < |s.all| && j != i ==> s.all[j].correlation != c.correlation)
  {
    hide Run;
    MatchAlways(cfg, steps);
    AnsweredForIt(cfg, Run(cfg, steps).value, i);
  }

  lemma AnsweredForIt<Tree, Table>(cfg: Config<Tree, Table>, s: Mux<Tree, Table>, i: nat)
    requires MatchOk(cfg, s) && i < |s.all| && s.all[i].outcome.Replied?
    ensures var c := s.all[i]; exists k :: BuiltFor(s, k, c)
    ensures forall j, k :: 0 <= j < k < |s.answered| ==> s.answered[j].correlation != s.answered[k].correlation
    ensures forall j :: 0 <= j < |s.all| && j != i ==> s.all[j].correlation != s.all[i].correlation
  {
    hide BytesOk, NothingLost;
    var c := s.all[i];
    var k :| 0 <= k < |s.down.got| && Answers(s, k, c.correlation, c.outcome.tree);
    assert Taken(s, s.answered[k].correlation, s.answered[k].request);
    assert s.up.got[c.correlation - 1] == s.up.sent[c.correlation - 1];
    assert BuiltFor(s, k, c);
  }

  // In-flight correlations are pairwise distinct.
  lemma {:induction false} InFlightAreDistinct<Tree(!new), Table(!new)>(cfg: Config<Tree, Table>,
                                                                        steps: seq<Step<Tree>>, i: nat, j: nat)
    requires RoundTrips(cfg.codec) && Run(cfg, steps).Some?
    requires var s := Run(cfg, steps).value; i in s.calls && j in s.calls && i != j
    ensures var s := Run(cfg, steps).value;
            i < |s.all| && j < |s.all| && s.all[i].correlation != s.all[j].correlation
  {
    MatchAlways(cfg, steps);
  }

  // After the receiver has decoded k frames its mirror is the sender's table as it was
  // after encoding k, and the trees are the first k encoded - in both directions, with
  // responses nobody waits for, and across the move to a dedicated thread.
  lemma TablesStayInStep<Tree(!new), Table(!new)>(cfg: Config<Tree, Table>, steps: seq<Step<Tree>>)
    requires RoundTrips(cfg.codec) && Run(cfg, steps).Some?
    ensures DecodedAsEncoded(cfg, Run(cfg, steps).value.up) && DecodedAsEncoded(cfg, Run(cfg, steps).value.down)
  {
    MatchAlways(cfg, steps);
  }

  ghost predicate DecodedAsEncoded<Tree, Table>(cfg: Config<Tree, Table>, ch: Channel<Tree, Table>) {
    var k := |ch.got|;
    && k <= |ch.sent| && ch.got == ch.sent[..k]
    && ch.mirror == TableAfter(cfg.codec, Preloaded(cfg), ch.sent[..k])
    && ch.out == TableAfter(cfg.codec, Preloaded(cfg), ch.sent)
  }

  // Why a connection moves to its own thread only with nothing queued: a response written
  // past a queued one is where the queued one should be.
  lemma PastTheQueueIsOutOfStep<Tree, Table>(c: Codec<Tree, Table>, table: Table, ch: Channel<Tree, Table>,
                                             e: Entry<Tree>)
    requires InStep(c, table, ch) && ch.queue != [] && ch.queue[0].correlation != e.correlation
    ensures !InStep(c, table, SendNow(c, ch, e))
  {
    var ch' := SendNow(c, ch, e);
    var k := |ch.wire|;
    assert Transit(ch)[k] == FrameAt(c, table, ch, |ch.got| + k);
    assert Transit(ch')[k].correlation == e.correlation;
    assert FrameAt(c, table, ch', |ch'.got| + k).correlation == ch.sent[|ch.got| + k].correlation;
  }

  // And it cannot be decoded: the queued response has taught the sender a name that the
  // receiver has not seen.
  lemma PastTheQueueIsNotDecoded()
    ensures var c, tree := Interning(), Node([97], Nil, Nil);
            var queued := Enqueue(c, Fresh<Tree, Names>(FRAME_RESPONSE, []), Entry(1, tree));
            var past := SendNow(c, queued, Entry(2, tree));
            && Receive(c, past) == None && past.out != past.mirror
            && Receive(c, SendNow(c, Written(queued), Entry(2, tree))).Some?
  {
    var c, tree := Interning(), Node([97], Nil, Nil);
    var first: Name := [97];
    var ch := Fresh<Tree, Names>(FRAME_RESPONSE, []);
    assert [first][0] == first;
    assert PlaceOf(first, []) == 0 && PlaceOf(first, [first]) == 0;
    assert LearnName(first, []) == [first] && LearnName(first, [first]) == [first];
    var queued := Enqueue(c, ch, Entry(1, tree));
    assert queued.out == [first];
    var past := SendNow(c, queued, Entry(2, tree));
    var f := NewFrame(c, queued, Entry(2, tree));
    assert f.body == Encode(tree, [first]) == [PLACE, 0] + [END] + [END];
    assert past.wire == [f];
    assert Decode(f.body, []) == None;
    InterningRoundTrips();
    assert c.decode(c.encode(tree, []), []) == Some((tree, c.learn(tree, [])));
    assert |c.encode(tree, [])| <= FRAME_MAX;
  }

  // The bytes written are a concatenation of whole frames and at most the beginning of
  // one more, so the server cuts out of them exactly the frames written.
  lemma {:induction false} OnlyWholeFrames<Tree(!new), Table(!new)>(cfg: Config<Tree, Table>, steps: seq<Step<Tree>>)
    requires RoundTrips(cfg.codec) && Run(cfg, steps).Some?
    ensures var s := Run(cfg, steps).value;
            && (forall f <- s.frames + s.up.queue :: Encodable(f)) && |s.up.queue| <= 1
            && Wire(s.frames) <= s.written <= Wire(s.frames + s.up.queue)
            && ((forall f <- s.frames + s.up.queue :: Acceptable(f)) ==> Cut(s.written) == s.frames)
  {
    MatchAlways(cfg, steps);
    var s := Run(cfg, steps).value;
    var partial := s.written[|Wire(s.frames)|..];
    assert s.written == Wire(s.frames) + partial;
    if s.up.queue == [] {
      assert s.frames + s.up.queue == s.frames;
      assert partial == [];
    } else {
      WireSnoc(s.frames, s.up.queue[0]);
      assert s.up.queue == [s.up.queue[0]];
    }
    if forall f <- s.frames + s.up.queue :: Acceptable(f) {
      assert forall f <- s.frames :: f in s.frames + s.up.queue;
      CutWire(s.frames, partial);
      if s.up.queue != [] {
        assert s.up.queue[0] in s.frames + s.up.queue;
        PartCutsToNothing(s.up.queue[0], partial);
      }
      assert Cut(partial) == [];
    }
  }

  lemma PartCutsToNothing(f: Frame, part: seq<Byte>)
    requires Encodable(f) && part < FrameBytes(f)
    ensures Cut(part) == []
  {
    if |part| >= FRAME_HEADER_LEN {
      HeaderMeaning(f);
      assert part[..16] == Header(f);
    }
  }

  // A call still waited for is still to be answered: its request is on the way or with
  // the server, or its response is on the way back and not read.
  lemma {:induction false} WaitedForIsOnItsWay<Tree(!new), Table(!new)>(cfg: Config<Tree, Table>,
                                                                        steps: seq<Step<Tree>>, i: nat)
    requires RoundTrips(cfg.codec) && Run(cfg, steps).Some?
    requires i in Run(cfg, steps).value.calls
    ensures var s := Run(cfg, steps).value;
            && i < |s.all| && 0 < s.all[i].correlation <= |s.up.sent|
            && var c := s.all[i].correlation;
               || c > |s.up.got|
               || (exists j :: 0 <= j < |s.inflight| && s.inflight[j].correlation == c)
               || (exists k :: |s.down.got| <= k < |s.answered| && s.answered[k].correlation == c)
  {
    MatchAlways(cfg, steps);
    var s := Run(cfg, steps).value;
    var c := s.all[i].correlation;
    if c <= |s.up.got| {
      assert InHand(s, c);
      assert Unread(s, c);
      if k :| 0 <= k < |s.answered| && s.answered[k].correlation == c {
        assert k >= |s.down.got|;
      }
    }
  }

  // ---------------------------------------------------------------------------
  // A call completes at most once

  // An outcome, once there, stays.
  ghost predicate Final<Tree, Table>(s: Mux<Tree, Table>, s': Mux<Tree, Table>) {
    && |s.all| <= |s'.all|
    && (forall i :: 0 <= i < |s.all| && !s.all[i].outcome.Pending? ==> s'.all[i].outcome == s.all[i].outcome)
    && (forall i :: 0 <= i < |s.all| && s.all[i].phase.Finished? ==> s'.all[i].phase.Finished?)
  }

  lemma FinalAgain<Tree, Table>(s: Mux<Tree, Table>, s1: Mux<Tree, Table>, s2: Mux<Tree, Table>)
    requires Final(s, s1) && Final(s1, s2)
    ensures Final(s, s2)
  {
  }

  lemma HandOffIsFinal<Tree, Table>(s: Mux<Tree, Table>)
    ensures Final(s, HandOff(s))
  {
    HandOffIs(s);
  }

  lemma LoopTopIsFinal<Tree, Table>(s: Mux<Tree, Table>, i: nat, timeUp: bool)
    requires i < |s.all| && s.all[i].phase.Started?
    ensures Final(s, LoopTop(s, i, timeUp))
  {
    if !s.all[i].outcome.Pending? {
      HandOffIsFinal(SetPhase(s, i, Finished));
      FinalAgain(s, SetPhase(s, i, Finished), HandOff(SetPhase(s, i, Finished)));
    } else if timeUp {
      HandOffIsFinal(Fail(s, i));
      FinalAgain(s, Fail(s, i), HandOff(Fail(s, i)));
    }
  }

  lemma LookIsFinal<Tree, Table>(s: Mux<Tree, Table>, s1: Mux<Tree, Table>, i: nat, timeUp: bool)
    requires i < |s.all| && !s.all[i].phase.Finished?
    requires s1 == SetPhase(s, i, Started) || s1 == SetPhase(s, i, Started).(reading := false)
    ensures Final(s, LoopTop(s1, i, timeUp))
  {
    LoopTopIsFinal(s1, i, timeUp);
    FinalAgain(s, s1, LoopTop(s1, i, timeUp));
  }

  lemma MuxFailIsFinal<Tree, Table>(s: Mux<Tree, Table>)
    requires CallsOk(s)
    ensures Final(s, MuxFail(s))
  {
  }

  // Nothing had come for i yet, or it had already failed.
  lemma ReleaseIsFinal<Tree, Table>(s: Mux<Tree, Table>, s1: Mux<Tree, Table>)
    requires Final(s, s1) && s1.writers == s.writers && |s1.all| == |s.all|
    requires s.writers != [] ==> s.writers[0] < |s.all| && s1.all[s.writers[0]].phase.WriteParked?
    ensures Final(s, ReleaseWrite(s1))
  {
  }

  lemma WriteTurnIsFinal<Tree, Table>(cfg: Config<Tree, Table>, s: Mux<Tree, Table>, i: nat)
    requires WriteOk(s) && i < |s.all| && s.all[i].phase.WriteWoken? && s.all[i].outcome.Pending?
    requires s.link == Open && !s.writing ==> CanSend(cfg, s, s.all[i].request)
    ensures Final(s, WriteTurn(cfg, s, i))
  {
    if s.writers != [] { assert s.writers[0] in s.writers; }
    if !s.writing && s.link != Open {
      ReleaseIsFinal(s, Fail(s, i));
    }
  }

  lemma NotConnectedIsFinal<Tree, Table>(s: Mux<Tree, Table>, i: nat)
    requires WriteOk(s) && i < |s.all| && s.all[i].phase.Connecting? && s.all[i].outcome.Pending?
    ensures Final(s, ReleaseWrite(Fail(s.(reading := false), i)))
  {
    if s.writers != [] { assert s.writers[0] in s.writers; }
    ReleaseIsFinal(s, Fail(s.(reading := false), i));
  }

  lemma WritePartIsFinal<Tree, Table>(s: Mux<Tree, Table>, i: nat, f: Frame, pos: nat, k: nat)
    requires WriteOk(s) && i < |s.all| && s.all[i].phase.Sending? && Encodable(f) && pos + k <= |FrameBytes(f)|
    ensures Final(s, WritePart(s, i, f, pos, k))
  {
    if s.writers != [] { assert s.writers[0] in s.writers; }
    if pos + k >= |FrameBytes(f)| {
      ReleaseIsFinal(s, SetPhase(FrameWritten(s.(written := s.written + FrameBytes(f)[pos..pos + k]), f), i, Started));
    }
  }

  lemma SendFailsIsFinal<Tree, Table>(s: Mux<Tree, Table>, i: nat)
    requires TurnsOk(s) && i < |s.all| && s.all[i].phase.Sending? && !s.all[i].outcome.Replied?
    ensures Final(s, MuxFail(ReleaseWrite(Fail(s, i))))
  {
    if s.writers != [] { assert s.writers[0] in s.writers; }
    ReleaseIsFinal(s, Fail(s, i));
    FailWriteKeepsTurns(s, i);
    MuxFailIsFinal(ReleaseWrite(Fail(s, i)));
    FinalAgain(s, ReleaseWrite(Fail(s, i)), MuxFail(ReleaseWrite(Fail(s, i))));
  }

  lemma ReadFrameIsFinal<Tree, Table>(cfg: Config<Tree, Table>, s: Mux<Tree, Table>)
    requires CallsOk(s) && s.down.wire != []
    ensures Final(s, ReadFrame(cfg, s))
  {
    hide ReadFrame, Receive, Without, FirstIndex;
    ReadFrameIs(cfg, s);
  }

  lemma RepliedWasTaken<Tree, Table>(cfg: Config<Tree, Table>, s: Mux<Tree, Table>, i: nat)
    requires ServerOk(s) && RepliesOk(s) && i < |s.all|
    ensures s.all[i].outcome.Replied? ==> s.all[i].correlation <= |s.up.got|
  {
    if s.all[i].outcome.Replied? {
      var k :| 0 <= k < |s.down.got| && Answers(s, k, s.all[i].correlation, s.all[i].outcome.tree);
      assert Taken(s, s.answered[k].correlation, s.answered[k].request);
    }
  }

  // Its request is not written whole, so nothing can have come back for it.
  lemma SenderHasNoReply<Tree, Table>(cfg: Config<Tree, Table>, s: Mux<Tree, Table>, i: nat)
    requires MatchOk(cfg, s) && i < |s.all| && s.all[i].phase.Sending?
    ensures !s.all[i].outcome.Replied?
  {
    RepliedWasTaken(cfg, s, i);
  }

  lemma WriterIsFinal<Tree, Table>(cfg: Config<Tree, Table>, s: Mux<Tree, Table>, step: Step<Tree>)
    requires TurnsOk(s) && Enabled(cfg, s, step)
    requires step.Ask? || step.WriterRuns? || step.ConnectEnds? || step.WriteSome?
    ensures Final(s, Next(cfg, s, step))
  {
    match step
    case Ask(request) => AskIsFinal(cfg, s, request);
    case WriterRuns(i) => WriteTurnIsFinal(cfg, s, i);
    case ConnectEnds(i, ok) => if !ok { NotConnectedIsFinal(s, i); }
    case WriteSome(i, k) => WritePartIsFinal(s, i, s.all[i].phase.frame, s.all[i].phase.pos, k);
  }

  lemma ReadFailsIsFinal<Tree, Table>(cfg: Config<Tree, Table>, s: Mux<Tree, Table>, i: nat)
    requires CallsOk(s) && Enabled(cfg, s, ReadFails(i))
    ensures Final(s, Next(cfg, s, ReadFails(i)))
  {
    MuxFailIsFinal(s);
    LookIsFinal(MuxFail(s), SetPhase(MuxFail(s), i, Started).(reading := false), i, true);
    FinalAgain(s, MuxFail(s), Next(cfg, s, ReadFails(i)));
  }

  lemma {:induction false} NextIsFinal<Tree, Table>(cfg: Config<Tree, Table>, s: Mux<Tree, Table>, step: Step<Tree>)
    requires TurnsOk(s) && MatchOk(cfg, s) && Enabled(cfg, s, step)
    ensures Final(s, Next(cfg, s, step))
  {
    if step.Ask? || step.WriterRuns? || step.ConnectEnds? || step.WriteSome? {
      WriterIsFinal(cfg, s, step);
    } else if step.SendFails? {
      SenderHasNoReply(cfg, s, step.i);
      SendFailsIsFinal(s, step.i);
    } else if step.WaitBegins? {
      LoopTopIsFinal(s, step.i, step.timeUp);
    } else if step.ParkEnds? {
      LookIsFinal(s, SetPhase(s, step.i, Started), step.i, step.timeUp);
    } else if step.ReaderRuns? {
      ReaderIsFinal(cfg, s, step.i, step.ready, step.timeUp);
    } else if step.ReadFails? {
      ReadFailsIsFinal(cfg, s, step.i);
    }
  }

  lemma AskIsFinal<Tree, Table>(cfg: Config<Tree, Table>, s: Mux<Tree, Table>, request: Tree)
    requires TurnsOk(s) && (s.link == Open && !s.writing ==> CanSend(cfg, s, request))
    ensures Final(s, FirstTurn(cfg, Spawned(s, request), |s.all|))
  {
    var s1, i := Spawned(s, request), |s.all|;
    SpawnKeepsWrite(s, request);
    if s.writing || s.link != Closed {
      WriteTurnIsFinal(cfg, s1, i);
      FinalAgain(s, s1, FirstTurn(cfg, s1, i));
    }
  }

  lemma ReaderIsFinal<Tree, Table>(cfg: Config<Tree, Table>, s: Mux<Tree, Table>, i: nat, ready: bool, timeUp: bool)
    requires TurnsOk(s) && Enabled(cfg, s, ReaderRuns(i, ready, timeUp))
    ensures Final(s, Next(cfg, s, ReaderRuns(i, ready, timeUp)))
  {
    var s1 := if ready then ReadFrame(cfg, s) else s;
    if ready {
      ReadFrameIsFinal(cfg, s);
      ReadFrameKeepsTurns(cfg, s);
    }
    LookIsFinal(s1, SetPhase(s1, i, Started).(reading := false), i, timeUp);
    FinalAgain(s, s1, Next(cfg, s, ReaderRuns(i, ready, timeUp)));
  }

  // Whatever follows, a call that has completed does not complete again.
  lemma {:induction false} CompletesOnce<Tree(!new), Table(!new)>(cfg: Config<Tree, Table>, steps: seq<Step<Tree>>,
                                                                  more: seq<Step<Tree>>)
    requires RoundTrips(cfg.codec) && Run(cfg, steps + more).Some?
    ensures Run(cfg, steps).Some? && Final(Run(cfg, steps).value, Run(cfg, steps + more).value)
  {
    if more == [] {
      assert steps + more == steps;
    } else {
      var before := more[..|more| - 1];
      assert (steps + more)[..|steps + more| - 1] == steps + before;
      CompletesOnce(cfg, steps, before);
      TurnsAlways(cfg, steps + before);
      MatchAlways(cfg, steps + before);
      NextIsFinal(cfg, Run(cfg, steps + before).value, more[|more| - 1]);
      FinalAgain(Run(cfg, steps).value, Run(cfg, steps + before).value, Run(cfg, steps + more).value);
    }
  }

  // ---------------------------------------------------------------------------
  // No wake-up is lost

  // What some steps lead to from s; None when one is not enabled.
  ghost function After<Tree, Table>(cfg: Config<Tree, Table>, s: Mux<Tree, Table>,
                                    steps: seq<Step<Tree>>): Option<Mux<Tree, Table>>
    decreases |steps|
  {
    if steps == [] then Some(s)
    else if Enabled(cfg, s, steps[0]) then After(cfg, Next(cfg, s, steps[0]), steps[1..])
    else None
  }

  ghost function Unfinished<Tree, Table>(s: Mux<Tree, Table>): set<nat> {
    set i: nat | i < |s.all| && !s.all[i].phase.Finished?
  }

  // A woken call whose response is in ends, and leaves the others waiting or woken.
  lemma WokenEnds<Tree, Table>(cfg: Config<Tree, Table>, s: Mux<Tree, Table>, w: nat, i: nat)
    requires w < |s.all| && s.all[w].phase.ReadWoken? && !s.all[w].outcome.Pending?
    requires i < |s.all| && Parked(s.all[i].phase) && s.all[i].outcome.Pending?
    ensures var s' := Next(cfg, s, ParkEnds(w, false));
            && |s'.all| == |s.all| && Parked(s'.all[i].phase) && s'.all[i].outcome.Pending?
            && Unfinished(s') == Unfinished(s) - {w}
  {
    HandOffIs(SetPhase(SetPhase(s, w, Started), w, Finished));
  }

  // A woken call that still waits, and finds nobody reading, reads.
  lemma WokenReads<Tree, Table>(cfg: Config<Tree, Table>, s: Mux<Tree, Table>, w: nat)
    requires w < |s.all| && s.all[w].phase.ReadWoken? && s.all[w].outcome.Pending? && !s.reading
    ensures Next(cfg, s, ParkEnds(w, false)).reading
  {
  }

  lemma SomebodyIsWoken<Tree, Table>(s: Mux<Tree, Table>, i: nat)
    requires TurnsOk(s) && i < |s.all| && Parked(s.all[i].phase) && !s.reading
    ensures exists w :: 0 <= w < |s.all| && s.all[w].phase.ReadWoken?
  {
    if s.all[i].phase.ReadWoken? {
      assert s.all[i].phase.ReadWoken?;
    }
  }

  // With a call waiting and nobody reading, the coroutines already woken are enough for
  // somebody to read: no new event, and no deadline, is needed.
  lemma {:induction false} SomebodyReads<Tree, Table>(cfg: Config<Tree, Table>, s: Mux<Tree, Table>, i: nat)
    returns (steps: seq<Step<Tree>>)
    requires TurnsOk(s) && i < |s.all| && Parked(s.all[i].phase) && s.all[i].outcome.Pending?
    ensures forall step <- steps :: step.ParkEnds? && !step.timeUp
    ensures After(cfg, s, steps).Some? && TurnsOk(After(cfg, s, steps).value) && After(cfg, s, steps).value.reading
    decreases |Unfinished(s)|
  {
    hide TurnsOk, LoopTop, ReadOk;
    if s.reading {
      steps := [];
    } else if w: nat :| w < |s.all| && s.all[w].phase.ReadWoken? && s.all[w].outcome.Pending? {
      steps := [ParkEnds(w, false)];
      var s' := Next(cfg, s, steps[0]);
      NextKeepsTurns(cfg, s, steps[0]);
      WokenReads(cfg, s, w);
      assert After(cfg, s', steps[1..]) == Some(s');
    } else {
      SomebodyIsWoken(s, i);
      var w :| 0 <= w < |s.all| && s.all[w].phase.ReadWoken?;
      var s' := Next(cfg, s, ParkEnds(w, false));
      NextKeepsTurns(cfg, s, ParkEnds(w, false));
      WokenEnds(cfg, s, w, i);
      assert w in Unfinished(s);
      var rest := SomebodyReads(cfg, s', i);
      steps := [ParkEnds(w, false)] + rest;
      assert steps[1..] == rest;
    }
  }
}
