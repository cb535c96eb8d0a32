// Every response to its own request, over every run of CorMux: the string tables stay
// in step, the bytes on the wire are whole frames, and a call ends without error only
// with the response the server built for it (corRestCor.c:2068-2076, 2140-2175,
// 1753-1763, 1110-1112, 912-925 and 1209-1213).
module CorMuxMatch {
  import opened Base
  import opened CorFrame
  import opened CorCodec
  import opened CorChannel
  import opened CorMux
  import opened CorMuxTurns

  // ---------------------------------------------------------------------------
  // The invariant

  // Both directions in step; a connection with its own thread has nothing queued.
  ghost predicate TablesOk<Tree, Table>(cfg: Config<Tree, Table>, s: Mux<Tree, Table>) {
    && InStep(cfg.codec, Preloaded(cfg), s.up)
    && InStep(cfg.codec, Preloaded(cfg), s.down)
    && (s.dedicated ==> s.down.queue == [])
    && (s.link.Closed? ==> s.up.sent == [] && s.down.sent == [])
  }

  // Requests are numbered in the order they are encoded, each call by its own number.
  ghost predicate NumbersOk<Tree, Table>(s: Mux<Tree, Table>) {
    && |s.up.sent| == s.correlation
    && (forall k :: 0 <= k < |s.up.sent| ==> s.up.sent[k].correlation == k + 1)
    && (forall i :: 0 <= i < |s.all| ==> s.all[i].correlation <= s.correlation)
    && (forall i :: 0 <= i < |s.all| && s.all[i].correlation > 0 ==>
         s.all[i].request == s.up.sent[s.all[i].correlation - 1].tree)
    && (forall i, j :: 0 <= i < j < |s.all| && s.all[i].correlation == s.all[j].correlation ==>
         s.all[i].correlation == 0)
    && (forall i :: i in s.calls ==> i < |s.all| && s.all[i].correlation > 0)
  }

  // A correlation the server has taken, and the request that came with it.
  ghost predicate Taken<Tree, Table>(s: Mux<Tree, Table>, correlation: nat, request: Tree) {
    0 < correlation <= |s.up.got| && request == s.up.got[correlation - 1].tree
  }

  // No correlation is in the server's hands twice.
  ghost predicate Apart<Tree>(inflight: seq<Job<Tree>>, answered: seq<Answer<Tree>>) {
    && (forall j, k :: 0 <= j < k < |inflight| ==> inflight[j].correlation != inflight[k].correlation)
    && (forall j, k :: 0 <= j < k < |answered| ==> answered[j].correlation != answered[k].correlation)
    && (forall j, k :: 0 <= j < |inflight| && 0 <= k < |answered| ==>
         inflight[j].correlation != answered[k].correlation)
  }

  // The server answers what it took, once.
  ghost predicate ServerOk<Tree, Table>(s: Mux<Tree, Table>) {
    && (forall j :: 0 <= j < |s.inflight| ==> Taken(s, s.inflight[j].correlation, s.inflight[j].request))
    && (forall k :: 0 <= k < |s.answered| ==> Taken(s, s.answered[k].correlation, s.answered[k].request))
    && Apart(s.inflight, s.answered)
    && |s.down.sent| == |s.answered|
    && (forall k :: 0 <= k < |s.answered| ==> s.down.sent[k] == Entry(s.answered[k].correlation, s.answered[k].reply))
  }

  ghost predicate InHand<Tree, Table>(s: Mux<Tree, Table>, c: nat) {
    || (exists j :: 0 <= j < |s.inflight| && s.inflight[j].correlation == c)
    || (exists k :: 0 <= k < |s.answered| && s.answered[k].correlation == c)
  }

  // Nothing the server took is lost.
  ghost predicate NothingLost<Tree, Table>(s: Mux<Tree, Table>) {
    forall c :: 0 < c <= |s.up.got| ==> InHand(s, c)
  }

  // The k-th response is c's, and says tree.
  ghost predicate Answers<Tree, Table>(s: Mux<Tree, Table>, k: nat, c: nat, tree: Tree) {
    k < |s.answered| && s.answered[k].correlation == c && s.answered[k].reply == tree
  }

  // No response to c has been read.
  ghost predicate Unread<Tree, Table>(s: Mux<Tree, Table>, c: nat) {
    forall k :: 0 <= k < |s.down.got| && k < |s.answered| ==> s.answered[k].correlation != c
  }

  // A call has its own response, or its response has not been read yet.
  ghost predicate RepliesOk<Tree, Table>(s: Mux<Tree, Table>) {
    && |s.down.got| <= |s.answered|
    && (forall i :: 0 <= i < |s.all| && s.all[i].outcome.Replied? ==>
          exists k :: 0 <= k < |s.down.got| && Answers(s, k, s.all[i].correlation, s.all[i].outcome.tree))
    && (forall i :: i in s.calls ==> i < |s.all| && Unread(s, s.all[i].correlation))
  }

  // The bytes written are the frames written whole and, at most, the beginning of one
  // more: the frame of the coroutine that holds the write turn.
  ghost predicate WireOk<Tree, Table>(s: Mux<Tree, Table>) {
    && (forall f <- s.frames :: Encodable(f)) && (forall f <- s.up.queue :: Encodable(f))
    && |s.up.queue| <= 1
    && |s.up.got| <= |s.frames| && s.frames[|s.up.got|..] == s.up.wire
    && Wire(s.frames) <= s.written
    && (s.up.queue == [] ==> s.written == Wire(s.frames))
    && (s.up.queue != [] ==> s.written[|Wire(s.frames)|..] < FrameBytes(s.up.queue[0]))
  }

  // That coroutine, and how far it is; its request is the last one numbered.
  ghost predicate SenderOk<Tree, Table>(s: Mux<Tree, Table>)
    requires forall f <- s.frames :: Encodable(f)
  {
    forall i :: 0 <= i < |s.all| && s.all[i].phase.Sending? ==>
      && s.up.queue == [s.all[i].phase.frame] && |s.written| == |Wire(s.frames)| + s.all[i].phase.pos
      && s.all[i].correlation == |s.up.sent|
  }

  ghost predicate NobodySends<Tree, Table>(s: Mux<Tree, Table>) {
    forall i :: 0 <= i < |s.all| ==> !s.all[i].phase.Sending?
  }

  ghost predicate BytesOk<Tree, Table>(s: Mux<Tree, Table>) {
    WireOk(s) && SenderOk(s) && (!s.link.Broken? && NobodySends(s) ==> s.up.queue == [])
  }

  ghost predicate MatchOk<Tree, Table>(cfg: Config<Tree, Table>, s: Mux<Tree, Table>) {
    TablesOk(cfg, s) && NumbersOk(s) && ServerOk(s) && NothingLost(s) && RepliesOk(s) && BytesOk(s)
  }

  // ---------------------------------------------------------------------------
  // Framing

  lemma {:induction false} WithoutLess(calls: seq<nat>, i: nat)
    ensures forall j :: j in Without(calls, i) ==> j in calls
  {
    if calls != [] && calls[0] != i {
      WithoutLess(calls[1..], i);
    }
  }

  // The client's bookkeeping at most drops calls and fails them.
  ghost predicate Less<Tree, Table>(s: Mux<Tree, Table>, s': Mux<Tree, Table>) {
    && |s'.all| == |s.all|
    && (forall i :: 0 <= i < |s.all| ==>
          && s'.all[i].correlation == s.all[i].correlation && s'.all[i].request == s.all[i].request
          && (s'.all[i].outcome.Replied? ==> s'.all[i].outcome == s.all[i].outcome))
    && (forall i :: i in s'.calls ==> i in s.calls)
    && s'.correlation == s.correlation
    && s'.down == s.down && s'.answered == s.answered && s'.inflight == s.inflight && s'.dedicated == s.dedicated
    && (s'.link.Closed? ==> s.link.Closed?)
  }

  // And the wire is untouched.
  ghost predicate Quiet<Tree, Table>(s: Mux<Tree, Table>, s': Mux<Tree, Table>) {
    && Less(s, s')
    && s'.up == s.up && s'.frames == s.frames && s'.written == s.written
    && (forall i :: 0 <= i < |s.all| && s'.all[i].phase.Sending? ==> s'.all[i].phase == s.all[i].phase)
    && (!s'.link.Broken? ==> !s.link.Broken? && forall i :: 0 <= i < |s.all| && s.all[i].phase.Sending? ==>
         s'.all[i].phase.Sending?)
  }

  lemma LessKeepsNumbers<Tree, Table>(s: Mux<Tree, Table>, s': Mux<Tree, Table>)
    requires NumbersOk(s) && Less(s, s') && s'.up.sent == s.up.sent
    ensures NumbersOk(s')
  {
  }

  lemma LessKeepsReplies<Tree, Table>(s: Mux<Tree, Table>, s': Mux<Tree, Table>)
    requires RepliesOk(s) && Less(s, s')
    ensures RepliesOk(s')
  {
    forall i | 0 <= i < |s'.all| && s'.all[i].outcome.Replied?
      ensures exists k :: 0 <= k < |s'.down.got| && Answers(s', k, s'.all[i].correlation, s'.all[i].outcome.tree)
    {
      var k :| 0 <= k < |s.down.got| && Answers(s, k, s.all[i].correlation, s.all[i].outcome.tree);
      assert Answers(s', k, s'.all[i].correlation, s'.all[i].outcome.tree);
    }
  }

  lemma LessKeepsServer<Tree, Table>(s: Mux<Tree, Table>, s': Mux<Tree, Table>)
    requires ServerOk(s) && NothingLost(s) && Less(s, s') && s'.up.got == s.up.got
    ensures ServerOk(s') && NothingLost(s')
  {
    assert forall k :: 0 <= k < |s.answered| ==> Taken(s, s.answered[k].correlation, s.answered[k].request);
    assert forall k :: 0 <= k < |s.inflight| ==> Taken(s, s.inflight[k].correlation, s.inflight[k].request);
    forall c | 0 < c <= |s'.up.got|
      ensures InHand(s', c)
    {
      assert InHand(s, c);
    }
  }

  lemma QuietKeepsBytes<Tree, Table>(s: Mux<Tree, Table>, s': Mux<Tree, Table>)
    requires BytesOk(s) && Quiet(s, s')
    ensures BytesOk(s')
  {
    if !s'.link.Broken? && NobodySends(s') {
      assert NobodySends(s);
    }
  }

  lemma QuietKeepsMatch<Tree, Table>(cfg: Config<Tree, Table>, s: Mux<Tree, Table>, s': Mux<Tree, Table>)
    requires MatchOk(cfg, s) && Quiet(s, s')
    ensures MatchOk(cfg, s')
  {
    LessKeepsNumbers(s, s');
    LessKeepsServer(s, s');
    LessKeepsReplies(s, s');
    QuietKeepsBytes(s, s');
  }

  // ---------------------------------------------------------------------------
  // The quiet pieces

  lemma QuietAgain<Tree, Table>(s: Mux<Tree, Table>, s1: Mux<Tree, Table>, s2: Mux<Tree, Table>)
    requires Quiet(s, s1) && Quiet(s1, s2)
    ensures Quiet(s, s2)
  {
  }

  lemma FailIsQuiet<Tree, Table>(s: Mux<Tree, Table>, i: nat)
    requires i < |s.all| && (s.all[i].phase.Sending? ==> s.link.Broken?)
    ensures Quiet(s, Fail(s, i))
  {
    WithoutLess(s.calls, i);
  }

  // One coroutine goes from one phase to another, and a flag or a queue with it.
  lemma MoveIsQuiet<Tree, Table>(s: Mux<Tree, Table>, i: nat, s': Mux<Tree, Table>)
    requires i < |s.all| && !s.all[i].phase.Sending? && |s'.all| == |s.all| && !s'.all[i].phase.Sending?
    requires s'.all == s.all[i := s.all[i].(phase := s'.all[i].phase)]
    requires s' == s.(all := s'.all, writing := s'.writing, reading := s'.reading, writers := s'.writers)
    ensures Quiet(s, s')
  {
  }

  lemma HandOffIsQuiet<Tree, Table>(s: Mux<Tree, Table>)
    ensures Quiet(s, HandOff(s))
  {
    HandOffIs(s);
  }

  lemma ReleaseIsQuiet<Tree, Table>(s: Mux<Tree, Table>)
    requires s.writers != [] ==> s.writers[0] < |s.all| && s.all[s.writers[0]].phase.WriteParked?
    ensures Quiet(s, ReleaseWrite(s))
  {
  }

  lemma MuxFailIsQuiet<Tree, Table>(s: Mux<Tree, Table>)
    ensures Quiet(s, MuxFail(s))
  {
  }

  lemma LoopTopIsQuiet<Tree, Table>(s: Mux<Tree, Table>, i: nat, timeUp: bool)
    requires i < |s.all| && s.all[i].phase.Started?
    ensures Quiet(s, LoopTop(s, i, timeUp))
  {
    hide HandOff, Without;
    if !s.all[i].outcome.Pending? {
      HandOffIsQuiet(SetPhase(s, i, Finished));
      QuietAgain(s, SetPhase(s, i, Finished), HandOff(SetPhase(s, i, Finished)));
    } else if timeUp {
      FailIsQuiet(s, i);
      HandOffIsQuiet(Fail(s, i));
      QuietAgain(s, Fail(s, i), HandOff(Fail(s, i)));
    }
  }

  // ---------------------------------------------------------------------------
  // The request's side

  ghost predicate SpawnedFrom<Tree, Table>(s: Mux<Tree, Table>, s': Mux<Tree, Table>) {
    && |s'.all| == |s.all| + 1 && s'.all[..|s.all|] == s.all
    && s'.all[|s.all|].correlation == 0 && s'.all[|s.all|].outcome.Pending? && !s'.all[|s.all|].phase.Sending?
    && s' == s.(all := s'.all)
  }

  lemma SpawnKeepsNumbers<Tree, Table>(s: Mux<Tree, Table>, s': Mux<Tree, Table>)
    requires NumbersOk(s) && SpawnedFrom(s, s')
    ensures NumbersOk(s')
  {
    assert forall i :: 0 <= i < |s.all| ==> s'.all[i] == s.all[i];
  }

  lemma SpawnKeepsReplies<Tree, Table>(s: Mux<Tree, Table>, s': Mux<Tree, Table>)
    requires RepliesOk(s) && SpawnedFrom(s, s')
    ensures RepliesOk(s')
  {
    assert forall i :: 0 <= i < |s.all| ==> s'.all[i] == s.all[i];
    forall i | 0 <= i < |s'.all| && s'.all[i].outcome.Replied?
      ensures exists k :: 0 <= k < |s'.down.got| && Answers(s', k, s'.all[i].correlation, s'.all[i].outcome.tree)
    {
      var k :| 0 <= k < |s.down.got| && Answers(s, k, s.all[i].correlation, s.all[i].outcome.tree);
      assert Answers(s', k, s'.all[i].correlation, s'.all[i].outcome.tree);
    }
  }

  lemma SpawnKeepsBytes<Tree, Table>(s: Mux<Tree, Table>, s': Mux<Tree, Table>)
    requires BytesOk(s) && SpawnedFrom(s, s')
    ensures BytesOk(s')
  {
    assert forall i :: 0 <= i < |s.all| ==> s'.all[i] == s.all[i];
  }

  lemma SpawnKeepsMatch<Tree, Table>(cfg: Config<Tree, Table>, s: Mux<Tree, Table>, s': Mux<Tree, Table>)
    requires MatchOk(cfg, s) && SpawnedFrom(s, s')
    ensures MatchOk(cfg, s')
  {
    SpawnKeepsNumbers(s, s');
    SpawnKeepsReplies(s, s');
    SpawnKeepsBytes(s, s');
    ServerSame(s, s');
  }

  lemma ServerSame<Tree, Table>(s: Mux<Tree, Table>, s': Mux<Tree, Table>)
    requires ServerOk(s) && NothingLost(s)
    requires s'.inflight == s.inflight && s'.answered == s.answered && s'.up.got == s.up.got
    requires s'.down.sent == s.down.sent
    ensures ServerOk(s') && NothingLost(s')
  {
    assert forall k :: 0 <= k < |s.answered| ==> Taken(s, s.answered[k].correlation, s.answered[k].request);
    assert forall k :: 0 <= k < |s.inflight| ==> Taken(s, s.inflight[k].correlation, s.inflight[k].request);
    forall c | 0 < c <= |s'.up.got|
      ensures InHand(s', c)
    {
      assert InHand(s, c);
    }
  }

  lemma NumbersSame<Tree, Table>(s: Mux<Tree, Table>, s': Mux<Tree, Table>)
    requires NumbersOk(s)
    requires s'.all == s.all && s'.calls == s.calls && s'.correlation == s.correlation && s'.up.sent == s.up.sent
    ensures NumbersOk(s')
  {
  }

  lemma BytesSame<Tree, Table>(s: Mux<Tree, Table>, s': Mux<Tree, Table>)
    requires BytesOk(s)
    requires s'.all == s.all && s'.link == s.link && s'.up == s.up && s'.frames == s.frames && s'.written == s.written
    ensures BytesOk(s')
  {
  }

  lemma TablesSame<Tree, Table>(cfg: Config<Tree, Table>, s: Mux<Tree, Table>, s': Mux<Tree, Table>)
    requires TablesOk(cfg, s)
    requires s'.up == s.up && s'.down == s.down && s'.dedicated == s.dedicated && s'.link == s.link
    ensures TablesOk(cfg, s')
  {
  }

  // The tables opened from each end's own counts are the same tables.
  lemma OpenedIsInStep<Tree, Table>(cfg: Config<Tree, Table>, s: Mux<Tree, Table>)
    requires TablesOk(cfg, s) && s.link.Closed?
    ensures Opened(cfg, s) == s.(link := Open, reading := false)
  {
    assert s.up.got == [] && s.down.got == [];
  }

  lemma SendingKeepsNumbers<Tree, Table>(cfg: Config<Tree, Table>, s: Mux<Tree, Table>, i: nat)
    requires NumbersOk(s) && i < |s.all| && CanSend(cfg, s, s.all[i].request)
    ensures NumbersOk(BeginSend(cfg, s, i))
  {
  }

  lemma SendingKeepsReplies<Tree, Table>(cfg: Config<Tree, Table>, s: Mux<Tree, Table>, i: nat)
    requires RepliesOk(s) && ServerOk(s) && NumbersOk(s) && |s.up.got| <= |s.up.sent|
    requires i < |s.all| && s.all[i].outcome.Pending? && CanSend(cfg, s, s.all[i].request)
    ensures RepliesOk(BeginSend(cfg, s, i))
  {
    var s' := BeginSend(cfg, s, i);
    forall j | 0 <= j < |s'.all| && s'.all[j].outcome.Replied?
      ensures exists k :: 0 <= k < |s'.down.got| && Answers(s', k, s'.all[j].correlation, s'.all[j].outcome.tree)
    {
      var k :| 0 <= k < |s.down.got| && Answers(s, k, s.all[j].correlation, s.all[j].outcome.tree);
      assert Answers(s', k, s'.all[j].correlation, s'.all[j].outcome.tree);
    }
    forall j | j in s'.calls
      ensures j < |s'.all| && Unread(s', s'.all[j].correlation)
    {
      if j == i {
        assert forall k :: 0 <= k < |s.answered| ==> Taken(s, s.answered[k].correlation, s.answered[k].request);
      } else {
        assert j in s.calls;
        assert Unread(s, s.all[j].correlation);
      }
    }
  }

  lemma SendingKeepsBytes<Tree, Table>(cfg: Config<Tree, Table>, s: Mux<Tree, Table>, i: nat)
    requires WireOk(s) && s.up.queue == [] && s.link.Open? && |s.up.sent| == s.correlation
    requires i < |s.all| && CanSend(cfg, s, s.all[i].request)
    requires forall j :: 0 <= j < |s.all| && j != i ==> !s.all[j].phase.Sending?
    ensures BytesOk(BeginSend(cfg, s, i))
  {
    var s' := BeginSend(cfg, s, i);
    assert s'.written[|Wire(s'.frames)|..] == [];
    assert s'.all[i].phase.Sending?;
  }

  lemma SendingKeepsTables<Tree, Table>(cfg: Config<Tree, Table>, s: Mux<Tree, Table>, i: nat)
    requires TablesOk(cfg, s) && s.link.Open?
    requires i < |s.all| && CanSend(cfg, s, s.all[i].request)
    ensures TablesOk(cfg, BeginSend(cfg, s, i))
  {
    EnqueueInStep(cfg.codec, Preloaded(cfg), s.up, Entry(s.correlation + 1, s.all[i].request));
  }

  lemma SendingKeepsMatch<Tree, Table>(cfg: Config<Tree, Table>, s: Mux<Tree, Table>, i: nat)
    requires MatchOk(cfg, s) && s.link.Open? && s.up.queue == []
    requires i < |s.all| && s.all[i].outcome.Pending? && CanSend(cfg, s, s.all[i].request)
    requires forall j :: 0 <= j < |s.all| && j != i ==> !s.all[j].phase.Sending?
    ensures MatchOk(cfg, BeginSend(cfg, s, i))
  {
    SendingKeepsTables(cfg, s, i);
    SendingKeepsNumbers(cfg, s, i);
    SendingKeepsReplies(cfg, s, i);
    SendingKeepsBytes(cfg, s, i);
    ServerSame(s, BeginSend(cfg, s, i));
  }

  // ---------------------------------------------------------------------------
  // The bytes

  lemma PartKeepsBytes<Tree, Table>(s: Mux<Tree, Table>, i: nat, f: Frame, pos: nat, k: nat)
    requires BytesOk(s) && s.link.Open? && i < |s.all| && s.all[i].phase == Sending(f, pos)
    requires Encodable(f) && pos + k < |FrameBytes(f)|
    requires forall j :: 0 <= j < |s.all| && s.all[j].phase.Sending? ==> j == i
    ensures BytesOk(WritePart(s, i, f, pos, k))
  {
    var s' := WritePart(s, i, f, pos, k);
    var n := |Wire(s.frames)|;
    assert s.written[n..] == FrameBytes(f)[..pos];
    assert s'.written[n..] == s.written[n..] + FrameBytes(f)[pos..pos + k];
    assert s'.written[n..] == FrameBytes(f)[..pos + k];
    assert s'.all[i].phase.Sending?;
  }

  lemma LastPartKeepsBytes<Tree, Table>(s: Mux<Tree, Table>, i: nat, f: Frame, pos: nat)
    requires BytesOk(s) && s.link.Open? && i < |s.all| && s.all[i].phase == Sending(f, pos)
    requires Encodable(f) && pos <= |FrameBytes(f)|
    requires forall j :: 0 <= j < |s.all| && s.all[j].phase.Sending? ==> j == i
    ensures BytesOk(SetPhase(FrameWritten(s.(written := s.written + FrameBytes(f)[pos..]), f), i, Started))
  {
    var s' := SetPhase(FrameWritten(s.(written := s.written + FrameBytes(f)[pos..]), f), i, Started);
    var n := |Wire(s.frames)|;
    assert s.written[n..] == FrameBytes(f)[..pos];
    assert s'.written == Wire(s.frames) + (FrameBytes(f)[..pos] + FrameBytes(f)[pos..]);
    WireSnoc(s.frames, f);
    assert s'.frames[|s.up.got|..] == s.frames[|s.up.got|..] + [f];
  }

  lemma FrameWrittenKeepsTables<Tree, Table>(cfg: Config<Tree, Table>, s: Mux<Tree, Table>, f: Frame)
    requires TablesOk(cfg, s) && s.up.queue == [f]
    ensures TablesOk(cfg, FrameWritten(s, f))
  {
    WrittenInStep(cfg.codec, Preloaded(cfg), s.up);
    assert FrameWritten(s, f).up == Written(s.up);
  }

  lemma PartKeepsMatch<Tree, Table>(cfg: Config<Tree, Table>, s: Mux<Tree, Table>, i: nat, f: Frame, pos: nat, k: nat)
    requires MatchOk(cfg, s) && s.link.Open? && i < |s.all| && s.all[i].phase == Sending(f, pos)
    requires Encodable(f) && pos + k < |FrameBytes(f)|
    requires forall j :: 0 <= j < |s.all| && s.all[j].phase.Sending? ==> j == i
    ensures MatchOk(cfg, WritePart(s, i, f, pos, k))
  {
    var s' := WritePart(s, i, f, pos, k);
    PartKeepsBytes(s, i, f, pos, k);
    LessKeepsNumbers(s, s');
    LessKeepsReplies(s, s');
    LessKeepsServer(s, s');
  }

  lemma LastPartKeepsMatch<Tree, Table>(cfg: Config<Tree, Table>, s: Mux<Tree, Table>, i: nat, f: Frame, pos: nat)
    requires MatchOk(cfg, s) && s.link.Open? && i < |s.all| && s.all[i].phase == Sending(f, pos)
    requires Encodable(f) && pos <= |FrameBytes(f)|
    requires forall j :: 0 <= j < |s.all| && s.all[j].phase.Sending? ==> j == i
    ensures MatchOk(cfg, SetPhase(FrameWritten(s.(written := s.written + FrameBytes(f)[pos..]), f), i, Started))
  {
    var s1 := s.(written := s.written + FrameBytes(f)[pos..]);
    var s' := SetPhase(FrameWritten(s1, f), i, Started);
    LastPartKeepsBytes(s, i, f, pos);
    FrameWrittenKeepsTables(cfg, s1, f);
    LessKeepsNumbers(s, s');
    LessKeepsReplies(s, s');
    LessKeepsServer(s, s');
  }

  lemma WritePartKeepsMatch<Tree, Table>(cfg: Config<Tree, Table>, s: Mux<Tree, Table>, i: nat, f: Frame, pos: nat,
                                         k: nat)
    requires MatchOk(cfg, s) && s.link.Open? && i < |s.all| && s.all[i].phase == Sending(f, pos)
    requires Encodable(f) && pos + k <= |FrameBytes(f)|
    requires forall j :: 0 <= j < |s.all| && s.all[j].phase.Sending? ==> j == i
    requires s.writers != [] ==> s.writers[0] < |s.all| && s.all[s.writers[0]].phase.WriteParked?
    ensures MatchOk(cfg, WritePart(s, i, f, pos, k))
  {
    hide MatchOk, ReleaseWrite;
    if pos + k < |FrameBytes(f)| {
      PartKeepsMatch(cfg, s, i, f, pos, k);
    } else {
      LastPartKeepsMatch(cfg, s, i, f, pos);
      assert FrameBytes(f)[pos..pos + k] == FrameBytes(f)[pos..];
      ReleaseKeepsMatch(cfg, SetPhase(FrameWritten(s.(written := s.written + FrameBytes(f)[pos..]), f), i, Started));
    }
  }

  lemma ReleaseKeepsMatch<Tree, Table>(cfg: Config<Tree, Table>, s: Mux<Tree, Table>)
    requires MatchOk(cfg, s)
    requires s.writers != [] ==> s.writers[0] < |s.all| && s.all[s.writers[0]].phase.WriteParked?
    ensures MatchOk(cfg, ReleaseWrite(s))
  {
    ReleaseIsQuiet(s);
    QuietKeepsMatch(cfg, s, ReleaseWrite(s));
  }

  // ---------------------------------------------------------------------------
  // The server's side

  lemma TakesKeepsServer<Tree, Table>(s: Mux<Tree, Table>, s': Mux<Tree, Table>, e: Entry<Tree>)
    requires ServerOk(s) && NothingLost(s)
    requires s'.up.got == s.up.got + [e] && e.correlation == |s.up.got| + 1
    requires s'.inflight == s.inflight + [Job(e.correlation, e.tree)]
    requires s'.answered == s.answered && s'.down == s.down
    ensures ServerOk(s') && NothingLost(s')
  {
    forall k | 0 <= k < |s'.answered| ensures Taken(s', s'.answered[k].correlation, s'.answered[k].request) {
      assert Taken(s, s.answered[k].correlation, s.answered[k].request);
    }
    forall j | 0 <= j < |s'.inflight| ensures Taken(s', s'.inflight[j].correlation, s'.inflight[j].request) {
      assert j < |s.inflight| ==> Taken(s, s.inflight[j].correlation, s.inflight[j].request);
    }
    assert forall k :: 0 <= k < |s.answered| ==> Taken(s, s.answered[k].correlation, s.answered[k].request);
    assert forall k :: 0 <= k < |s.inflight| ==> Taken(s, s.inflight[k].correlation, s.inflight[k].request);
    forall c | 0 < c <= |s'.up.got| ensures InHand(s', c) {
      if c <= |s.up.got| {
        assert InHand(s, c);
        if j :| 0 <= j < |s.inflight| && s.inflight[j].correlation == c {
          assert s'.inflight[j].correlation == c;
        }
      } else {
        assert s'.inflight[|s.inflight|].correlation == c;
      }
    }
  }

  lemma RepliesKeepsServer<Tree, Table>(s: Mux<Tree, Table>, s': Mux<Tree, Table>, j: nat, reply: Tree)
    requires ServerOk(s) && j < |s.inflight|
    requires s'.inflight == s.inflight[..j] + s.inflight[j + 1..]
    requires s'.answered == s.answered + [Answer(s.inflight[j].correlation, s.inflight[j].request, reply)]
    requires s'.up == s.up && s'.down.sent == s.down.sent + [Entry(s.inflight[j].correlation, reply)]
    ensures ServerOk(s')
  {
    hide Apart;
    assert forall k :: 0 <= k < |s.answered| ==> Taken(s, s.answered[k].correlation, s.answered[k].request);
    assert forall k :: 0 <= k < |s.inflight| ==> Taken(s, s.inflight[k].correlation, s.inflight[k].request);
    assert forall k :: 0 <= k < |s'.inflight| ==> s'.inflight[k] == s.inflight[if k < j then k else k + 1];
    assert forall k :: 0 <= k < |s.answered| ==> s'.answered[k] == s.answered[k];
    AnsweredOnce(s.inflight, s.answered, j, reply);
  }

  lemma AnsweredOnce<Tree>(inflight: seq<Job<Tree>>, answered: seq<Answer<Tree>>, j: nat, reply: Tree)
    requires Apart(inflight, answered) && j < |inflight|
    ensures Apart(inflight[..j] + inflight[j + 1..],
            answered + [Answer(inflight[j].correlation, inflight[j].request, reply)])
  {
    var inflight' := inflight[..j] + inflight[j + 1..];
    assert forall k :: 0 <= k < |inflight'| ==> inflight'[k] == inflight[if k < j then k else k + 1];
  }

  lemma RepliesLosesNothing<Tree, Table>(s: Mux<Tree, Table>, s': Mux<Tree, Table>, j: nat, reply: Tree)
    requires NothingLost(s) && j < |s.inflight|
    requires s'.inflight == s.inflight[..j] + s.inflight[j + 1..]
    requires s'.answered == s.answered + [Answer(s.inflight[j].correlation, s.inflight[j].request, reply)]
    requires s'.up == s.up
    ensures NothingLost(s')
  {
    forall c | 0 < c <= |s'.up.got| ensures InHand(s', c) {
      assert InHand(s, c);
      if k :| 0 <= k < |s.inflight| && s.inflight[k].correlation == c {
        if k == j {
          assert s'.answered[|s.answered|].correlation == c;
        } else {
          assert s'.inflight[if k < j then k else k - 1].correlation == c;
        }
      } else {
        var k :| 0 <= k < |s.answered| && s.answered[k].correlation == c;
        assert s'.answered[k].correlation == c;
      }
    }
  }

  // The next request decoded: the next one encoded, under the next number.
  lemma TakesKeepsTables<Tree(!new), Table(!new)>(cfg: Config<Tree, Table>, s: Mux<Tree, Table>)
    requires RoundTrips(cfg.codec) && TablesOk(cfg, s) && NumbersOk(s) && s.up.wire != []
    requires Receive(cfg.codec, s.up).Some?
    ensures |s.up.got| < |s.up.sent|
    ensures var up := Receive(cfg.codec, s.up).value;
            && TablesOk(cfg, s.(up := up))
            && up.got == s.up.got + [s.up.sent[|s.up.got|]] && up.sent == s.up.sent
            && up.wire == s.up.wire[1..] && up.queue == s.up.queue
            && s.up.sent[|s.up.got|].correlation == |s.up.got| + 1
  {
    ReceiveInStep(cfg.codec, Preloaded(cfg), s.up);
  }

  lemma TakesKeepsBytes<Tree, Table>(s: Mux<Tree, Table>, up: Channel<Tree, Table>)
    requires BytesOk(s) && s.up.wire != []
    requires |up.got| == |s.up.got| + 1 && up.wire == s.up.wire[1..] && up.queue == s.up.queue && up.sent == s.up.sent
    ensures BytesOk(s.(up := up))
  {
    assert s.frames[|up.got|..] == s.frames[|s.up.got|..][1..];
  }

  lemma ServerTakesKeepsMatch<Tree(!new), Table(!new)>(cfg: Config<Tree, Table>, s: Mux<Tree, Table>,
                                                       up: Channel<Tree, Table>)
    requires RoundTrips(cfg.codec) && MatchOk(cfg, s) && s.up.wire != []
    requires Receive(cfg.codec, s.up) == Some(up)
    ensures up.got != []
    ensures var e := up.got[|up.got| - 1]; MatchOk(cfg,
            s.(up := up, inflight := s.inflight + [Job(e.correlation, e.tree)]))
  {
    TakesKeepsTables(cfg, s);
    TakesKeepsBytes(s, up);
    var e := up.got[|up.got| - 1];
    var s' := s.(up := up, inflight := s.inflight + [Job(e.correlation, e.tree)]);
    TakesKeepsServer(s, s', e);
    AnswerKeepsReplies(s, s');
    NumbersSame(s, s');
    BytesSame(s.(up := up), s');
    TablesSame(cfg, s.(up := up), s');
  }

  lemma ReplyKeepsTables<Tree, Table>(cfg: Config<Tree, Table>, s: Mux<Tree, Table>, e: Entry<Tree>)
    requires TablesOk(cfg, s) && s.up.sent != []
    ensures TablesOk(cfg, s.(down := if s.dedicated then SendNow(cfg.codec, s.down, e)
            else Enqueue(cfg.codec, s.down, e)))
  {
    if s.dedicated {
      SendNowInStep(cfg.codec, Preloaded(cfg), s.down, e);
    } else {
      EnqueueInStep(cfg.codec, Preloaded(cfg), s.down, e);
    }
  }

  lemma ServerRepliesKeepsMatch<Tree, Table>(cfg: Config<Tree, Table>, s: Mux<Tree, Table>, j: nat, reply: Tree)
    requires MatchOk(cfg, s) && Enabled(cfg, s, ServerReplies(j, reply))
    ensures MatchOk(cfg, Next(cfg, s, ServerReplies(j, reply)))
  {
    var s' := Next(cfg, s, ServerReplies(j, reply));
    assert s.up.sent != [] by {
      assert Taken(s, s.inflight[j].correlation, s.inflight[j].request);
    }
    ReplyKeepsTables(cfg, s, Entry(s.inflight[j].correlation, reply));
    TablesSame(cfg, s.(down := s'.down), s');
    RepliesKeepsServer(s, s', j, reply);
    RepliesLosesNothing(s, s', j, reply);
    AnswerKeepsReplies(s, s');
    NumbersSame(s, s');
    BytesSame(s, s');
  }

  lemma AnswerKeepsReplies<Tree, Table>(s: Mux<Tree, Table>, s': Mux<Tree, Table>)
    requires RepliesOk(s) && s'.all == s.all && s'.calls == s.calls && s'.down.got == s.down.got
    requires s.answered <= s'.answered
    ensures RepliesOk(s')
  {
    assert forall k :: 0 <= k < |s.answered| ==> s'.answered[k] == s.answered[k];
    forall i | i in s'.calls
      ensures i < |s'.all| && Unread(s', s'.all[i].correlation)
    {
      assert Unread(s, s.all[i].correlation);
    }
    forall i | 0 <= i < |s'.all| && s'.all[i].outcome.Replied?
      ensures exists k :: 0 <= k < |s'.down.got| && Answers(s', k, s'.all[i].correlation, s'.all[i].outcome.tree)
    {
      var k :| 0 <= k < |s.down.got| && Answers(s, k, s.all[i].correlation, s.all[i].outcome.tree);
      assert Answers(s', k, s'.all[i].correlation, s'.all[i].outcome.tree);
    }
  }

  lemma ServerFlushesKeepsMatch<Tree, Table>(cfg: Config<Tree, Table>, s: Mux<Tree, Table>)
    requires MatchOk(cfg, s) && s.down.queue != []
    ensures MatchOk(cfg, s.(down := Written(s.down)))
  {
    var s' := s.(down := Written(s.down));
    WrittenInStep(cfg.codec, Preloaded(cfg), s.down);
    ServerSame(s, s');
    AnswerKeepsReplies(s, s');
  }

  // ---------------------------------------------------------------------------
  // The response's side

  // The next response decoded, and nobody told yet.
  lemma DecodedKeepsTables<Tree(!new), Table(!new)>(cfg: Config<Tree, Table>, s: Mux<Tree, Table>)
    requires RoundTrips(cfg.codec) && TablesOk(cfg, s) && ServerOk(s) && s.down.wire != []
    requires Receive(cfg.codec, s.down).Some?
    ensures |s.down.got| < |s.answered|
    ensures var down, k := Receive(cfg.codec, s.down).value, |s.down.got|;
            && TablesOk(cfg, s.(down := down))
            && down.got == s.down.got + [Entry(s.answered[k].correlation, s.answered[k].reply)]
            && down.sent == s.down.sent
            && s.down.wire[0].correlation == s.answered[k].correlation
  {
    ReceiveInStep(cfg.codec, Preloaded(cfg), s.down);
    HeadDecodes(cfg.codec, Preloaded(cfg), s.down);
  }

  // It belongs to nobody who waits.
  lemma LateKeepsReplies<Tree, Table>(s: Mux<Tree, Table>, s': Mux<Tree, Table>, e: Entry<Tree>)
    requires RepliesOk(s) && |s.down.got| < |s.answered| && e.correlation == s.answered[|s.down.got|].correlation
    requires s'.all == s.all && s'.calls == s.calls && s'.answered == s.answered && s'.down.got == s.down.got + [e]
    requires forall i :: i in s.calls ==> i < |s.all| && s.all[i].correlation != e.correlation
    ensures RepliesOk(s')
  {
    forall i | 0 <= i < |s'.all| && s'.all[i].outcome.Replied?
      ensures exists k :: 0 <= k < |s'.down.got| && Answers(s', k, s'.all[i].correlation, s'.all[i].outcome.tree)
    {
      var k :| 0 <= k < |s.down.got| && Answers(s, k, s.all[i].correlation, s.all[i].outcome.tree);
      assert Answers(s', k, s'.all[i].correlation, s'.all[i].outcome.tree);
    }
  }

  // It is call i's.
  lemma DeliveryKeepsReplies<Tree, Table>(s: Mux<Tree, Table>, i: nat, down: Channel<Tree, Table>)
    requires RepliesOk(s) && NumbersOk(s) && Distinct(s.calls) && i in s.calls
    requires |s.down.got| < |s.answered| && s.all[i].correlation == s.answered[|s.down.got|].correlation
    requires var a := s.answered[|s.down.got|]; down.got == s.down.got + [Entry(a.correlation, a.reply)]
    ensures RepliesOk(CallDone(s.(down := down), i, Replied(s.answered[|s.down.got|].reply)))
  {
    var n := |s.down.got|;
    var s' := CallDone(s.(down := down), i, Replied(s.answered[n].reply));
    WithoutIs(s.calls, i);
    forall j | 0 <= j < |s'.all| && s'.all[j].outcome.Replied?
      ensures exists k :: 0 <= k < |s'.down.got| && Answers(s', k, s'.all[j].correlation, s'.all[j].outcome.tree)
    {
      if j == i {
        assert Answers(s', n, s'.all[j].correlation, s'.all[j].outcome.tree);
      } else {
        var k :| 0 <= k < |s.down.got| && Answers(s, k, s.all[j].correlation, s.all[j].outcome.tree);
        assert Answers(s', k, s'.all[j].correlation, s'.all[j].outcome.tree);
      }
    }
    forall j | j in s'.calls
      ensures j < |s'.all| && Unread(s', s'.all[j].correlation)
    {
      assert j in s.calls && j != i;
      assert Unread(s, s.all[j].correlation);
    }
  }

  lemma LateKeepsMatch<Tree, Table>(cfg: Config<Tree, Table>, s: Mux<Tree, Table>, down: Channel<Tree, Table>)
    requires MatchOk(cfg, s) && TablesOk(cfg, s.(down := down)) && down.sent == s.down.sent
    requires |s.down.got| < |s.answered|
    requires var a := s.answered[|s.down.got|]; down.got == s.down.got + [Entry(a.correlation, a.reply)]
    requires forall i :: i in s.calls ==> i < |s.all| && s.all[i].correlation != s.answered[|s.down.got|].correlation
    ensures MatchOk(cfg, s.(down := down))
  {
    var a := s.answered[|s.down.got|];
    LateKeepsReplies(s, s.(down := down), Entry(a.correlation, a.reply));
    ServerSame(s, s.(down := down));
    NumbersSame(s, s.(down := down));
    BytesSame(s, s.(down := down));
  }

  lemma DeliveryKeepsMatch<Tree, Table>(cfg: Config<Tree, Table>, s: Mux<Tree, Table>, down: Channel<Tree, Table>,
                                        i: nat)
    requires MatchOk(cfg, s) && TablesOk(cfg, s.(down := down)) && down.sent == s.down.sent
    requires |s.down.got| < |s.answered|
    requires var a := s.answered[|s.down.got|]; down.got == s.down.got + [Entry(a.correlation, a.reply)]
    requires Distinct(s.calls) && i in s.calls && s.all[i].correlation == s.answered[|s.down.got|].correlation
    ensures MatchOk(cfg, CallDone(s.(down := down), i, Replied(s.answered[|s.down.got|].reply)))
  {
    var s' := CallDone(s.(down := down), i, Replied(s.answered[|s.down.got|].reply));
    DeliveryKeepsReplies(s, i, down);
    ServerSame(s, s');
    DoneKeepsNumbers(s, s', i);
    DoneKeepsBytes(s, s', i);
    TablesSame(cfg, s.(down := down), s');
  }

  lemma DoneKeepsNumbers<Tree, Table>(s: Mux<Tree, Table>, s': Mux<Tree, Table>, i: nat)
    requires NumbersOk(s) && |s'.all| == |s.all| && s'.calls == Without(s.calls, i)
    requires s'.correlation == s.correlation && s'.up.sent == s.up.sent
    requires forall j :: 0 <= j < |s.all| ==>
             s'.all[j].correlation == s.all[j].correlation && s'.all[j].request == s.all[j].request
    ensures NumbersOk(s')
  {
    WithoutLess(s.calls, i);
  }

  lemma ReadFrameKeepsMatch<Tree(!new), Table(!new)>(cfg: Config<Tree, Table>, s: Mux<Tree, Table>)
    requires RoundTrips(cfg.codec) && MatchOk(cfg, s) && Distinct(s.calls) && s.down.wire != []
    ensures MatchOk(cfg, ReadFrame(cfg, s))
  {
    ReadFrameIs(cfg, s);
    if Receive(cfg.codec, s.down).None? {
      MuxFailIsQuiet(s);
      QuietKeepsMatch(cfg, s, MuxFail(s));
    } else {
      var down := Receive(cfg.codec, s.down).value;
      DecodedKeepsTables(cfg, s);
      var a := s.answered[|s.down.got|];
      assert down.got[|down.got| - 1] == Entry(a.correlation, a.reply);
      if i :|
        && i in s.calls && i < |s.all| && s.all[i].correlation == a.correlation
        && ReadFrame(cfg, s) == CallDone(s.(down := down), i, Replied(a.reply))
      {
        DeliveryKeepsMatch(cfg, s, down, i);
      } else {
        LateKeepsMatch(cfg, s, down);
      }
    }
  }

  lemma DoneKeepsBytes<Tree, Table>(s: Mux<Tree, Table>, s': Mux<Tree, Table>, i: nat)
    requires BytesOk(s) && i < |s.all| && |s'.all| == |s.all| && s'.link == s.link
    requires s'.up == s.up && s'.frames == s.frames && s'.written == s.written
    requires forall j :: 0 <= j < |s.all| ==> s'.all[j].correlation == s.all[j].correlation
    requires forall j :: 0 <= j < |s.all| && j != i ==> s'.all[j].phase == s.all[j].phase
    requires s'.all[i].phase == s.all[i].phase || (Parked(s.all[i].phase) && Parked(s'.all[i].phase))
    ensures BytesOk(s')
  {
    if NobodySends(s') {
      assert forall j :: 0 <= j < |s.all| && s.all[j].phase.Sending? ==> s'.all[j].phase.Sending?;
    }
  }

  // ---------------------------------------------------------------------------
  // Every step, every run

  lemma QueueFree<Tree, Table>(s: Mux<Tree, Table>)
    requires WriteOk(s) && BytesOk(s) && s.link.Open? && !s.writing
    ensures s.up.queue == [] && forall j :: 0 <= j < |s.all| ==> !s.all[j].phase.Sending?
  {
    assert forall j :: 0 <= j < |s.all| ==> !Holds(s.all[j].phase);
  }

  lemma WriteTurnKeepsMatch<Tree, Table>(cfg: Config<Tree, Table>, s: Mux<Tree, Table>, i: nat)
    requires MatchOk(cfg, s) && WriteOk(s) && i < |s.all| && s.all[i].phase.WriteWoken? && s.all[i].outcome.Pending?
    requires s.link == Open && !s.writing ==> CanSend(cfg, s, s.all[i].request)
    ensures MatchOk(cfg, WriteTurn(cfg, s, i))
  {
    if s.writing {
      MoveIsQuiet(s, i, Park(s, i));
      QuietKeepsMatch(cfg, s, Park(s, i));
    } else if s.link == Open {
      QueueFree(s);
      SendingKeepsMatch(cfg, s, i);
    } else {
      FailedKeepsMatch(cfg, s, i);
    }
  }

  // Given up before anything of it was sent.
  lemma FailedKeepsMatch<Tree, Table>(cfg: Config<Tree, Table>, s: Mux<Tree, Table>, i: nat)
    requires MatchOk(cfg, s) && WriteOk(s) && i < |s.all| && !s.all[i].phase.Sending? && !s.all[i].phase.WriteParked?
    ensures MatchOk(cfg, ReleaseWrite(Fail(s, i)))
  {
    hide MatchOk, ReleaseWrite;
    if s.writers != [] { assert s.writers[0] in s.writers; }
    FailIsQuiet(s, i);
    QuietKeepsMatch(cfg, s, Fail(s, i));
    ReleaseKeepsMatch(cfg, Fail(s, i));
  }

  lemma FirstTurnKeepsMatch<Tree, Table>(cfg: Config<Tree, Table>, s: Mux<Tree, Table>, i: nat)
    requires MatchOk(cfg, s) && WriteOk(s) && i < |s.all| && s.all[i].phase.WriteWoken? && s.all[i].outcome.Pending?
    requires s.link == Open && !s.writing ==> CanSend(cfg, s, s.all[i].request)
    ensures MatchOk(cfg, FirstTurn(cfg, s, i))
  {
    if s.link == Closed && !s.writing {
      var s' := SetPhase(s, i, Connecting).(writing := true, reading := true);
      MoveIsQuiet(s, i, s');
      QuietKeepsMatch(cfg, s, s');
    } else {
      WriteTurnKeepsMatch(cfg, s, i);
    }
  }

  lemma AskKeepsMatch<Tree, Table>(cfg: Config<Tree, Table>, s: Mux<Tree, Table>, request: Tree)
    requires MatchOk(cfg, s) && WriteOk(s)
    requires s.link == Open && !s.writing ==> CanSend(cfg, s, request)
    ensures MatchOk(cfg, FirstTurn(cfg, Spawned(s, request), |s.all|))
  {
    SpawnKeepsMatch(cfg, s, Spawned(s, request));
    SpawnKeepsWrite(s, request);
    FirstTurnKeepsMatch(cfg, Spawned(s, request), |s.all|);
  }

  lemma ConnectedKeepsMatch<Tree, Table>(cfg: Config<Tree, Table>, s: Mux<Tree, Table>, i: nat)
    requires MatchOk(cfg, s) && TurnsOk(s) && Enabled(cfg, s, ConnectEnds(i, true))
    ensures MatchOk(cfg, Next(cfg, s, ConnectEnds(i, true)))
  {
    OpenedIsInStep(cfg, s);
    var s1 := Opened(cfg, s);
    assert forall j :: 0 <= j < |s.all| ==> !s.all[j].phase.Sending?;
    QuietKeepsMatch(cfg, s, s1);
    SendingKeepsMatch(cfg, s1, i);
  }

  lemma SendFailsKeepsMatch<Tree, Table>(cfg: Config<Tree, Table>, s: Mux<Tree, Table>, i: nat)
    requires MatchOk(cfg, s) && WriteOk(s) && i < |s.all| && s.all[i].phase.Sending?
    ensures MatchOk(cfg, MuxFail(ReleaseWrite(Fail(s, i))))
  {
    SendFailsIsQuiet(s, i);
    QuietKeepsMatch(cfg, s, MuxFail(ReleaseWrite(Fail(s, i))));
  }

  // With the connection broken nobody sends any more.
  lemma SendFailsIsQuiet<Tree, Table>(s: Mux<Tree, Table>, i: nat)
    requires WriteOk(s) && i < |s.all| && s.all[i].phase.Sending?
    ensures Quiet(s, MuxFail(ReleaseWrite(Fail(s, i))))
  {
    var s1 := s.(link := Broken);
    var s2 := Fail(s1, i);
    if s.writers != [] { assert s.writers[0] in s.writers; }
    FailIsQuiet(s1, i);
    ReleaseIsQuiet(s2);
    MuxFailIsQuiet(ReleaseWrite(s2));
    QuietAgain(s, s1, s2);
    QuietAgain(s, s2, ReleaseWrite(s2));
    QuietAgain(s, ReleaseWrite(s2), MuxFail(ReleaseWrite(s2)));
  }

  // The coroutine looks at the loop's head again.
  lemma LookKeepsMatch<Tree, Table>(cfg: Config<Tree, Table>, s: Mux<Tree, Table>, s1: Mux<Tree, Table>, i: nat,
                                    timeUp: bool)
    requires MatchOk(cfg, s) && i < |s.all| && !s.all[i].phase.Sending?
    requires s1 == SetPhase(s, i, Started) || s1 == SetPhase(s, i, Started).(reading := false)
    ensures MatchOk(cfg, LoopTop(s1, i, timeUp))
  {
    hide MatchOk, LoopTop;
    QuietKeepsMatch(cfg, s, s1);
    LoopTopIsQuiet(s1, i, timeUp);
    QuietKeepsMatch(cfg, s1, LoopTop(s1, i, timeUp));
  }

  lemma ReaderKeepsMatch<Tree(!new), Table(!new)>(cfg: Config<Tree, Table>, s: Mux<Tree, Table>, i: nat, ready: bool,
                                                  timeUp: bool)
    requires RoundTrips(cfg.codec) && MatchOk(cfg, s) && TurnsOk(s) && Enabled(cfg, s, ReaderRuns(i, ready, timeUp))
    ensures MatchOk(cfg, Next(cfg, s, ReaderRuns(i, ready, timeUp)))
  {
    var s1 := if ready then ReadFrame(cfg, s) else s;
    if ready {
      ReadFrameKeepsMatch(cfg, s);
      ReadFrameKeepsTurns(cfg, s);
    }
    LookKeepsMatch(cfg, s1, SetPhase(s1, i, Started).(reading := false), i, timeUp);
  }

  lemma WriterKeepsMatch<Tree, Table>(cfg: Config<Tree, Table>, s: Mux<Tree, Table>, step: Step<Tree>)
    requires MatchOk(cfg, s) && TurnsOk(s) && Enabled(cfg, s, step)
    requires step.WriterRuns? || step.WriteSome? || step.SendFails?
    ensures MatchOk(cfg, Next(cfg, s, step))
  {
    hide MatchOk, CallsOk, ReadOk, WriteTurn, WritePart, MuxFail, ReleaseWrite, Fail;
    match step
    case WriterRuns(i) => WriteTurnKeepsMatch(cfg, s, i);
    case WriteSome(i, k) =>
      if s.writers != [] { assert s.writers[0] in s.writers; }
      assert forall j :: 0 <= j < |s.all| && s.all[j].phase.Sending? ==> Holds(s.all[j].phase) && j == i;
      WritePartKeepsMatch(cfg, s, i, s.all[i].phase.frame, s.all[i].phase.pos, k);
    case SendFails(i) => SendFailsKeepsMatch(cfg, s, i);
  }

  lemma NotConnectedKeepsMatch<Tree, Table>(cfg: Config<Tree, Table>, s: Mux<Tree, Table>, i: nat)
    requires MatchOk(cfg, s) && WriteOk(s) && i < |s.all| && s.all[i].phase.Connecting?
    ensures MatchOk(cfg, ReleaseWrite(Fail(s.(reading := false), i)))
  {
    QuietKeepsMatch(cfg, s, s.(reading := false));
    WriteSame(s, s.(reading := false));
    FailedKeepsMatch(cfg, s.(reading := false), i);
  }

  lemma ConnectorKeepsMatch<Tree, Table>(cfg: Config<Tree, Table>, s: Mux<Tree, Table>, i: nat, ok: bool)
    requires MatchOk(cfg, s) && TurnsOk(s) && Enabled(cfg, s, ConnectEnds(i, ok))
    ensures MatchOk(cfg, Next(cfg, s, ConnectEnds(i, ok)))
  {
    if ok {
      ConnectedKeepsMatch(cfg, s, i);
    } else {
      NotConnectedKeepsMatch(cfg, s, i);
    }
  }

  lemma ReadFailsKeepsMatch<Tree, Table>(cfg: Config<Tree, Table>, s: Mux<Tree, Table>, i: nat)
    requires MatchOk(cfg, s) && Enabled(cfg, s, ReadFails(i))
    ensures MatchOk(cfg, Next(cfg, s, ReadFails(i)))
  {
    MuxFailIsQuiet(s);
    QuietKeepsMatch(cfg, s, MuxFail(s));
    LookKeepsMatch(cfg, MuxFail(s), SetPhase(MuxFail(s), i, Started).(reading := false), i, true);
  }

  lemma WaiterKeepsMatch<Tree, Table>(cfg: Config<Tree, Table>, s: Mux<Tree, Table>, step: Step<Tree>)
    requires MatchOk(cfg, s) && Enabled(cfg, s, step)
    requires step.WaitBegins? || step.ParkEnds?
    ensures MatchOk(cfg, Next(cfg, s, step))
  {
    hide MatchOk, LoopTop;
    if step.WaitBegins? {
      assert SetPhase(s, step.i, Started) == s;
    }
    LookKeepsMatch(cfg, s, SetPhase(s, step.i, Started), step.i, step.timeUp);
  }

  lemma ServerKeepsMatch<Tree(!new), Table(!new)>(cfg: Config<Tree, Table>, s: Mux<Tree, Table>, step: Step<Tree>)
    requires RoundTrips(cfg.codec) && MatchOk(cfg, s) && Enabled(cfg, s, step)
    requires step.ServerTakes? || step.ServerReplies? || step.ServerFlushes? || step.ServerDedicates?
    ensures MatchOk(cfg, Next(cfg, s, step))
  {
    hide MatchOk, Receive, Enqueue, SendNow, Written;
    match step
    case ServerTakes => ServerTakesKeepsMatch(cfg, s, Receive(cfg.codec, s.up).value);
    case ServerReplies(j, reply) => ServerRepliesKeepsMatch(cfg, s, j, reply);
    case ServerFlushes => ServerFlushesKeepsMatch(cfg, s);
    case ServerDedicates => QuietDedicate(cfg, s);
  }

  lemma {:induction false} NextKeepsMatch<Tree(!new), Table(!new)>(cfg: Config<Tree, Table>, s: Mux<Tree, Table>,
                                                                   step: Step<Tree>)
    requires RoundTrips(cfg.codec) && MatchOk(cfg, s) && TurnsOk(s) && Enabled(cfg, s, step)
    ensures MatchOk(cfg, Next(cfg, s, step))
  {
    if step.Ask? {
      AskKeepsMatch(cfg, s, step.request);
    } else if step.ConnectEnds? {
      ConnectorKeepsMatch(cfg, s, step.i, step.ok);
    } else if step.ReaderRuns? {
      ReaderKeepsMatch(cfg, s, step.i, step.ready, step.timeUp);
    } else if step.WriterRuns? || step.WriteSome? || step.SendFails? {
      WriterKeepsMatch(cfg, s, step);
    } else if step.ReadFails? {
      ReadFailsKeepsMatch(cfg, s, step.i);
    } else if step.WaitBegins? || step.ParkEnds? {
      WaiterKeepsMatch(cfg, s, step);
    } else {
      ServerKeepsMatch(cfg, s, step);
    }
  }

  lemma QuietDedicate<Tree, Table>(cfg: Config<Tree, Table>, s: Mux<Tree, Table>)
    requires MatchOk(cfg, s) && s.down.queue == []
    ensures MatchOk(cfg, s.(dedicated := true))
  {
    var s' := s.(dedicated := true);
    ServerSame(s, s');
    AnswerKeepsReplies(s, s');
  }

  lemma NothingYet<Tree(!new), Table(!new)>(cfg: Config<Tree, Table>)
    ensures MatchOk(cfg, Init(cfg))
  {
    FreshInStep<Tree, Table>(cfg.codec, FRAME_REQUEST, Preloaded(cfg));
    FreshInStep<Tree, Table>(cfg.codec, FRAME_RESPONSE, Preloaded(cfg));
  }

  lemma {:induction false} MatchAlways<Tree(!new), Table(!new)>(cfg: Config<Tree, Table>, steps: seq<Step<Tree>>)
    requires RoundTrips(cfg.codec) && Run(cfg, steps).Some?
    ensures MatchOk(cfg, Run(cfg, steps).value)
  {
    hide MatchOk, TurnsOk, Enabled, Next;
    if steps == [] {
      NothingYet(cfg);
    } else {
      var before := steps[..|steps| - 1];
      MatchAlways(cfg, before);
      TurnsAlways(cfg, before);
      NextKeepsMatch(cfg, Run(cfg, before).value, steps[|steps| - 1]);
    }
  }
}
