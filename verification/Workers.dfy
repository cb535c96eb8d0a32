// The worker pool (corRestInit.c:1012-1239) as steps of its threads: queues, one per
// shard, each with its lock and its condition variable; workers parked on it; requests
// queued by any thread at any time; and the shutdown that clears the flag, shard by shard,
// and joins. A worker that has looked and is about to park holds its shard's lock.
module Workers {
  import opened Base

  type Item = int

  // queue: what is there; enqueued, dequeued: all there ever was; late: what came after
  // the last of the shard's workers had gone.
  datatype Shard = Shard(queue: seq<Item>, enqueued: seq<Item>, dequeued: seq<Item>, late: seq<Item>)

  datatype Phase =
    | Runnable                    // about to take the lock, for the first time or woken
    | Deciding                    // in the lock: empty queue, flag set, about to wait
    | Parked
    | Working(item: Item)
    | Exited

  datatype Worker = Worker(shard: nat, phase: Phase)

  // visited: how many shards the shutdown has been to.
  datatype Pool = Pool(shards: seq<Shard>, workers: seq<Worker>, run: bool, visited: nat, joined: nat)

  datatype Step =
    | Enqueue(shard: nat, item: Item, wake: Option<nat>)
    | Look(w: nat)
    | Park(w: nat)
    | Spurious(w: nat)
    | Finish(w: nat)
    | Visit
    | Join

  predicate InShard(p: Pool, w: int, s: int) {
    0 <= w < |p.workers| && p.workers[w].shard == s
  }

  predicate ParkedIn(p: Pool, w: int, s: int) {
    InShard(p, w, s) && p.workers[w].phase == Parked
  }

  // The shard's lock: held, between steps, by a worker about to park only.
  ghost predicate LockFree(p: Pool, s: nat) {
    forall w :: InShard(p, w, s) ==> p.workers[w].phase != Deciding
  }

  ghost predicate AllGone(p: Pool, s: nat) {
    forall w :: InShard(p, w, s) ==> p.workers[w].phase == Exited
  }

  ghost predicate Enabled(p: Pool, step: Step) {
    match step
    case Enqueue(s, _, wake) =>
      // pthread_cond_signal: one parked worker, when there is one
      && s < |p.shards| && LockFree(p, s)
      && (wake.Some? ==> ParkedIn(p, wake.value, s)) && (wake.None? ==> forall w :: !ParkedIn(p, w, s))
    case Look(w) => w < |p.workers| && p.workers[w].phase == Runnable && LockFree(p, p.workers[w].shard)
    case Park(w) => w < |p.workers| && p.workers[w].phase == Deciding
    case Spurious(w) => w < |p.workers| && p.workers[w].phase == Parked
    case Finish(w) => w < |p.workers| && p.workers[w].phase.Working?
    case Visit => p.visited < |p.shards| && LockFree(p, p.visited)
    case Join => p.visited == |p.shards| && p.joined < |p.workers| && p.workers[p.joined].phase == Exited
  }

  function WithPhase(p: Pool, w: nat, phase: Phase): Pool
    requires w < |p.workers|
  {
    p.(workers := p.workers[w := p.workers[w].(phase := phase)])
  }

  function Queued(shard: Shard, item: Item, late: bool): Shard {
    shard.(queue := shard.queue + [item], enqueued := shard.enqueued + [item],
           late := if late then shard.late + [item] else shard.late)
  }

  function Dequeued(shard: Shard): Shard
    requires shard.queue != []
  {
    shard.(queue := shard.queue[1..], dequeued := shard.dequeued + [shard.queue[0]])
  }

  // The loop of corRestWorkerMain, from the lock to the wait, the exit or the item.
  function DoLook(p: Pool, w: nat): Pool
    requires w < |p.workers| && p.workers[w].shard < |p.shards|
  {
    var s := p.workers[w].shard;
    if p.shards[s].queue != [] then
      WithPhase(p, w, Working(p.shards[s].queue[0])).(shards := p.shards[s := Dequeued(p.shards[s])])
    else if p.run then WithPhase(p, w, Deciding)
    else WithPhase(p, w, Exited)
  }

  // The broadcast of corRestWorkerPoolStop.
  function Woken(workers: seq<Worker>, s: nat): seq<Worker> {
    seq(|workers|, i requires 0 <= i < |workers| =>
      if workers[i].shard == s && workers[i].phase == Parked then workers[i].(phase := Runnable) else workers[i])
  }

  ghost function Do(p: Pool, step: Step): Pool
    requires Shaped(p) && Enabled(p, step)
  {
    match step
    case Enqueue(s, item, wake) =>
      var q := p.(shards := p.shards[s := Queued(p.shards[s], item, AllGone(p, s))]);
      if wake.Some? then WithPhase(q, wake.value, Runnable) else q
    case Look(w) => DoLook(p, w)
    case Park(w) => WithPhase(p, w, Parked)
    case Spurious(w) => WithPhase(p, w, Runnable)
    case Finish(w) => WithPhase(p, w, Runnable)
    case Visit => p.(run := false, workers := Woken(p.workers, p.visited), visited := p.visited + 1)
    case Join => p.(joined := p.joined + 1)
  }

  // ---------------------------------------------------------------------------
  // What every interleaving keeps

  // Every worker has a shard and, dealt round, every shard a worker.
  predicate Shaped(p: Pool) {
    && 0 < |p.shards| <= |p.workers| && p.visited <= |p.shards| && p.joined <= |p.workers|
    && forall w :: 0 <= w < |p.workers| ==> p.workers[w].shard == w % |p.shards|
  }

  // First in, first out; nothing twice and nothing lost.
  ghost predicate InOrder(p: Pool) {
    forall s :: 0 <= s < |p.shards| ==> p.shards[s].enqueued == p.shards[s].dequeued + p.shards[s].queue
  }

  // A worker about to park has an empty queue in front of it.
  ghost predicate DecidedEmpty(p: Pool) {
    forall w, s :: InShard(p, w, s) && 0 <= s < |p.shards| && p.workers[w].phase == Deciding ==> p.shards[s].queue == []
  }

  predicate Awake(p: Pool, w: int, s: int) {
    InShard(p, w, s) && (p.workers[w].phase == Runnable || p.workers[w].phase.Working?)
  }

  // No request waits for a worker that sleeps.
  ghost predicate NobodyForgotten(p: Pool) {
    forall s :: 0 <= s < |p.shards| && p.shards[s].queue != [] && !AllGone(p, s) ==> exists w :: Awake(p, w, s)
  }

  // Once all workers of a shard have gone, what is queued is what came too late.
  ghost predicate Drained(p: Pool) {
    forall s :: 0 <= s < |p.shards| ==> p.shards[s].late == if AllGone(p, s) then p.shards[s].queue else []
  }

  // The shutdown leaves no worker asleep behind it.
  ghost predicate NoneAsleep(p: Pool) {
    && (p.visited > 0 ==> !p.run) && (p.visited == 0 ==> p.run)
    && forall w, s :: InShard(p, w, s) && s < p.visited ==>
         p.workers[w].phase != Parked && p.workers[w].phase != Deciding
  }

  ghost predicate GoneForAReason(p: Pool) {
    && (forall w :: 0 <= w < |p.workers| && p.workers[w].phase == Exited ==> !p.run)
    && p.joined <= |p.workers| && (forall w :: 0 <= w < p.joined ==> p.workers[w].phase == Exited)
  }

  ghost predicate Inv(p: Pool) {
    && Shaped(p) && InOrder(p) && DecidedEmpty(p) && NobodyForgotten(p) && Drained(p) && NoneAsleep(p)
    && GoneForAReason(p)
  }

  // ---------------------------------------------------------------------------
  // Preservation

  lemma KeepsOrder(p: Pool, step: Step)
    requires Inv(p) && Enabled(p, step)
    ensures Shaped(Do(p, step)) && InOrder(Do(p, step))
  {
    hide NobodyForgotten, Drained, NoneAsleep;
    match step
    case Enqueue(s, item, wake) =>
      var q := p.shards[s];
      assert (q.dequeued + q.queue) + [item] == q.dequeued + (q.queue + [item]);
    case Look(w) =>
      var q := p.shards[p.workers[w].shard];
      if q.queue != [] {
        assert q.queue == [q.queue[0]] + q.queue[1..];
        assert q.dequeued + ([q.queue[0]] + q.queue[1..]) == (q.dequeued + [q.queue[0]]) + q.queue[1..];
      }
    case _ =>
  }

  lemma KeepsDecided(p: Pool, step: Step)
    requires Inv(p) && Enabled(p, step)
    ensures DecidedEmpty(Do(p, step))
  {
    hide NobodyForgotten, Drained, InOrder, NoneAsleep, GoneForAReason;
    var q := Do(p, step);
    forall w, s | InShard(q, w, s) && 0 <= s < |q.shards| && q.workers[w].phase == Deciding
      ensures q.shards[s].queue == []
    {
      assert InShard(p, w, s);
    }
  }

  lemma KeepsReason(p: Pool, step: Step)
    requires Inv(p) && Enabled(p, step)
    ensures GoneForAReason(Do(p, step))
  {
    hide NobodyForgotten, Drained, InOrder, DecidedEmpty;
  }

  lemma KeepsNoneAsleep(p: Pool, step: Step)
    requires Inv(p) && Enabled(p, step)
    ensures NoneAsleep(Do(p, step))
  {
    hide NobodyForgotten, Drained, InOrder, DecidedEmpty, GoneForAReason;
    var q := Do(p, step);
    forall w, s | InShard(q, w, s) && s < q.visited
      ensures q.workers[w].phase != Parked && q.workers[w].phase != Deciding
    {
      assert InShard(p, w, s);
    }
  }

  // Only the last worker's exit, seeing an empty queue, makes a shard one without workers.
  lemma GoneAfter(p: Pool, step: Step, s: nat)
    requires Inv(p) && Enabled(p, step) && s < |p.shards|
    ensures AllGone(p, s) ==> AllGone(Do(p, step), s)
    ensures AllGone(Do(p, step), s) && !AllGone(p, s) ==>
            step.Look? && p.shards[s].queue == [] && Do(p, step).shards == p.shards
  {
    hide NobodyForgotten, Drained, InOrder, DecidedEmpty;
    var q := Do(p, step);
    if AllGone(p, s) {
      forall w | InShard(q, w, s) ensures q.workers[w].phase == Exited {
        assert InShard(p, w, s);
      }
    } else {
      var w :| InShard(p, w, s) && p.workers[w].phase != Exited;
      assert InShard(q, w, s);
    }
  }

  lemma KeepsDrained(p: Pool, step: Step)
    requires Inv(p) && Enabled(p, step)
    ensures Drained(Do(p, step))
  {
    hide NobodyForgotten, InOrder, NoneAsleep, DecidedEmpty, GoneForAReason;
    var q := Do(p, step);
    forall s | 0 <= s < |q.shards| ensures q.shards[s].late == if AllGone(q, s) then q.shards[s].queue else [] {
      GoneAfter(p, step, s);
      if step.Look? {
        assert InShard(p, step.w, p.workers[step.w].shard);
      }
    }
  }

  lemma KeepsAwake(p: Pool, step: Step)
    requires Inv(p) && Enabled(p, step)
    ensures NobodyForgotten(Do(p, step))
  {
    hide Drained, InOrder, NoneAsleep, GoneForAReason;
    var q := Do(p, step);
    forall s | 0 <= s < |q.shards| && q.shards[s].queue != [] && !AllGone(q, s) ensures exists w :: Awake(q, w, s) {
      GoneAfter(p, step, s);
      if step.Enqueue? && step.shard == s {
        AwakeAfterEnqueue(p, step);
      } else {
        assert p.shards[s].queue != [];
        var w :| Awake(p, w, s);
        assert InShard(q, w, s);
        assert Awake(q, w, s);
      }
    }
  }

  // The signal wakes a parked worker; without one to wake, one that lives is awake.
  lemma AwakeAfterEnqueue(p: Pool, step: Step)
    requires Inv(p) && Enabled(p, step) && step.Enqueue? && !AllGone(p, step.shard)
    ensures exists w :: Awake(Do(p, step), w, step.shard)
  {
    hide Drained, InOrder, NoneAsleep, GoneForAReason, DecidedEmpty, NobodyForgotten;
    var s, q := step.shard, Do(p, step);
    if step.wake.Some? {
      assert Awake(q, step.wake.value, s);
    } else {
      var w :| InShard(p, w, s) && p.workers[w].phase != Exited;
      assert !ParkedIn(p, w, s);
      assert Awake(q, w, s);
    }
  }

  lemma {:induction false} StepKeeps(p: Pool, step: Step)
    requires Inv(p) && Enabled(p, step)
    ensures Inv(Do(p, step))
  {
    hide InOrder, DecidedEmpty, NobodyForgotten, Drained, NoneAsleep, GoneForAReason, Do, Enabled;
    KeepsOrder(p, step);
    KeepsDecided(p, step);
    KeepsReason(p, step);
    KeepsNoneAsleep(p, step);
    KeepsDrained(p, step);
    KeepsAwake(p, step);
  }

  // ---------------------------------------------------------------------------
  // The start

  const MAX_SHARDS: nat := 64

  // corRestWorkerShardsSet, then corRestWorkerPoolStart: how many shards there are.
  function Shards(asked: int, workers: int): nat {
    var wanted := if asked < 1 then 1 else if asked > MAX_SHARDS then MAX_SHARDS else asked;
    var m := if workers < 1 then 1 else workers;
    if wanted > m then m else wanted
  }

  function Started(asked: int, workers: int): Pool {
    var n, m := Shards(asked, workers), if workers < 1 then 1 else workers;
    Pool(seq(n, _ => Shard([], [], [], [])), seq(m, i requires 0 <= i < m => Worker(i % n, Runnable)), true, 0, 0)
  }

  lemma ShardHasWorker(p: Pool, s: nat)
    requires Shaped(p) && s < |p.shards|
    ensures InShard(p, s, s)
  {
    assert p.workers[s].shard == s % |p.shards| == s;
  }

  // However many shards and workers are asked for, the pool starts with one to sixty-four
  // shards, every one of them served.
  lemma {:induction false} StartedIsGood(asked: int, workers: int)
    ensures Inv(Started(asked, workers)) && 1 <= |Started(asked, workers).shards| <= MAX_SHARDS
    ensures forall s :: 0 <= s < |Started(asked, workers).shards| ==> InShard(Started(asked, workers), s, s)
  {
    var p := Started(asked, workers);
    assert Shaped(p);
    forall s | 0 <= s < |p.shards| ensures InShard(p, s, s) && !AllGone(p, s) {
      ShardHasWorker(p, s);
    }
  }

  // ---------------------------------------------------------------------------
  // Runs

  ghost predicate Runs(p: Pool, steps: seq<Step>)
    requires Inv(p)
    decreases |steps|
  {
    steps == [] || (Enabled(p, steps[0]) && (StepKeeps(p, steps[0]); Runs(Do(p, steps[0]), steps[1..])))
  }

  ghost function After(p: Pool, steps: seq<Step>): (q: Pool)
    requires Inv(p) && Runs(p, steps)
    ensures Inv(q)
    decreases |steps|
  {
    if steps == [] then p else
      StepKeeps(p, steps[0]);
      After(Do(p, steps[0]), steps[1..])
  }

  // A run of a pool that was started, and what it leads to.
  ghost predicate RunsFromStart(asked: int, workers: int, steps: seq<Step>) {
    StartedIsGood(asked, workers);
    Runs(Started(asked, workers), steps)
  }

  ghost function AfterStart(asked: int, workers: int, steps: seq<Step>): (p: Pool)
    requires RunsFromStart(asked, workers, steps)
    ensures Inv(p)
  {
    StartedIsGood(asked, workers);
    After(Started(asked, workers), steps)
  }

  // In every run of a pool that was started: requests leave a queue in the order they came,
  // each once; none waits while all of its shard's workers sleep; a worker goes on an empty
  // queue only, and after the shutdown began; and of a shard whose workers have all gone
  // nothing is left but what came after.
  lemma EveryRun(asked: int, workers: int, steps: seq<Step>)
    requires RunsFromStart(asked, workers, steps)
    ensures var p := AfterStart(asked, workers, steps);
            forall s :: 0 <= s < |p.shards| ==>
              var q := p.shards[s];
              && q.enqueued == q.dequeued + q.queue
              && (q.queue != [] && !AllGone(p, s) ==> exists w :: Awake(p, w, s))
              && (AllGone(p, s) ==> !p.run && q.enqueued == q.dequeued + q.late)
              && (s < p.visited ==> forall w :: !ParkedIn(p, w, s))
  {
    var p := AfterStart(asked, workers, steps);
    forall s | 0 <= s < |p.shards| ensures AllGone(p, s) ==> !p.run {
      ShardHasWorker(p, s);
    }
    assert forall w, s :: ParkedIn(p, w, s) ==> InShard(p, w, s);
  }

  // A worker exits on an empty queue, the flag cleared.
  lemma ExitMeans(p: Pool, step: Step, w: nat)
    requires Inv(p) && Enabled(p, step) && w < |p.workers|
    requires p.workers[w].phase != Exited && Do(p, step).workers[w].phase == Exited
    ensures !p.run && p.shards[p.workers[w].shard].queue == []
  {
    hide Inv, InOrder, DecidedEmpty, NobodyForgotten, Drained, NoneAsleep, GoneForAReason;
  }

  // What a worker takes is the first of its queue, and it is that which it runs.
  lemma FirstIsTaken(p: Pool, w: nat)
    requires Inv(p) && Enabled(p, Look(w)) && p.shards[p.workers[w].shard].queue != []
    ensures var s, q := p.workers[w].shard, Do(p, Look(w));
            && p.shards[s].queue == [p.shards[s].queue[0]] + q.shards[s].queue
            && q.shards[s].dequeued == p.shards[s].dequeued + [p.shards[s].queue[0]]
            && q.workers[w].phase == Working(p.shards[s].queue[0])
            && forall i :: 0 <= i < |p.shards| && i != s ==> q.shards[i] == p.shards[i]
  {
    hide InOrder, DecidedEmpty, NobodyForgotten, Drained, NoneAsleep, GoneForAReason;
  }

  // A request at the head of a queue is run, without another request or the shutdown: by a
  // worker that is awake.
  lemma HeadIsRun(p: Pool, s: nat) returns (steps: seq<Step>, w: nat)
    requires Inv(p) && s < |p.shards| && p.shards[s].queue != [] && !AllGone(p, s)
    ensures forall step <- steps :: step == Finish(w) || step == Look(w)
    ensures Runs(p, steps)
    ensures var q := After(p, steps);
            && InShard(q, w, s) && q.workers[w].phase == Working(p.shards[s].queue[0])
            && q.shards[s].dequeued == p.shards[s].dequeued + [p.shards[s].queue[0]]
            && p.shards[s].queue == [p.shards[s].queue[0]] + q.shards[s].queue
            && |q.shards| == |p.shards| && q.shards[s].enqueued == p.shards[s].enqueued
  {
    hide InOrder, Drained, NoneAsleep, GoneForAReason;
    w :| Awake(p, w, s);
    if p.workers[w].phase.Runnable? {
      assert LockFree(p, s);
      steps := [Look(w)];
      LookRuns(p, w, s);
    } else {
      var q := Do(p, Finish(w));
      StepKeeps(p, Finish(w));
      assert LockFree(q, s) by {
        assert forall v :: InShard(q, v, s) <==> InShard(p, v, s);
      }
      steps := [Finish(w), Look(w)];
      assert steps[1..] == [Look(w)];
      LookRuns(q, w, s);
    }
  }

  lemma LookRuns(p: Pool, w: nat, s: nat)
    requires Inv(p) && InShard(p, w, s) && s < |p.shards| && p.shards[s].queue != []
    requires p.workers[w].phase == Runnable && LockFree(p, s)
    ensures Runs(p, [Look(w)])
    ensures var q := After(p, [Look(w)]);
            && InShard(q, w, s) && q.workers[w].phase == Working(p.shards[s].queue[0])
            && q.shards[s].dequeued == p.shards[s].dequeued + [p.shards[s].queue[0]]
            && p.shards[s].queue == [p.shards[s].queue[0]] + q.shards[s].queue
            && |q.shards| == |p.shards| && q.shards[s].enqueued == p.shards[s].enqueued
  {
    hide InOrder, DecidedEmpty, NobodyForgotten, Drained, NoneAsleep, GoneForAReason;
    FirstIsTaken(p, w);
    StepKeeps(p, Look(w));
    var steps := [Look(w)];
    assert steps[1..] == [] && steps[0] == Look(w);
  }

  // And so is every request there is.
  lemma {:induction false} QueueIsRun(p: Pool, s: nat) returns (steps: seq<Step>)
    requires Inv(p) && s < |p.shards| && !AllGone(p, s)
    ensures forall step <- steps :: step.Finish? || step.Look?
    ensures Runs(p, steps) && s < |After(p, steps).shards|
    ensures After(p, steps).shards[s].queue == [] && After(p, steps).shards[s].dequeued == p.shards[s].enqueued
    decreases |p.shards[s].queue|
  {
    hide DecidedEmpty, NobodyForgotten, Drained, NoneAsleep, GoneForAReason;
    steps := [];
    var q := p.shards[s];
    assert q.enqueued == q.dequeued + q.queue;
    if q.queue != [] {
      var first, w := HeadIsRun(p, s);
      var p' := After(p, first);
      assert !AllGone(p', s);
      var rest := QueueIsRun(p', s);
      steps := first + rest;
      RunsOn(p, first, rest);
    }
  }

  lemma {:induction false} RunsOn(p: Pool, a: seq<Step>, b: seq<Step>)
    requires Inv(p) && Runs(p, a) && Runs(After(p, a), b)
    ensures Runs(p, a + b) && After(p, a + b) == After(After(p, a), b)
    decreases |a|
  {
    hide InOrder, DecidedEmpty, NobodyForgotten, Drained, NoneAsleep, GoneForAReason;
    if a == [] {
      assert a + b == b;
    } else {
      StepKeeps(p, a[0]);
      assert (a + b)[1..] == a[1..] + b;
      RunsOn(Do(p, a[0]), a[1..], b);
    }
  }

  // ---------------------------------------------------------------------------
  // The join comes to its end

  function Weight(phase: Phase): nat {
    match phase
    case Runnable => 1
    case Working(_) => 2
    case _ => 0
  }

  function Weights(workers: seq<Worker>): nat {
    if workers == [] then 0 else Weight(workers[0].phase) + Weights(workers[1..])
  }

  function Waiting(shards: seq<Shard>): nat {
    if shards == [] then 0 else 2 * |shards[0].queue| + Waiting(shards[1..])
  }

  lemma {:induction false} WeightsUpdate(workers: seq<Worker>, w: nat, x: Worker)
    requires w < |workers|
    ensures Weights(workers[w := x]) + Weight(workers[w].phase) == Weights(workers) + Weight(x.phase)
  {
    if w == 0 {
      assert workers[w := x][1..] == workers[1..];
    } else {
      assert workers[w := x][1..] == workers[1..][w - 1 := x];
      WeightsUpdate(workers[1..], w - 1, x);
    }
  }

  lemma {:induction false} WaitingUpdate(shards: seq<Shard>, s: nat, x: Shard)
    requires s < |shards|
    ensures Waiting(shards[s := x]) + 2 * |shards[s].queue| == Waiting(shards) + 2 * |x.queue|
  {
    if s == 0 {
      assert shards[s := x][1..] == shards[1..];
    } else {
      assert shards[s := x][1..] == shards[1..][s - 1 := x];
      WaitingUpdate(shards[1..], s - 1, x);
    }
  }

  // The steps there still are, once every shard was visited and while nothing is queued.
  function Left(p: Pool): nat
    requires p.joined <= |p.workers|
  {
    Waiting(p.shards) + Weights(p.workers) + (|p.workers| - p.joined)
  }

  lemma StepIsLess(p: Pool, step: Step)
    requires Inv(p) && Enabled(p, step) && p.visited == |p.shards| && !step.Enqueue?
    ensures Shaped(Do(p, step)) && Left(Do(p, step)) < Left(p) && Do(p, step).visited == |Do(p, step).shards|
  {
    hide InOrder, DecidedEmpty, NobodyForgotten, Drained, GoneForAReason;
    if !step.Join? && !step.Visit? {
      var w := step.w;
      var s := p.workers[w].shard;
      assert InShard(p, w, s);
      WeightsUpdate(p.workers, w, Do(p, step).workers[w]);
      if step.Look? && p.shards[s].queue != [] {
        WaitingUpdate(p.shards, s, Dequeued(p.shards[s]));
      }
    }
  }

  // Without more requests, the shutdown takes no more steps than this.
  lemma {:induction false} ShutdownEnds(p: Pool, steps: seq<Step>)
    requires Inv(p) && p.visited == |p.shards| && Runs(p, steps) && forall step <- steps :: !step.Enqueue?
    ensures |steps| <= Left(p)
    decreases |steps|
  {
    if steps != [] {
      StepIsLess(p, steps[0]);
      StepKeeps(p, steps[0]);
      ShutdownEnds(Do(p, steps[0]), steps[1..]);
    }
  }

  // And it is not stuck before all workers are joined: the one joined next has gone, or
  // can get on.
  lemma JoinGetsOn(p: Pool) returns (step: Step)
    requires Inv(p) && p.visited == |p.shards| && p.joined < |p.workers|
    ensures Enabled(p, step) && !step.Enqueue?
  {
    hide InOrder, DecidedEmpty, NobodyForgotten, Drained, GoneForAReason;
    var w := p.joined;
    var s := p.workers[w].shard;
    assert InShard(p, w, s) && LockFree(p, s);
    match p.workers[w].phase {
      case Exited => step := Join;
      case Working(_) => step := Finish(w);
      case _ => step := Look(w);
    }
  }

  // All joined: every request that came before its shard's last worker went was run.
  lemma JoinedIsDrained(p: Pool)
    requires Inv(p) && p.joined == |p.workers|
    ensures forall s :: 0 <= s < |p.shards| ==> p.shards[s].enqueued == p.shards[s].dequeued + p.shards[s].late
  {
    forall s | 0 <= s < |p.shards| ensures AllGone(p, s) {
    }
  }
}
