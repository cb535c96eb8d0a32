// A shard's queue as it is linked through the requests themselves, and the workers dealt
// to the shards (corRestInit.c:1006-1011, 1056-1089 and 1146-1216).
module WorkQueue {
  import opened Base
  import Workers

  // The part of a request's state the queue uses.
  class CorRestState {
    var asyncNext: CorRestState?
    const item: Workers.Item

    constructor (item: Workers.Item)
      ensures this.item == item && asyncNext == null
    {
      this.item, asyncNext := item, null;
    }
  }

  class CorRestWorkQueue {
    var head: CorRestState?
    var tail: CorRestState?
    ghost var nodes: seq<CorRestState>

    // The nodes, linked from the head to the tail.
    ghost predicate Valid()
      reads this, nodes
    {
      && Distinct(nodes)
      && (nodes == [] ==> head == null && tail == null)
      && (nodes != [] ==> head == nodes[0] && tail == nodes[|nodes| - 1] && nodes[|nodes| - 1].asyncNext == null)
      && forall i :: 0 <= i < |nodes| - 1 ==> nodes[i].asyncNext == nodes[i + 1]
    }

    // What a shard's queue is to the workers.
    ghost function Items(): seq<Workers.Item>
      reads this
    {
      seq(|nodes|, i requires 0 <= i < |nodes| reads this => nodes[i].item)
    }

    constructor ()
      ensures Valid() && nodes == []
    {
      head, tail, nodes := null, null, [];
    }

    // corRestWorkerEnqueue, in the lock.
    method Enqueue(conP: CorRestState)
      requires Valid() && conP !in nodes
      modifies this, conP, nodes
      ensures Valid() && nodes == old(nodes) + [conP] && Items() == old(Items()) + [conP.item]
    {
      conP.asyncNext := null;
      if tail != null {
        tail.asyncNext := conP;
      } else {
        head := conP;
      }
      tail := conP;
      nodes := nodes + [conP];
    }

    // corRestWorkerMain's taking of the oldest; null when there is none.
    method Dequeue() returns (conP: CorRestState?)
      requires Valid()
      modifies this
      ensures Valid()
      ensures old(nodes) == [] ==> conP == null && nodes == []
      ensures old(nodes) != [] ==> conP == old(nodes)[0] && nodes == old(nodes)[1..]
      ensures old(nodes) != [] ==> Items() == old(Items())[1..] && conP.item == old(Items())[0]
    {
      if head == null {
        return null;
      }
      conP := head;
      head := conP.asyncNext;
      if head == null {
        tail := null;
      }
      nodes := nodes[1..];
      assert forall i :: 0 <= i < |nodes| ==> nodes[i] == old(nodes)[i + 1];
    }
  }

  lemma StartedIs(asked: int, workers: int)
    ensures var p := Workers.Started(asked, workers);
            && |p.shards| == Workers.Shards(asked, workers) && |p.workers| == (if workers < 1 then 1 else workers)
            && 1 <= |p.shards| <= |p.workers|
            && forall i :: 0 <= i < |p.workers| ==> p.workers[i].shard == i % |p.shards|
  {
  }

  lemma Dealt(workerShard: seq<nat>, shards: nat)
    requires 1 <= shards <= |workerShard| && forall i :: 0 <= i < |workerShard| ==> workerShard[i] == i % shards
    ensures forall s :: 0 <= s < shards ==> s in workerShard
  {
    forall s | 0 <= s < shards ensures s in workerShard {
      assert workerShard[s] == s % shards == s;
    }
  }

  // The shards and who serves them, as corRestWorkerPoolStart deals the workers round.
  method DealShards(asked: int, workers: int) returns (shards: nat, workerShard: array<nat>)
    ensures fresh(workerShard) && 1 <= shards <= workerShard.Length
    ensures shards == |Workers.Started(asked, workers).shards|
    ensures workerShard.Length == |Workers.Started(asked, workers).workers|
    ensures forall i :: 0 <= i < workerShard.Length ==>
            workerShard[i] == Workers.Started(asked, workers).workers[i].shard
    ensures forall s :: 0 <= s < shards ==> s in workerShard[..]
  {
    hide Workers.Started;
    StartedIs(asked, workers);
    var wanted := asked;
    if wanted < 1 {
      wanted := 1;
    } else if wanted > Workers.MAX_SHARDS {
      wanted := Workers.MAX_SHARDS;
    }
    var m := if workers < 1 then 1 else workers;
    shards := if wanted > m then m else wanted;
    workerShard := new nat[m](_ => 0);
    for i := 0 to m
      invariant forall k :: 0 <= k < i ==> workerShard[k] == k % shards
    {
      workerShard[i] := i % shards;
    }
    Dealt(workerShard[..], shards);
  }
}
