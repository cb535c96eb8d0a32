// The client's connection as it is in memory (corRestCor.c:1503-1540 and 1727-1840): the
// calls linked through one another, the coroutines waiting for the write turn, the two
// turns. What the methods do to the lists is stated on the sequences of their nodes;
// CorMuxRefines ties them to the transition system (CorMux).
module CorMuxConn {
  import opened Base
  import opened CorMux

  // woken: its coroutine was made runnable.
  class Waiter {
    var next: Waiter?
    var woken: bool

    constructor ()
      ensures next == null && !woken
    {
      next, woken := null, false;
    }
  }

  // park: its coroutine waits in corRestCorWait.
  class CorRestCorCall<Tree> {
    const correlation: nat
    var done: bool
    var failed: bool
    var respTree: Option<Tree>
    var park: bool
    var woken: bool
    var next: CorRestCorCall?<Tree>

    constructor (correlation: nat)
      ensures this.correlation == correlation && !done && !failed && respTree == None && !park && !woken && next == null
    {
      this.correlation, done, failed, respTree := correlation, false, false, None;
      park, woken, next := false, false, null;
    }
  }

  class MuxConn<Tree> {
    var open: bool
    var calls: CorRestCorCall?<Tree>
    var writing: bool
    var reading: bool
    var writers: Waiter?
    ghost var list: seq<CorRestCorCall<Tree>>
    ghost var waiting: seq<Waiter>

    ghost predicate CallsLinked()
      reads this`calls, this`list, list`next
    {
      && Distinct(list)
      && (list == [] ==> calls == null)
      && (list != [] ==> calls == list[0] && list[|list| - 1].next == null)
      && forall i :: 0 <= i < |list| - 1 ==> list[i].next == list[i + 1]
    }

    ghost predicate WritersLinked()
      reads this`writers, this`waiting, waiting`next
    {
      && Distinct(waiting)
      && (waiting == [] ==> writers == null)
      && (waiting != [] ==> writers == waiting[0] && waiting[|waiting| - 1].next == null)
      && forall i :: 0 <= i < |waiting| - 1 ==> waiting[i].next == waiting[i + 1]
    }

    ghost predicate Valid()
      reads this, list`next, waiting`next
    {
      CallsLinked() && WritersLinked()
    }

    constructor ()
      ensures Valid() && list == [] && waiting == [] && !writing && !reading && !open
    {
      open, calls, writing, reading, writers, list, waiting := false, null, false, false, null, [], [];
    }

    // corRestCorStart: a call is linked in front of the others.
    method Link(callP: CorRestCorCall<Tree>)
      requires Valid() && callP !in list
      modifies this`calls, this`list, callP`next
      ensures Valid() && list == [callP] + old(list)
    {
      callP.next := calls;
      calls := callP;
      list := [callP] + list;
    }

    // callUnlink
    method CallUnlink(callP: CorRestCorCall<Tree>)
      requires Valid()
      modifies this`calls, this`list, callP`next, list`next
      ensures Valid() && list == Without(old(list), callP) && callP.next == null
    {
      hide Without;
      ghost var l, i := list, 0;
      var prev: CorRestCorCall?<Tree>, cur := null, calls;
      while cur != null && cur != callP
        invariant 0 <= i <= |l|
        invariant cur == if i < |l| then l[i] else null
        invariant prev == if i > 0 then l[i - 1] else null
        invariant callP !in l[..i]
        decreases |l| - i
      {
        assert l[..i + 1] == l[..i] + [l[i]];
        prev, cur, i := cur, cur.next, i + 1;
      }
      WithoutAt(l, callP, i);
      if cur != null {
        UnlinkAt(prev, cur, i);
      }
      ClearNext(callP);
    }

    method ClearNext(callP: CorRestCorCall<Tree>)
      requires CallsLinked() && callP !in list
      modifies callP`next
      ensures CallsLinked() && callP.next == null
    {
      callP.next := null;
    }

    // The i-th call, cur, out of the list; prev: the one in front of it.
    method UnlinkAt(prev: CorRestCorCall?<Tree>, cur: CorRestCorCall<Tree>, ghost i: nat)
      requires CallsLinked() && i < |list| && cur == list[i] && prev == if i > 0 then list[i - 1] else null
      modifies this`calls, this`list, list`next
      ensures CallsLinked() && list == old(list)[..i] + old(list)[i + 1..] && cur !in list
    {
      ghost var l := list;
      assert cur.next == if i + 1 < |l| then l[i + 1] else null;
      if prev == null {
        calls := cur.next;
      } else {
        prev.next := cur.next;
      }
      list := l[..i] + l[i + 1..];
      assert forall k :: 0 <= k < |list| ==> list[k] == if k < i then l[k] else l[k + 1];
    }

    // callDone
    method CallDone(callP: CorRestCorCall<Tree>, tree: Option<Tree>, failed: bool)
      requires Valid()
      modifies this`calls, this`list, callP, list`next
      ensures Valid() && list == Without(old(list), callP)
      ensures callP.done && callP.respTree == tree && callP.failed == failed && callP.park == old(callP.park)
      ensures callP.woken == (old(callP.woken) || callP.park)
    {
      CallUnlink(callP);
      callP.done, callP.respTree, callP.failed := true, tree, failed;
      if callP.park {
        callP.woken := true;
      }
    }

    ghost predicate WasFailed(c: CorRestCorCall<Tree>, woken: bool, park: bool)
      reads c
    {
      c.done && c.failed && c.respTree == None && c.park == park && c.woken == (woken || park)
    }

    // One turn of muxFail's loop.
    method FailFirst()
      requires Valid() && calls != null
      modifies this`calls, this`list, list
      ensures Valid() && old(list) != [] && list == old(list)[1..] && (calls == null <==> list == [])
      ensures WasFailed(old(list)[0], old(list[0].woken), old(list[0].park))
      ensures forall c <- list :: c.woken == old(c.woken) && c.park == old(c.park)
    {
      hide Without, CallsLinked, WritersLinked, Distinct;
      CallsOrNone();
      FirstAlone();
      ghost var l, c := list, list[0];
      WithoutAt(l, c, 0);
      assert l[..0] + l[1..] == l[1..];
      CallDone(calls, None, true);
      CallsOrNone();
    }

    // muxFail: closed, and every call on the list done, failed and woken if it waits.
    method MuxFail()
      requires Valid()
      modifies this`open, this`calls, this`list, list
      ensures Valid() && !open && list == []
      ensures forall c <- old(list) :: WasFailed(c, old(c.woken), old(c.park))
    {
      hide CallsLinked, WritersLinked, WasFailed;
      open := false;
      CallsOrNone();
      ghost var l, i := list, 0;
      while calls != null
        invariant Valid() && !open && 0 <= i <= |l| && list == l[i..] && (calls == null <==> list == [])
        invariant forall k :: 0 <= k < i ==> l[k] !in list && WasFailed(l[k], old(l[k].woken), old(l[k].park))
        invariant forall k :: i <= k < |l| ==> l[k].woken == old(l[k].woken) && l[k].park == old(l[k].park)
        decreases |l| - i
      {
        ghost var first := list[0];
        FirstAlone();
        FailFirst();
        assert list == l[i + 1..] && first == l[i];
        i := i + 1;
      }
      assert forall c <- l :: exists k :: 0 <= k < |l| && l[k] == c;
    }

    lemma CallsOrNone()
      requires CallsLinked()
      ensures calls == null <==> list == []
    {
    }

    lemma FirstAlone()
      requires CallsLinked() && list != []
      ensures list[0] == calls && list[0] !in list[1..]
    {
    }

    // The call a response is for.
    method FindCall(correlation: nat) returns (callP: CorRestCorCall?<Tree>)
      requires Valid()
      ensures var k := FirstIndex(list, (c: CorRestCorCall<Tree>) => c.correlation == correlation);
              callP == if k < |list| then list[k] else null
    {
      callP := calls;
      ghost var i := 0;
      while callP != null && callP.correlation != correlation
        invariant 0 <= i <= |list| && callP == if i < |list| then list[i] else null
        invariant forall k :: 0 <= k < i ==> list[k].correlation != correlation
        decreases |list| - i
      {
        callP, i := callP.next, i + 1;
      }
    }

    // readTurnHandOff: the first call that waits is woken, and no other.
    method ReadTurnHandOff() returns (ghost k: nat)
      requires Valid()
      modifies list`woken
      ensures Valid()
      ensures k <= |list| && (forall i :: 0 <= i < k ==> !list[i].park) && (k < |list| ==> list[k].park)
      ensures forall i :: 0 <= i < |list| ==> list[i].woken == (old(list[i].woken) || i == k)
    {
      var callP := calls;
      k := 0;
      while callP != null
        invariant 0 <= k <= |list| && callP == if k < |list| then list[k] else null
        invariant forall i :: 0 <= i < k ==> !list[i].park
        invariant forall i :: 0 <= i < |list| ==> list[i].woken == old(list[i].woken)
        decreases |list| - k
      {
        if callP.park {
          callP.woken := true;
          return;
        }
        callP, k := callP.next, k + 1;
      }
    }

    // writeTurn, for a coroutine that finds the turn taken: to the end of the queue.
    method Queue(w: Waiter)
      requires Valid() && w !in waiting && w.next == null
      modifies this`writers, this`waiting, waiting`next
      ensures Valid() && waiting == old(waiting) + [w]
    {
      var last := writers;
      if last == null {
        writers := w;
      } else {
        ghost var i := 0;
        while last.next != null
          invariant 0 <= i < |waiting| && last == waiting[i]
          invariant last.next == if i < |waiting| - 1 then waiting[i + 1] else null
          decreases |waiting| - i
        {
          last, i := last.next, i + 1;
        }
        last.next := w;
      }
      waiting := waiting + [w];
    }

    // writeTurnRelease: the turn is free, and the first of the queue woken to take it.
    method WriteTurnRelease()
      requires Valid()
      modifies this`writing, this`writers, this`waiting, waiting`woken
      ensures Valid() && !writing
      ensures old(waiting) == [] ==> waiting == []
      ensures old(waiting) != [] ==>
                waiting == old(waiting)[1..] && old(waiting)[0].woken && old(waiting)[0] !in waiting
      ensures forall w <- waiting :: w.woken == old(w.woken)
    {
      writing := false;
      var wP := writers;
      if wP != null {
        writers := wP.next;
        wP.woken := true;
        waiting := waiting[1..];
      }
    }
  }

  lemma {:induction false} WithoutAt<T>(l: seq<T>, x: T, i: nat)
    requires i <= |l| && x !in l[..i] && (i < |l| ==> l[i] == x)
    ensures Without(l, x) == if i < |l| then l[..i] + l[i + 1..] else l
  {
    if i > 0 {
      assert l[..i][0] == l[0];
      assert l[1..][..i - 1] == l[..i][1..];
      WithoutAt(l[1..], x, i - 1);
    }
  }
}
