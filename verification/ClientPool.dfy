// The client's idle connections (corRestClientPool.c): 64 buckets by a hash of host, port
// and TLS, each a list and its count; taken from the front, put back at the front, the
// expired dropped one at a time. Every method is one turn under the pool's mutex.
module ClientPool {
  import opened Base

  const BUCKETS: nat := 64
  const WORD: int := 0x1_0000_0000
  const WORD64: int := 0x1_0000_0000_0000_0000

  // ---------------------------------------------------------------------------
  // The hash

  // h = h * 33 + c, over the host's characters.
  function HostHash(host: seq<Byte>): nat {
    if host == [] then 5381 else (HostHash(host[..|host| - 1]) * 33 + host[|host| - 1]) % WORD
  }

  // bucketHash
  function Hash(host: seq<Byte>, port: nat, tls: bool): (b: nat)
    ensures b < BUCKETS
  {
    (((HostHash(host) * 33 + port) % WORD) * 33 + (if tls then 1 else 0)) % WORD % BUCKETS
  }

  method BucketHash(host: seq<Byte>, port: nat, tls: bool) returns (b: nat)
    ensures b == Hash(host, port, tls)
  {
    hide Hash;
    var h := 5381;
    assert host[..0] == [];
    for i := 0 to |host|
      invariant h == HostHash(host[..i]) && h >= 0
    {
      assert host[..i + 1][..i] == host[..i];
      h := (h * 33 + host[i]) % WORD;
    }
    assert host[..|host|] == host;
    h := (h * 33 + port) % WORD;
    h := (h * 33 + if tls then 1 else 0) % WORD;
    b := h % BUCKETS;
    HashIs(host, port, tls);
  }

  lemma HashIs(host: seq<Byte>, port: nat, tls: bool)
    ensures Hash(host, port, tls) ==
            (((HostHash(host) * 33 + port) % WORD) * 33 + (if tls then 1 else 0)) % WORD % BUCKETS
  {
  }

  lemma LowBits(x: nat)
    ensures x % WORD % BUCKETS == x % BUCKETS
  {
    var q := x / WORD;
    assert x == q * WORD + x % WORD;
    assert x == (q * 0x400_0000) * BUCKETS + x % WORD;
  }

  lemma SameRest(a: nat, b: nat, c: nat)
    requires a % BUCKETS == b % BUCKETS
    ensures (a * 33 + c) % BUCKETS == (b * 33 + c) % BUCKETS
  {
    var k := a / BUCKETS - b / BUCKETS;
    assert a == b + BUCKETS * k;
    AddMultiple(b * 33 + c, 33 * k);
  }

  lemma AddMultiple(x: int, k: int)
    ensures (x + BUCKETS * k) % BUCKETS == x % BUCKETS
  {
  }

  // Ports 64 apart share a bucket, whatever the host.
  lemma {:induction false} BucketsAreShared(host: seq<Byte>, port: nat, tls: bool)
    ensures Hash(host, port, tls) == Hash(host, port + 64, tls)
  {
    hide HostHash;
    var t := if tls then 1 else 0;
    var a, b := HostHash(host) * 33 + port, HostHash(host) * 33 + (port + 64);
    LowBits(a);
    LowBits(b);
    assert b == a + BUCKETS;
    assert a % WORD % BUCKETS == b % WORD % BUCKETS;
    SameRest(a % WORD, b % WORD, t);
    LowBits((a % WORD) * 33 + t);
    LowBits((b % WORD) * 33 + t);
  }

  // The bucket, for a host of two characters, without the wrapping: its low bits do not see it.
  lemma HashOfTwo(a: Byte, b: Byte, port: nat, tls: bool)
    requires port < 0x1_0000
    ensures var h := ((5381 * 33 + a) * 33 + b) * 33 + port;
            Hash([a, b], port, tls) == (h * 33 + if tls then 1 else 0) % 64
  {
    var t := if tls then 1 else 0;
    var h := ((5381 * 33 + a) * 33 + b) * 33 + port;
    assert [a, b][..1] == [a] && [a][..0] == [];
    assert HostHash([a]) == 5381 * 33 + a;
    assert HostHash([a, b]) == (5381 * 33 + a) * 33 + b;
    LowBits(h);
    SameRest(h % WORD, h, t);
    LowBits((h % WORD) * 33 + t);
  }

  // "az" and "bY": two hosts in one bucket.
  const HOST_A: seq<Byte> := [97, 122]
  const HOST_B: seq<Byte> := [98, 89]

  lemma HostsShareABucket()
    ensures Hash(HOST_A, 80, false) == Hash(HOST_B, 80, false)
  {
    assert HOST_A[..1] == [97] && HOST_B[..1] == [98];
    assert [97 as Byte][..0] == [] && [98 as Byte][..0] == [];
    assert HostHash(HOST_A) == HostHash(HOST_B);
  }

  // ---------------------------------------------------------------------------
  // Connections

  class CorRestClientConn {
    const host: seq<Byte>
    const port: nat
    const tls: bool
    const ssl: bool
    var fd: int
    var lastUsed: nat
    var bufLen: nat
    var next: CorRestClientConn?

    constructor (host: seq<Byte>, port: nat, tls: bool, ssl: bool, fd: int)
      ensures this.host == host && this.port == port && this.tls == tls && this.ssl == ssl && this.fd == fd
    {
      this.host, this.port, this.tls, this.ssl, this.fd := host, port, tls, ssl, fd;
      lastUsed, bufLen, next := 0, 0, null;
    }

    function Bucket(): (b: nat)
      ensures b < BUCKETS
    {
      Hash(host, port, tls)
    }

    predicate Matches(host: seq<Byte>, port: nat, tls: bool) {
      this.port == port && this.tls == tls && this.host == host
    }
  }

  // now - lastUsed, and the limit, as uint64_t: a connection put back after the clock was
  // read counts as very old.
  predicate Expired(lastUsed: nat, now: nat, secs: int) {
    (now - lastUsed) % WORD64 > ((secs % WORD64) * 1000) % WORD64
  }

  // Idle for longer than it may be.
  predicate ReallyIdle(lastUsed: nat, now: nat, secs: nat) {
    lastUsed <= now && now - lastUsed > secs * 1000
  }

  const SECS_MAX: nat := 1_000_000_000

  // What the word arithmetic comes to, for every clock and every limit within reason.
  lemma ExpiredExactly(lastUsed: nat, now: nat, secs: nat)
    requires lastUsed < WORD64 && now < WORD64 && secs < SECS_MAX
    ensures Expired(lastUsed, now, secs) <==>
            if lastUsed <= now then now - lastUsed > secs * 1000 else lastUsed - now < WORD64 - secs * 1000
    ensures Expired(lastUsed, now, secs) ==> (ReallyIdle(lastUsed, now, secs) <==> lastUsed <= now)
    ensures (Expired(lastUsed, now, secs) <==> ReallyIdle(lastUsed, now, secs)) <==>
            lastUsed <= now || lastUsed - now >= WORD64 - secs * 1000
  {
  }

  function Total(counts: seq<int>): int {
    if counts == [] then 0 else counts[0] + Total(counts[1..])
  }

  lemma {:induction false} TotalUpdate(counts: seq<int>, b: nat, x: int)
    requires b < |counts|
    ensures Total(counts[b := x]) == Total(counts) - counts[b] + x
  {
    if b == 0 {
      assert counts[b := x][1..] == counts[1..];
    } else {
      assert counts[b := x][1..] == counts[1..][b - 1 := x];
      TotalUpdate(counts[1..], b - 1, x);
    }
  }

  lemma {:induction false} TotalOfNone(n: nat)
    ensures Total(seq(n, _ => 0)) == 0
  {
    if n > 0 {
      assert seq(n, _ => 0)[1..] == seq(n - 1, _ => 0);
      TotalOfNone(n - 1);
    }
  }

  function Without<T>(list: seq<T>, i: nat): seq<T>
    requires i < |list|
  {
    list[..i] + list[i + 1..]
  }

  // ---------------------------------------------------------------------------
  // A bucket's list

  // These connections, linked from the head on.
  ghost predicate Linked(head: CorRestClientConn?, list: seq<CorRestClientConn>)
    reads list`next
  {
    && (list == [] ==> head == null)
    && (list != [] ==> head == list[0] && list[|list| - 1].next == null)
    && forall i :: 0 <= i < |list| - 1 ==> list[i].next == list[i + 1]
  }

  // Connection c, at place i with prev in front of it, out of the list.
  method UnlinkNode(head: CorRestClientConn?, prev: CorRestClientConn?, c: CorRestClientConn,
                    ghost list: seq<CorRestClientConn>, ghost i: nat)
    returns (head': CorRestClientConn?)
    requires Linked(head, list) && Distinct(list) && i < |list| && c == list[i]
    requires prev == if i > 0 then list[i - 1] else null
    modifies list`next
    ensures Linked(head', Without(list, i)) && c.next == null
  {
    assert c.next == if i + 1 < |list| then list[i + 1] else null;
    head' := head;
    if prev == null {
      head' := c.next;
    } else {
      prev.next := c.next;
    }
    ghost var w := Without(list, i);
    assert forall k :: 0 <= k < |w| ==> w[k] == (if k < i then list[k] else list[k + 1]) && w[k] != c;
    c.next := null;
  }

  // A connection in front of the list.
  method PushNode(head: CorRestClientConn?, c: CorRestClientConn, ghost list: seq<CorRestClientConn>)
    requires Linked(head, list) && c !in list
    modifies c`next
    ensures Linked(c, [c] + list)
  {
    c.next := head;
  }

  // The place of the first that expired, or the length.
  ghost function FirstExpired(list: seq<CorRestClientConn>, now: nat, secs: int): (k: nat)
    reads list`lastUsed
    ensures k <= |list| && (k < |list| ==> Expired(list[k].lastUsed, now, secs))
    ensures forall i :: 0 <= i < k ==> !Expired(list[i].lastUsed, now, secs)
  {
    if list == [] || Expired(list[0].lastUsed, now, secs) then 0
    else
      var rest := FirstExpired(list[1..], now, secs);
      assert forall i :: 1 <= i < |list| ==> list[1..][i - 1] == list[i];
      1 + rest
  }

  // The list without it.
  ghost function Kept(list: seq<CorRestClientConn>, now: nat, secs: int): seq<CorRestClientConn>
    reads list`lastUsed
  {
    var k := FirstExpired(list, now, secs);
    if k < |list| then Without(list, k) else list
  }

  ghost function Evicted(list: seq<CorRestClientConn>, now: nat, secs: int): set<CorRestClientConn>
    reads list`lastUsed
  {
    var k := FirstExpired(list, now, secs);
    if k < |list| then {list[k]} else {}
  }

  // One at most goes: the first that was idle for too long by the clock, and the others stay
  // in their order.
  lemma EvictionMeans(list: seq<CorRestClientConn>, now: nat, secs: int, k: nat)
    requires k <= |list| && (forall i :: 0 <= i < k ==> !Expired(list[i].lastUsed, now, secs))
    requires k < |list| ==> Expired(list[k].lastUsed, now, secs)
    ensures Evicted(list, now, secs) == if k < |list| then {list[k]} else {}
    ensures Kept(list, now, secs) == if k < |list| then list[..k] + list[k + 1..] else list
  {
    assert FirstExpired(list, now, secs) == k;
  }

  lemma EvictsTheFirst(list: seq<CorRestClientConn>, now: nat, secs: int)
    requires list != []
    ensures Expired(list[0].lastUsed, now, secs) ==> Evicted(list, now, secs) == {list[0]}
  {
  }

  // The first of the list for this host, port and TLS.
  ghost function FirstFor(list: seq<CorRestClientConn>, host: seq<Byte>, port: nat, tls: bool): CorRestClientConn? {
    var k := FirstIndex(list, (c: CorRestClientConn) => c.Matches(host, port, tls));
    if k < |list| then list[k] else null
  }

  lemma FirstForMeans(list: seq<CorRestClientConn>, host: seq<Byte>, port: nat, tls: bool, k: nat)
    requires k <= |list|
    requires forall i :: 0 <= i < k ==> list[i].host != host || list[i].port != port || list[i].tls != tls
    requires k < |list| ==> list[k].host == host && list[k].port == port && list[k].tls == tls
    ensures FirstFor(list, host, port, tls) == if k < |list| then list[k] else null
  {
    assert FirstIndex(list, (c: CorRestClientConn) => c.Matches(host, port, tls)) == k;
  }

  lemma KeepsTheFirst(list: seq<CorRestClientConn>, now: nat, secs: int)
    requires list != [] && !Expired(list[0].lastUsed, now, secs)
    ensures list[0] !in Evicted(list, now, secs) || !Distinct(list)
    ensures FirstFor(Kept(list, now, secs), list[0].host, list[0].port, list[0].tls) == list[0]
  {
    var k := FirstExpired(list, now, secs);
    assert Kept(list, now, secs)[0] == list[0];
  }

  // How many of the list are for this host, port and TLS.
  function CountFor(list: seq<CorRestClientConn>, host: seq<Byte>, port: nat, tls: bool): nat {
    if list == [] then 0 else (if list[0].Matches(host, port, tls) then 1 else 0) + CountFor(list[1..], host, port, tls)
  }

  lemma {:induction false} CountForAll(list: seq<CorRestClientConn>, host: seq<Byte>, port: nat, tls: bool)
    ensures CountFor(list, host, port, tls) <= |list|
    ensures CountFor(list, host, port, tls) == |list| <==> forall c <- list :: c.Matches(host, port, tls)
    ensures CountFor(list, host, port, tls) == 0 <==> forall c <- list :: !c.Matches(host, port, tls)
  {
    if list != [] {
      CountForAll(list[1..], host, port, tls);
      assert forall c :: c in list <==> c == list[0] || c in list[1..];
    }
  }

  predicate Full(n: nat, cap: int) { n >= cap }

  // A bucket that is full, and one that is full of this host's: the same for every cap
  // exactly when nothing else is in the bucket; and for one cap, unless the host's own are
  // fewer than the cap and all together are not.
  lemma CapIsPerHostWhen(list: seq<CorRestClientConn>, host: seq<Byte>, port: nat, tls: bool)
    ensures var own := CountFor(list, host, port, tls);
            && ((forall cap: int :: Full(|list|, cap) <==> Full(own, cap)) <==>
                 forall c <- list :: c.Matches(host, port, tls))
            && (forall cap: int :: (Full(|list|, cap) <==> Full(own, cap)) <==> !(own < cap <= |list|))
  {
    var own := CountFor(list, host, port, tls);
    CountForAll(list, host, port, tls);
    assert Full(|list|, |list|) && (Full(own, |list|) <==> own == |list|);
  }

  // Every connection of the pool is in one list, once, and that is its own bucket's.
  ghost predicate Sorted(lists: seq<seq<CorRestClientConn>>, pooled: set<CorRestClientConn>) {
    && |lists| == BUCKETS
    && (forall b :: 0 <= b < BUCKETS ==> Distinct(lists[b]))
    && (forall b, i :: 0 <= b < BUCKETS && 0 <= i < |lists[b]| ==> lists[b][i] in pooled && lists[b][i].Bucket() == b)
    && (forall c <- pooled :: c in lists[c.Bucket()])
  }

  lemma SortedWithout(lists: seq<seq<CorRestClientConn>>, pooled: set<CorRestClientConn>, b: nat, i: nat)
    requires Sorted(lists, pooled) && b < BUCKETS && i < |lists[b]|
    ensures Sorted(lists[b := Without(lists[b], i)], pooled - {lists[b][i]}) && lists[b][i] in pooled
    ensures |Without(lists[b], i)| == |lists[b]| - 1 && lists[b][i].Bucket() == b
  {
    hide Hash;
    WithoutMeans(lists[b], i);
    var after := lists[b := Without(lists[b], i)];
    forall b', k | 0 <= b' < BUCKETS && 0 <= k < |after[b']|
      ensures after[b'][k] in pooled - {lists[b][i]} && after[b'][k].Bucket() == b'
    {
      var c := after[b'][k];
      if b' == b {
        assert c == lists[b][if k < i then k else k + 1];
      } else {
        assert c == lists[b'][k];
        assert lists[b][i].Bucket() == b;
      }
    }
  }

  lemma SortedWith(lists: seq<seq<CorRestClientConn>>, pooled: set<CorRestClientConn>, c: CorRestClientConn)
    requires Sorted(lists, pooled) && c !in pooled
    ensures Sorted(lists[c.Bucket() := [c] + lists[c.Bucket()]], pooled + {c})
  {
    hide Hash;
    var b := c.Bucket();
    assert forall k :: 0 <= k < |lists[b]| ==> lists[b][k] in pooled;
  }

  // A connection is in no list but its own.
  lemma Others(lists: seq<seq<CorRestClientConn>>, pooled: set<CorRestClientConn>, b: nat)
    requires Sorted(lists, pooled) && b < BUCKETS
    ensures Distinct(lists[b]) && forall c <- lists[b] :: c in pooled
    ensures forall b', c :: 0 <= b' < BUCKETS && c in lists[b'] ==> c in pooled && (b' != b ==> c !in lists[b])
  {
    hide Hash;
  }

  // ---------------------------------------------------------------------------
  // The pool

  class CorRestClientPool {
    var heads: seq<CorRestClientConn?>
    var counts: seq<int>
    var totalIdle: int
    const maxIdlePerHost: int
    const idleTimeoutSec: int
    // lists: the buckets' connections; pooled: all of them; closed: those closed and freed;
    // leaked: of these, the ones whose TLS session was left open.
    ghost var lists: seq<seq<CorRestClientConn>>
    ghost var pooled: set<CorRestClientConn>
    ghost var closed: set<CorRestClientConn>
    ghost var leaked: set<CorRestClientConn>

    ghost predicate Counted()
      reads this`lists, this`counts, this`totalIdle
    {
      && |lists| == |counts| == BUCKETS
      && (forall b :: 0 <= b < BUCKETS ==> 0 <= counts[b] == |lists[b]|)
      && totalIdle == Total(counts)
      && (forall b :: 0 <= b < BUCKETS ==> counts[b] <= (if maxIdlePerHost > 0 then maxIdlePerHost else 0))
    }

    ghost predicate AllLinked()
      reads this`lists, this`heads, this`pooled, pooled`next
      requires Sorted(lists, pooled)
    {
      |heads| == BUCKETS && forall b :: 0 <= b < BUCKETS ==> Linked(heads[b], lists[b])
    }

    ghost predicate Valid()
      reads this, pooled`next
    {
      Counted() && Sorted(lists, pooled) && AllLinked() && pooled !! closed && leaked <= closed
    }

    // corRestClientPoolInit
    constructor (maxIdlePerHost: int, idleTimeoutSec: int)
      ensures Valid() && this.maxIdlePerHost == maxIdlePerHost && this.idleTimeoutSec == idleTimeoutSec
      ensures closed == {} == leaked && pooled == {}
      ensures forall b :: 0 <= b < BUCKETS ==> lists[b] == [] && counts[b] == 0
    {
      heads, counts, totalIdle := seq(BUCKETS, _ => null), seq(BUCKETS, _ => 0), 0;
      this.maxIdlePerHost, this.idleTimeoutSec := maxIdlePerHost, idleTimeoutSec;
      lists, pooled, closed, leaked := seq(BUCKETS, _ => []), {}, {}, {};
      TotalOfNone(BUCKETS);
    }

    // The connection at place i of a bucket, out of the list.
    method Unlink(b: nat, prev: CorRestClientConn?, c: CorRestClientConn, ghost i: nat)
      requires Valid() && b < BUCKETS && i < |lists[b]| && c == lists[b][i]
      requires prev == if i > 0 then lists[b][i - 1] else null
      modifies this`heads, this`counts, this`totalIdle, this`lists, this`pooled, pooled`next
      ensures Valid() && lists == old(lists)[b := Without(old(lists)[b], i)] && totalIdle == old(totalIdle) - 1
      ensures c in old(pooled) && pooled == old(pooled) - {c} && c.next == null && c.Bucket() == b
    {
      hide Hash, Total, Without, Linked, Sorted, Distinct;
      ghost var was := lists;
      Others(lists, pooled, b);
      SortedWithout(lists, pooled, b, i);
      TotalUpdate(counts, b, counts[b] - 1);
      var head := UnlinkNode(heads[b], prev, c, was[b], i);
      assert forall b' :: 0 <= b' < BUCKETS && b' != b ==> Linked(heads[b'], was[b']);
      heads := heads[b := head];
      lists := lists[b := Without(was[b], i)];
      counts := counts[b := counts[b] - 1];
      totalIdle := totalIdle - 1;
      pooled := pooled - {c};
    }

    // evictExpired: the first of the bucket that has been idle for too long, closed.
    method EvictExpired(b: nat, now: nat) returns (ghost evicted: set<CorRestClientConn>)
      requires Valid() && b < BUCKETS
      modifies this, pooled`next
      ensures Valid() && evicted == old(Evicted(lists[b], now, idleTimeoutSec)) && evicted <= old(pooled)
      ensures lists == old(lists)[b := old(Kept(lists[b], now, idleTimeoutSec))]
      ensures pooled == old(pooled) - evicted && closed == old(closed) + evicted && leaked == old(leaked)
    {
      hide Hash, Expired, Total, Without, Counted, Sorted, AllLinked, Linked;
      evicted := {};
      HeadOf(b);
      ghost var i := 0;
      var prev: CorRestClientConn?, c := null, heads[b];
      while c != null
        invariant Valid() && unchanged(this) && evicted == {}
        invariant 0 <= i <= |lists[b]| && c == if i < |lists[b]| then lists[b][i] else null
        invariant prev == if i > 0 then lists[b][i - 1] else null
        invariant forall k :: 0 <= k < i ==> !Expired(lists[b][k].lastUsed, now, idleTimeoutSec)
        decreases |lists[b]| - i
      {
        if Expired(c.lastUsed, now, idleTimeoutSec) {
          assert FirstExpired(lists[b], now, idleTimeoutSec) == i;
          Unlink(b, prev, c, i);
          closed, evicted := closed + {c}, {c};
          return;
        }
        NextOf(b, i);
        prev, c, i := c, c.next, i + 1;
      }
      assert FirstExpired(lists[b], now, idleTimeoutSec) == i;
    }

    lemma HeadOf(b: nat)
      requires Valid() && b < BUCKETS
      ensures |lists| == |heads| == BUCKETS && heads[b] == if lists[b] == [] then null else lists[b][0]
    {
    }

    lemma NextOf(b: nat, i: nat)
      requires Valid() && b < BUCKETS && i < |lists[b]|
      ensures lists[b][i].next == if i + 1 < |lists[b]| then lists[b][i + 1] else null
    {
    }

    // The first connection of the bucket that matches, and the one in front of it.
    method Find(b: nat, host: seq<Byte>, port: nat, tls: bool)
      returns (prev: CorRestClientConn?, c: CorRestClientConn?, ghost i: nat)
      requires Valid() && b == Hash(host, port, tls)
      ensures |lists| == BUCKETS && i <= |lists[b]| && c == (if i < |lists[b]| then lists[b][i] else null)
      ensures prev == if i > 0 then lists[b][i - 1] else null
      ensures c == FirstFor(lists[b], host, port, tls) && (c != null ==> c.Matches(host, port, tls) && c in pooled)
      ensures c == null ==> forall d <- pooled :: !d.Matches(host, port, tls)
    {
      HeadOf(b);
      prev, c, i := null, heads[b], 0;
      while c != null && !c.Matches(host, port, tls)
        invariant 0 <= i <= |lists[b]| && c == if i < |lists[b]| then lists[b][i] else null
        invariant prev == if i > 0 then lists[b][i - 1] else null
        invariant forall k :: 0 <= k < i ==> !lists[b][k].Matches(host, port, tls)
        decreases |lists[b]| - i
      {
        NextOf(b, i);
        prev, c, i := c, c.next, i + 1;
      }
      assert FirstIndex(lists[b], (c: CorRestClientConn) => c.Matches(host, port, tls)) == i;
    }

    // The one a Get at this time comes to: the first for this host, port and TLS that the
    // eviction leaves.
    ghost function Candidate(host: seq<Byte>, port: nat, tls: bool, now: nat): CorRestClientConn?
      requires Valid()
      reads this, pooled
    {
      var list := lists[Hash(host, port, tls)];
      FirstFor(Kept(list, now, idleTimeoutSec), host, port, tls)
    }

    // corRestClientPoolGet. alive: what a look at the socket says of a connection. A dead
    // one is closed, and of a TLS one the session is left open.
    method Get(host: seq<Byte>, port: nat, tls: bool, now: nat, alive: bool)
      returns (conn: CorRestClientConn?, ghost dropped: set<CorRestClientConn>, ghost candidate: CorRestClientConn?)
      requires Valid()
      modifies this, pooled`next
      ensures Valid() && candidate == old(Candidate(host, port, tls, now))
      ensures conn == if alive then candidate else null
      ensures conn != null ==> conn.Matches(host, port, tls) && conn !in pooled && conn !in closed && conn.next == null
      ensures dropped == old(Evicted(lists[Hash(host, port, tls)], now, idleTimeoutSec)) +
                         if candidate != null && !alive then {candidate} else {}
      ensures closed == old(closed) + dropped && dropped <= old(pooled)
      ensures old(pooled) == pooled + dropped + if conn == null then {} else {conn}
      ensures leaked == old(leaked) + if candidate != null && !alive && candidate.ssl then {candidate} else {}
      ensures conn != null ==> conn.host == host && conn.port == port && conn.tls == tls
      ensures candidate == null ==> forall c <- pooled :: c.host != host || c.port != port || c.tls != tls
    {
      hide Hash, Expired, Total, Without, Counted, Sorted, AllLinked, FirstFor, Kept, Evicted;
      var b := BucketHash(host, port, tls);
      HeadOf(b);
      dropped := EvictExpired(b, now);
      var prev, c, i := Find(b, host, port, tls);
      candidate := c;
      if c == null {
        return null, dropped, candidate;
      }
      Unlink(b, prev, c, i);
      if !alive {
        closed, dropped := closed + {c}, dropped + {c};
        if c.ssl {
          leaked := leaked + {c};
        }
        return null, dropped, candidate;
      }
      return c, dropped, candidate;
    }

    // A connection put back stays: its descriptor is good and its bucket is not full.
    ghost predicate Takes(conn: CorRestClientConn)
      requires Counted()
      reads this, conn
    {
      conn.fd >= 0 && counts[conn.Bucket()] < maxIdlePerHost
    }

    // At the front of its bucket.
    method Push(conn: CorRestClientConn, now: nat, b: nat)
      requires Valid() && conn !in pooled && conn !in closed && b == conn.Bucket() && b < BUCKETS
      requires Takes(conn)
      modifies this, conn`bufLen, conn`lastUsed, conn`next
      ensures Valid() && leaked == old(leaked) && closed == old(closed) && pooled == old(pooled) + {conn}
      ensures lists == old(lists)[b := [conn] + old(lists)[b]] && counts == old(counts)[b := old(counts)[b] + 1]
      ensures totalIdle == old(totalIdle) + 1 && conn.lastUsed == now && conn.bufLen == 0
    {
      hide Hash, Total, Linked, Sorted, Distinct;
      Others(lists, pooled, b);
      SortedWith(lists, pooled, conn);
      TotalUpdate(counts, b, counts[b] + 1);
      conn.bufLen, conn.lastUsed := 0, now;
      PushNode(heads[b], conn, lists[b]);
      assert forall b' :: 0 <= b' < BUCKETS && b' != b ==> Linked(heads[b'], lists[b']);
      heads := heads[b := conn];
      lists := lists[b := [conn] + lists[b]];
      counts := counts[b := counts[b] + 1];
      totalIdle := totalIdle + 1;
      pooled := pooled + {conn};
    }

    // corRestClientPoolPut: to the front of its bucket, or closed when that is full.
    method Put(conn: CorRestClientConn, now: nat)
      requires Valid() && conn !in pooled && conn !in closed
      modifies this, conn`bufLen, conn`lastUsed, conn`next
      ensures Valid() && leaked == old(leaked)
      ensures old(Takes(conn)) ==>
                && pooled == old(pooled) + {conn} && closed == old(closed)
                && lists == old(lists)[conn.Bucket() := [conn] + old(lists)[conn.Bucket()]]
                && counts == old(counts)[conn.Bucket() := old(counts)[conn.Bucket()] + 1]
                && totalIdle == old(totalIdle) + 1 && conn.lastUsed == now && conn.bufLen == 0
      ensures conn in pooled <==> old(conn.fd) >= 0 && |old(lists)[conn.Bucket()]| < maxIdlePerHost
      ensures !old(Takes(conn)) ==>
                && pooled == old(pooled) && closed == old(closed) + {conn}
                && lists == old(lists) && counts == old(counts) && totalIdle == old(totalIdle)
    {
      hide Hash, Total, Linked, Sorted, Distinct;
      if conn.fd < 0 {
        closed := closed + {conn};
        return;
      }
      var b := BucketHash(conn.host, conn.port, conn.tls);
      if counts[b] >= maxIdlePerHost {
        closed := closed + {conn};
        return;
      }
      Push(conn, now, b);
    }
  }

  // ---------------------------------------------------------------------------
  // Where the pool does what its names do not say

  // A connection is put back at `late`, and then a Get comes that read the clock at `now`:
  // it closes a live connection exactly when the word arithmetic says so; and when it read
  // the clock before the connection was put back, one that was idle for no time at all.
  method PutAfterTheClock(pool: CorRestClientPool, conn: CorRestClientConn, late: nat, now: nat, alive: bool)
    returns (got: CorRestClientConn?)
    requires pool.Valid() && conn !in pool.pooled && conn !in pool.closed && pool.Takes(conn)
    requires 0 <= pool.idleTimeoutSec < SECS_MAX && now < WORD64 && late < WORD64
    modifies pool, conn, pool.pooled
    ensures pool.Valid()
    ensures conn in pool.closed <==> Expired(late, now, pool.idleTimeoutSec) || !alive
    ensures conn !in pool.closed ==> got == conn
    ensures now < late && late - now < WORD64 - pool.idleTimeoutSec * 1000 ==>
              conn in pool.closed && !ReallyIdle(late, now, pool.idleTimeoutSec)
  {
    hide Hash, Expired, Evicted, Kept, FirstFor, Sorted, CorRestClientPool.AllLinked, Linked, Distinct;
    pool.Put(conn, late);
    ghost var list := pool.lists[conn.Bucket()];
    ExpiredExactly(late, now, pool.idleTimeoutSec);
    EvictsTheFirst(list, now, pool.idleTimeoutSec);
    ListsAreDistinct(pool.lists, pool.pooled, conn.Bucket());
    if !Expired(late, now, pool.idleTimeoutSec) {
      KeepsTheFirst(list, now, pool.idleTimeoutSec);
    }
    ghost var dropped, candidate;
    got, dropped, candidate := pool.Get(conn.host, conn.port, conn.tls, now, alive);
  }

  lemma ListsAreDistinct(lists: seq<seq<CorRestClientConn>>, pooled: set<CorRestClientConn>, b: nat)
    requires Sorted(lists, pooled) && b < BUCKETS
    ensures Distinct(lists[b])
  {
  }

  // A TLS connection that is put back and found dead is closed, its TLS session is not.
  method DeadTlsLeaks() returns (pool: CorRestClientPool, conn: CorRestClientConn)
    ensures fresh(pool) && fresh(conn) && pool.Valid() && pool.closed == {conn} == pool.leaked
  {
    hide Hash;
    pool := new CorRestClientPool(1, 60);
    conn := new CorRestClientConn(HOST_A, 443, true, true, 7);
    pool.Put(conn, 0);
    var got, dropped, candidate := pool.Get(HOST_A, 443, true, 0, false);
  }

  // With a cap of one "per host", a host that has none idle has its connection closed.
  method OtherHostKeepsOut() returns (pool: CorRestClientPool, a: CorRestClientConn, b: CorRestClientConn)
    ensures fresh(pool) && fresh(a) && fresh(b) && pool.Valid() && pool.maxIdlePerHost == 1
    ensures a.host != b.host && pool.pooled == {a} && pool.closed == {b}
    ensures b.fd >= 0 && forall c <- pool.pooled :: !c.Matches(b.host, b.port, b.tls)
  {
    hide Hash;
    HostsShareABucket();
    pool := new CorRestClientPool(1, 60);
    a := new CorRestClientConn(HOST_A, 80, false, false, 7);
    b := new CorRestClientConn(HOST_B, 80, false, false, 8);
    pool.Put(a, 0);
    pool.Put(b, 0);
  }

  lemma WithoutMeans<T>(list: seq<T>, i: nat)
    requires i < |list| && Distinct(list)
    ensures Distinct(Without(list, i)) && |Without(list, i)| == |list| - 1
    ensures forall c :: c in Without(list, i) <==> c in list && c != list[i]
  {
    var w := Without(list, i);
    forall c | c in list && c != list[i] ensures c in w {
      var k :| 0 <= k < |list| && list[k] == c;
      assert w[if k < i then k else k - 1] == c;
    }
  }
}
