// Many requests at once (corRestClientMulti.c:334-549 and 606-1064): each entry connects,
// writes, reads and is done; a pooled connection that turns out dead is retried once on
// another; and every connection ends in the pool or closed.
module ClientMulti {
  import opened Base
  import opened HttpResponse
  import opened HttpMarks
  import opened MultiEntry
  import HttpCutShort

  // ---------------------------------------------------------------------------
  // The connections' ledger: which were given to the pool, and which closed

  datatype Ledger = Ledger(acquired: nat, pooled: set<int>, closed: set<int>)

  predicate HeldBy(es: seq<Entry>, i: int, id: int) {
    0 <= i < |es| && es[i].conn.Some? && es[i].conn.value.id == id
  }

  // Every connection obtained is held by one entry, in the pool, or closed - one of them,
  // once.
  ghost predicate Accounted(es: seq<Entry>, l: Ledger) {
    && l.pooled !! l.closed
    && (forall id <- l.pooled + l.closed :: 0 <= id < l.acquired)
    && (forall i, id :: HeldBy(es, i, id) ==> 0 <= id < l.acquired && id !in l.pooled && id !in l.closed)
    && (forall i, j, id :: HeldBy(es, i, id) && HeldBy(es, j, id) ==> i == j)
    && (forall id :: 0 <= id < l.acquired && id !in l.pooled && id !in l.closed ==> exists i :: HeldBy(es, i, id))
  }

  lemma StillHeld(es: seq<Entry>, es': seq<Entry>, acquired: nat, gone: set<int>)
    requires forall id :: 0 <= id < acquired && id !in gone ==> exists i :: HeldBy(es, i, id)
    requires forall i, id :: HeldBy(es, i, id) && id !in gone ==> HeldBy(es', i, id)
    ensures forall id :: 0 <= id < acquired && id !in gone ==> exists i :: HeldBy(es', i, id)
  {
    forall id | 0 <= id < acquired && id !in gone ensures exists i :: HeldBy(es', i, id) {
      var i :| HeldBy(es, i, id);
      assert HeldBy(es', i, id);
    }
  }

  // An entry that keeps its connection, or keeps none.
  lemma SameConn(es: seq<Entry>, l: Ledger, i: nat, e: Entry)
    requires Accounted(es, l) && i < |es|
    requires e.conn.Some? <==> es[i].conn.Some?
    requires e.conn.Some? ==> e.conn.value.id == es[i].conn.value.id
    ensures Accounted(es[i := e], l)
  {
    var es' := es[i := e];
    assert forall k, id :: HeldBy(es', k, id) ==> HeldBy(es, k, id);
    StillHeld(es, es', l.acquired, l.pooled + l.closed);
  }

  // An entry without one gets the next.
  lemma NewConn(es: seq<Entry>, l: Ledger, i: nat, e: Entry)
    requires Accounted(es, l) && i < |es| && es[i].conn.None? && e.conn.Some? && e.conn.value.id == l.acquired
    ensures Accounted(es[i := e], l.(acquired := l.acquired + 1))
  {
    var es' := es[i := e];
    assert forall k, id :: HeldBy(es', k, id) ==> HeldBy(es, k, id) || (k == i && id == l.acquired);
    assert HeldBy(es', i, l.acquired);
    StillHeld(es, es', l.acquired, l.pooled + l.closed);
  }

  // An entry gives its connection up, to the pool or closed.
  lemma LoseConn(es: seq<Entry>, l: Ledger, i: nat, e: Entry, toPool: bool)
    requires Accounted(es, l) && i < |es| && es[i].conn.Some? && e.conn.None?
    ensures var id := es[i].conn.value.id;
            Accounted(es[i := e], if toPool then l.(pooled := l.pooled + {id}) else l.(closed := l.closed + {id}))
  {
    var x := es[i].conn.value.id;
    assert HeldBy(es, i, x);
    var es' := es[i := e];
    assert forall k, id :: HeldBy(es', k, id) ==> HeldBy(es, k, id) && k != i;
    StillHeld(es, es', l.acquired, l.pooled + l.closed + {x});
  }

  // One that came and was closed without an entry.
  lemma PassedThrough(es: seq<Entry>, l: Ledger)
    requires Accounted(es, l)
    ensures Accounted(es, l.(acquired := l.acquired + 1, closed := l.closed + {l.acquired}))
  {
    assert forall i :: !HeldBy(es, i, l.acquired);
  }

  // ---------------------------------------------------------------------------
  // The engine

  class CorRestClientMulti {
    var entries: seq<Entry>
    var done: nat
    var ledger: Ledger
    var maxResponseBytes: nat
    ghost var history: seq<Snapshot>

    // All but, for a moment, entry i.
    ghost predicate ValidBut(i: int)
      reads this
    {
      && done == CountDone(entries) && Accounted(entries, ledger)
      && forall k :: 0 <= k < |entries| && k != i ==> EntryOk(entries[k])
    }

    ghost predicate Valid()
      reads this
    {
      ValidBut(-1)
    }

    // Valid, and the history is up to here.
    ghost predicate Recorded()
      reads this
    {
      Valid() && history != [] && IsRun(history) && history[|history| - 1] == Snapshot(entries, done, ledger.acquired)
    }

    constructor ()
      ensures Valid() && entries == [] && done == 0 && ledger == Ledger(0, {}, {}) && maxResponseBytes == 0
    {
      entries, done, ledger, maxResponseBytes := [], 0, Ledger(0, {}, {}), 0;
      history := [];
    }

    // corRestClientMultiMaxResponse
    method MaxResponse(maxBytes: int)
      modifies this`maxResponseBytes
      ensures maxResponseBytes == if maxBytes > 0 then maxBytes else 0
    {
      maxResponseBytes := if maxBytes > 0 then maxBytes else 0;
    }

    // corRestClientMultiAdd
    method Add() returns (idx: nat)
      requires Valid()
      modifies this`entries
      ensures Valid() && idx == |old(entries)|
      ensures entries == old(entries) + [Entry(Init, None, 0, 0, NoError, false, false, None)]
    {
      ghost var before := entries;
      idx := |entries|;
      entries := entries + [Entry(Init, None, 0, 0, NoError, false, false, None)];
      CountSnoc(before, entries[idx]);
      assert forall k, id :: HeldBy(entries, k, id) <==> HeldBy(before, k, id);
      StillHeld(before, entries, ledger.acquired, ledger.pooled + ledger.closed);
    }

    // An entry's new contents, its connection the one it had, and its state not Done.
    method Set(i: nat, e: Entry)
      requires ValidBut(i) && i < |entries| && entries[i].state != Done && e.state != Done
      requires e.conn.Some? <==> entries[i].conn.Some?
      requires e.conn.Some? ==> e.conn.value.id == entries[i].conn.value.id
      modifies this`entries
      ensures ValidBut(i) && entries == old(entries)[i := e] && (EntryOk(e) ==> Valid())
    {
      hide Accounted, EntryOk, CountDone;
      CountUpdate(entries, i, e);
      SameConn(entries, ledger, i, e);
      entries := entries[i := e];
    }

    // The end of an entry, with an error.
    method Fail(i: nat, error: Error)
      requires ValidBut(i) && i < |entries| && entries[i].state != Done && EntryOk(Failing(entries[i], error))
      modifies this`entries, this`done
      ensures Valid() && entries == old(entries)[i := Failing(old(entries)[i], error)]
    {
      hide Accounted, CountDone, EntryOk;
      Finish(i, Failing(entries[i], error));
    }

    // The end of an entry, with a response.
    method Answer(i: nat, resp: Parsed)
      requires ValidBut(i) && i < |entries| && entries[i].state != Done && entries[i].conn.Some? && resp.Response?
      requires EntryOk(Answering(entries[i], resp))
      modifies this`entries, this`done
      ensures Valid() && entries == old(entries)[i := Answering(old(entries)[i], resp)]
    {
      hide Accounted, CountDone, EntryOk;
      Finish(i, Answering(entries[i], resp));
    }

    method Finish(i: nat, e: Entry)
      requires ValidBut(i) && i < |entries| && entries[i].state != Done && e.state == Done && EntryOk(e)
      requires e.conn.Some? <==> entries[i].conn.Some?
      requires e.conn.Some? ==> e.conn.value.id == entries[i].conn.value.id
      modifies this`entries, this`done
      ensures Valid() && entries == old(entries)[i := e]
    {
      hide Accounted, CountDone, EntryOk;
      CountUpdate(entries, i, e);
      SameConn(entries, ledger, i, e);
      entries, done := entries[i := e], done + 1;
    }

    // An entry and the connection it gets.
    method Obtain(i: nat, e: Entry)
      requires ValidBut(i) && i < |entries| && entries[i].state != Done && e.state != Done && EntryOk(e)
      requires entries[i].conn.None? && e.conn.Some? && e.conn.value.id == ledger.acquired
      modifies this`entries, this`ledger
      ensures Valid() && entries == old(entries)[i := e]
      ensures ledger == old(ledger).(acquired := old(ledger).acquired + 1)
    {
      hide Accounted, CountDone, EntryOk;
      CountUpdate(entries, i, e);
      NewConn(entries, ledger, i, e);
      entries := entries[i := e];
      ledger := ledger.(acquired := ledger.acquired + 1);
    }

    // startConnect, for an entry that has no connection.
    method StartConnect(i: nat, src: Source) returns (ok: bool)
      requires ValidBut(i) && i < |entries| && entries[i].state != Done && entries[i].conn.None?
      requires entries[i].sendPos == 0 && entries[i].error == NoError && entries[i].resp.None?
      modifies this`entries, this`ledger
      ensures ledger.pooled == old(ledger.pooled) && old(ledger.closed) <= ledger.closed
      ensures ledger.acquired == old(ledger.acquired) + Acquires(src) && ok == Obtains(src)
      ensures !ok ==> ValidBut(i) && entries == old(entries)
      ensures ok ==> Valid() && entries == old(entries)[i := Entered(old(entries)[i], src, ledger.acquired - 1)]
    {
      hide Accounted, CountDone, Said, RunsAway, Check;
      var e := entries[i];
      if src.FromPool? {
        var conn := Conn(ledger.acquired, src.keepAlive, [], 0, 0);
        Obtain(i, e.(conn := Some(conn), state := Writing, fromPool := true));
        return true;
      }
      if src.deadFirst {
        PassedThrough(entries, ledger);
        ledger := ledger.(acquired := ledger.acquired + 1, closed := ledger.closed + {ledger.acquired});
      }
      match src.outcome {
        case Fails =>
          return false;
        case Connected =>
          Obtain(i, e.(state := Writing, conn := Some(Conn(ledger.acquired, true, [], 0, 0))));
        case InProgress(addresses) =>
          Obtain(i, e.(state := Connecting, conn := Some(Conn(ledger.acquired, true, [], 0, addresses))));
      }
      return true;
    }

    // One turn of the loop that starts the entries.
    method StartOne(i: nat, o: Opening)
      requires Valid() && i < |entries| && entries[i].state == Init && entries[i].sendPos == 0 && ledger.pooled == {}
      modifies this`entries, this`done, this`ledger
      ensures Valid() && ledger.pooled == {}
      ensures var t := AfterOpening(old(entries)[i], o, old(ledger.acquired));
              entries == old(entries)[i := t.entry] && ledger.acquired == t.acquired
    {
      hide Accounted, CountDone, Said, RunsAway, Check;
      assert EntryOk(entries[i]);
      match o
      case BadUrl => Fail(i, Url);
      case NoSendBuf => Fail(i, Alloc);
      case Opening(sendLen, connect) =>
        Set(i, entries[i].(sendLen := sendLen));
        var ok := StartConnect(i, connect);
        if !ok {
          Fail(i, Connect);
        }
    }

    // Its connection is one of those obtained.
    lemma ItsConnection(i: nat)
      requires Valid() && i < |entries|
      ensures EntryOk(entries[i]) && (entries[i].conn.Some? ==> entries[i].conn.value.id < ledger.acquired)
    {
      hide CountDone, EntryOk;
      if entries[i].conn.Some? {
        assert HeldBy(entries, i, entries[i].conn.value.id);
      }
    }

    // A pooled connection that failed: closed, and another tried, this once.
    method Retry(i: nat, src: Source)
      requires Valid() && i < |entries| && (entries[i].state == Writing || entries[i].state == Reading)
      requires MayRetry(entries[i]) && ledger.pooled == {}
      modifies this`entries, this`done, this`ledger
      ensures Valid() && ledger.pooled == {}
      ensures var t := Retrying(old(entries)[i], src, old(ledger.acquired));
              entries == old(entries)[i := t.entry] && ledger.acquired == t.acquired
      ensures old(entries)[i].conn.Some? && old(entries)[i].conn.value.id in ledger.closed
    {
      hide Accounted, CountDone, Said, RunsAway, Check;
      assert EntryOk(entries[i]);
      Drop(i, entries[i].(conn := None, fromPool := false, retried := true, sendPos := 0));
      var ok := StartConnect(i, src);
      if !ok {
        Fail(i, Connect);
      }
    }

    // An entry without its connection, which is closed.
    method Drop(i: nat, e: Entry)
      requires ValidBut(i) && i < |entries| && entries[i].state != Done && e.state != Done
      requires entries[i].conn.Some? && e.conn.None?
      modifies this`entries, this`ledger
      ensures ValidBut(i) && entries == old(entries)[i := e]
      ensures ledger == old(ledger).(closed := old(ledger).closed + {old(entries)[i].conn.value.id})
    {
      hide Accounted, CountDone, EntryOk;
      CountUpdate(entries, i, e);
      LoseConn(entries, ledger, i, e, false);
      ledger := ledger.(closed := ledger.closed + {entries[i].conn.value.id});
      entries := entries[i := e];
    }

    // case CorrStateConnecting
    method OnConnecting(i: nat, connected: bool, addressesLeft: nat)
      requires Valid() && i < |entries| && entries[i].state == Connecting
      modifies this`entries, this`done
      ensures Valid() && Sound(old(entries)[i]) && old(entries)[i].sendPos == 0
      ensures entries == old(entries)[i := AfterConnecting(old(entries)[i], connected, addressesLeft)]
    {
      hide Accounted, CountDone, EntryOk;
      var e := entries[i];
      assert EntryOk(e);
      OkIsSound(e);
      ConnectingKeeps(e, connected, addressesLeft);
      var c := e.conn.value;
      if connected {
        Set(i, e.(state := Writing, conn := Some(c.(addresses := 0))));
      } else if addressesLeft < c.addresses {
        Set(i, e.(conn := Some(c.(addresses := addressesLeft))));
      } else {
        Fail(i, Connect);
      }
    }

    // case CorrStateWriting
    method OnWriting(i: nat, w: WriteResult)
      requires Valid() && i < |entries| && entries[i].state == Writing && ledger.pooled == {}
      modifies this`entries, this`done, this`ledger
      ensures Valid() && ledger.pooled == {} && Sound(old(entries)[i])
      ensures var t := AfterWriting(old(entries)[i], w, old(ledger.acquired));
              entries == old(entries)[i := t.entry] && ledger.acquired == t.acquired
    {
      hide Accounted, CountDone, EntryOk, Retrying;
      var e := entries[i];
      ItsConnection(i);
      WritingKeeps(e, w, ledger.acquired);
      match w
      case WriteAgain =>
      case WriteFailed(src) =>
        if e.fromPool && !e.retried {
          Retry(i, src);
        } else {
          Fail(i, Send);
        }
      case Wrote(m) =>
        var remaining := e.sendLen - e.sendPos;
        var n := if m < remaining then m else remaining;
        var c := e.conn.value.(sent := e.conn.value.sent + n);
        if e.sendPos + n >= e.sendLen {
          Set(i, e.(sendPos := e.sendPos + n, state := Reading, conn := Some(c.(buf := []))));
        } else {
          Set(i, e.(sendPos := e.sendPos + n, conn := Some(c)));
        }
    }

    // The end of the connection while reading.
    method OnEnded(i: nat, r: ReadResult)
      requires Valid() && i < |entries| && entries[i].state == Reading && ledger.pooled == {} && r.Over?
      modifies this`entries, this`done, this`ledger
      ensures Valid() && ledger.pooled == {} && old(entries)[i].conn.Some?
      ensures var t := AfterEnd(old(entries)[i], r, old(ledger.acquired));
              entries == old(entries)[i := t.entry] && ledger.acquired == t.acquired
      ensures Parse(old(entries)[i].conn.value.buf) != NotDefined
    {
      hide Accounted, CountDone, EntryOk, Parse, Left, Retrying;
      var e := entries[i];
      ItsConnection(i);
      EndKeeps(e, r, ledger.acquired);
      var buf := e.conn.value.buf;
      if buf != [] && Parses(buf, r.noMemory) {
        Answer(i, Parse(buf));
      } else if e.fromPool && !e.retried && buf == [] {
        Retry(i, r.retry);
      } else if r.byPeer && buf != [] && Parse(Left(buf, r.residue)).NotDefined? {
        Fail(i, Undefined);
      } else if r.byPeer && buf != [] && Parses(Left(buf, r.residue), r.noMemoryAgain) {
        Answer(i, Parse(Left(buf, r.residue)));
      } else {
        Fail(i, if r.byPeer then Closed else Recv);
      }
    }

    // Bytes read: the cap, the check and, for a whole response, the parser; more: there is
    // another read to do.
    method OnBytes(i: nat, r: ReadResult) returns (more: bool)
      requires Valid() && i < |entries| && entries[i].state == Reading && r.Got?
      modifies this`entries, this`done
      ensures Valid() && Sound(old(entries)[i])
      ensures entries == old(entries)[i := AfterBytes(old(entries)[i], r, maxResponseBytes)]
      ensures more == ReadsOn(entries[i], r)
      ensures var buf := old(entries)[i].conn.value.buf + r.bytes; Check(buf) == 0 ==> Parse(buf) != NotDefined
    {
      hide Accounted, CountDone, EntryOk, Parse, Check, PassesCap;
      var e := entries[i];
      assert EntryOk(e);
      BytesKeep(e, r, maxResponseBytes);
      var buf := e.conn.value.buf + r.bytes;
      Set(i, e.(conn := Some(e.conn.value.(buf := buf))));
      more := false;
      if PassesCap(buf, maxResponseBytes) {
        Fail(i, TooLarge);
      } else if Check(buf) == 0 {
        if Parses(buf, r.noMemory) {
          Answer(i, Parse(buf));
        } else {
          Fail(i, if Parse(buf).Response? then Alloc else Malformed);
        }
      } else if Check(buf) < 0 {
        Fail(i, Malformed);
      } else {
        more := r.tlsHoldsMore;
      }
    }

    // One read of the case CorrStateReading; more: there is another to do.
    method ReadOnce(i: nat, r: ReadResult) returns (more: bool)
      requires Valid() && i < |entries| && entries[i].state == Reading && ledger.pooled == {}
      modifies this`entries, this`done, this`ledger
      ensures Valid() && ledger.pooled == {} && Sound(old(entries)[i])
      ensures var t := AfterRead(old(entries)[i], r, maxResponseBytes, old(ledger.acquired));
              entries == old(entries)[i := t.entry] && ledger.acquired == t.acquired
      ensures more == ReadsOn(entries[i], r)
    {
      hide Accounted, CountDone, EntryOk, AfterEnd, AfterBytes;
      assert EntryOk(entries[i]);
      OkIsSound(entries[i]);
      ReadingMayFail(entries[i]);
      more := false;
      match r
      case NoRoom => Fail(i, Alloc);
      case ReadAgain =>
      case Over(_, _, _, _, _) => OnEnded(i, r);
      case Got(_, _, _) => more := OnBytes(i, r);
    }

    // case CorrStateReading
    method OnReading(i: nat, parts: seq<ReadResult>)
      requires Valid() && i < |entries| && entries[i].state == Reading && ledger.pooled == {}
      modifies this`entries, this`done, this`ledger
      ensures Valid() && ledger.pooled == {} && Sound(old(entries)[i])
      ensures var t := AfterReads(old(entries)[i], parts, maxResponseBytes, old(ledger.acquired));
              entries == old(entries)[i := t.entry] && ledger.acquired == t.acquired
    {
      hide Accounted, CountDone, EntryOk, AfterRead;
      var k, more := 0, true;
      assert EntryOk(entries[i]);
      OkIsSound(entries[i]);
      ghost var all := AfterReads(entries[i], parts, maxResponseBytes, ledger.acquired);
      assert parts[0..] == parts;
      while more && k < |parts|
        invariant k <= |parts| && |entries| == |old(entries)| && entries == old(entries)[i := entries[i]]
        invariant Valid() && ledger.pooled == {}
        invariant more ==> entries[i].state == Reading && Sound(entries[i])
        invariant all == if more then AfterReads(entries[i], parts[k..], maxResponseBytes, ledger.acquired)
                         else Turn(entries[i], ledger.acquired)
      {
        assert parts[k..][0] == parts[k] && parts[k..][1..] == parts[k + 1..];
        more := ReadOnce(i, parts[k]);
        k := k + 1;
      }
    }

    // One event.
    method OnEvent(ev: Event)
      requires Valid() && ev.idx < |entries| && ledger.pooled == {}
      requires entries[ev.idx].state != Init
      modifies this`entries, this`done, this`ledger
      ensures Valid() && ledger.pooled == {}
      ensures var e := old(entries)[ev.idx]; Sound(e) && (e.state == Connecting ==> e.sendPos == 0)
      ensures var t := AfterEvent(old(entries)[ev.idx], ev, maxResponseBytes, old(ledger.acquired));
              entries == old(entries)[ev.idx := t.entry] && ledger.acquired == t.acquired
    {
      hide Accounted, CountDone, EntryOk, AfterConnecting, AfterWriting, AfterReads;
      var i := ev.idx;
      assert EntryOk(entries[i]);
      OkIsSound(entries[i]);
      match entries[i].state
      case Connecting => OnConnecting(i, ev.connected, ev.addressesLeft);
      case Writing => OnWriting(i, ev.write);
      case Reading => OnReading(i, ev.parts);
      case Done =>
      case Init =>
    }

    // The history, up to here.
    ghost method Record(i: nat)
      requires history != [] && IsRun(history) && Valid()
      requires var before := history[|history| - 1].entries;
               |before| == |entries| && i < |entries| && entries == before[i := entries[i]]
                   && Moves(before[i], entries[i])
      modifies this`history
      ensures Recorded() && history == old(history) + [Snapshot(entries, done, ledger.acquired)]
    {
      hide CountDone, Moves, IsRun, Accounted, EntryOk;
      ghost var before := history[|history| - 1].entries;
      OneMoved(before, entries, i);
      RunOn(history, Snapshot(entries, done, ledger.acquired));
      history := history + [Snapshot(entries, done, ledger.acquired)];
    }

    // The deadline, or no wait to be had: every entry still open ends.
    method EndAll(error: Error)
      requires Recorded() && error != NoError && error != Undefined && forall e <- entries :: e.state != Init
      modifies this`entries, this`done, this`history
      ensures Recorded() && old(history) <= history && forall e <- entries :: e.state == Done
      ensures |entries| == |old(entries)|
      ensures entries == EndedWith(old(entries), error)
      ensures (forall e <- old(entries) :: e.error != Undefined) ==> forall e <- entries :: e.error != Undefined
    {
      hide Accounted, CountDone, EntryOk, IsRun;
      for i := 0 to |entries|
        invariant Recorded() && old(history) <= history && |entries| == |old(entries)|
        invariant forall k :: 0 <= k < i ==>
                    entries[k] == if old(entries)[k].state == Done then old(entries)[k]
                        else old(entries)[k].(state := Done, error := error)
        invariant forall k :: i <= k < |entries| ==> entries[k] == old(entries)[k]
      {
        assert entries[i] in old(entries);
        if entries[i].state != Done {
          OpenMayFail(entries[i], error);
          Fail(i, error);
          Record(i);
        }
      }
    }

    // The connection of an entry that is done: to the pool, or closed.
    method LetGo(i: nat) returns (toPool: bool)
      requires done == CountDone(entries) && Accounted(entries, ledger)
      requires i < |entries| && entries[i].conn.Some?
      modifies this`entries, this`ledger
      ensures done == CountDone(entries) && Accounted(entries, ledger)
      ensures entries == old(entries)[i := old(entries)[i].(conn := None)]
      ensures toPool == (old(entries)[i].error == NoError && old(entries)[i].conn.value.keepAlive)
      ensures var id := old(entries)[i].conn.value.id;
              ledger == if toPool then old(ledger).(pooled := old(ledger).pooled + {id})
                        else old(ledger).(closed := old(ledger).closed + {id})
    {
      hide Accounted, CountDone;
      var e := entries[i];
      var c := e.conn.value;
      toPool := e.error == NoError && c.keepAlive;
      CountUpdate(entries, i, e.(conn := None));
      LoseConn(entries, ledger, i, e.(conn := None), toPool);
      ledger := if toPool then ledger.(pooled := ledger.pooled + {c.id}) else ledger.(closed := ledger.closed + {c.id});
      entries := entries[i := e.(conn := None)];
    }

    // The last loop of corRestClientMultiPerform: only what answered well, and stays open,
    // goes to the pool.
    method Cleanup()
      requires Valid() && ledger.pooled == {} && forall e <- entries :: e.state == Done
      modifies this`entries, this`ledger
      ensures Accounted(entries, ledger) && |entries| == |old(entries)|
      ensures forall k :: 0 <= k < |entries| ==> entries[k] == old(entries)[k].(conn := None)
      ensures forall id :: id in ledger.pooled <==> exists k :: PoolsIt(old(entries), k, id)
      ensures ledger.acquired == old(ledger.acquired)
    {
      hide Accounted, CountDone, EntryOk;
      for i := 0 to |entries|
        invariant done == CountDone(entries) && Accounted(entries, ledger)
        invariant |entries| == |old(entries)| && ledger.acquired == old(ledger.acquired)
        invariant forall k :: 0 <= k < i ==> entries[k] == old(entries)[k].(conn := None)
        invariant forall k :: i <= k < |entries| ==> entries[k] == old(entries)[k]
        invariant forall id <- ledger.pooled :: exists k :: PoolsIt(old(entries), k, id)
        invariant forall k, id :: PoolsIt(old(entries), k, id) && k < i ==> id in ledger.pooled
      {
        if entries[i].conn.Some? {
          ghost var id := entries[i].conn.value.id;
          var toPool := LetGo(i);
          assert toPool <==> PoolsIt(old(entries), i, id);
        }
      }
    }

    // The loop that starts the entries.
    method Start(openings: seq<Opening>)
      requires Recorded() && |history| == 1 && ledger.pooled == {} && |openings| == |entries|
      requires forall e <- entries :: e.state == Init && e.sendPos == 0
      modifies this`entries, this`done, this`ledger, this`history
      ensures Recorded() && old(history) <= history && ledger.pooled == {} && |entries| == |old(entries)|
      ensures |history| == 1 + |openings| && AllOpened(history, openings)
      ensures forall e <- entries :: e.state != Init && e.error != Undefined
    {
      hide Accounted, CountDone, IsRun, EntryOk, AllOpened, AfterOpening, Moves;
      NoneOpened();
      for i := 0 to |entries|
        invariant Recorded() && old(history) <= history && |entries| == |old(entries)| && ledger.pooled == {}
        invariant |history| == 1 + i && AllOpened(history, openings[..i])
        invariant forall k :: 0 <= k < i ==> entries[k].state != Init && entries[k].error != Undefined
        invariant forall k :: i <= k < |entries| ==> entries[k] == old(entries)[k]
      {
        assert entries[i] in old(entries);
        assert EntryOk(entries[i]);
        OpeningKeeps(entries[i], openings[i], ledger.acquired);
        ghost var h := history;
        StartOne(i, openings[i]);
        Record(i);
        OneOpened(h, history, openings, i);
      }
      assert openings[..|openings|] == openings;
    }

    lemma NoneOpened()
      requires history != []
      ensures AllOpened(history, [])
    {
    }

    lemma OneOpened(h: seq<Snapshot>, h': seq<Snapshot>, openings: seq<Opening>, i: nat)
      requires i < |openings| && |h| == 1 + i && AllOpened(h, openings[..i]) && h <= h' && |h'| == |h| + 1
      requires OpeningAt(h', i, openings[i])
      ensures AllOpened(h', openings[..i + 1])
    {
      hide OpeningAt;
      OpenedStill(h, h', openings[..i]);
      forall k | 0 <= k < i + 1 ensures OpeningAt(h', k, openings[k]) {
        assert k < i ==> OpeningAt(h', k, openings[..i][k]);
      }
    }

    // The events of one round, up to one that leaves what C defines.
    method OnEvents(events: seq<Event>) returns (defined: bool, ghost handled: seq<Event>)
      requires Recorded() && ledger.pooled == {} && forall ev <- events :: ev.idx < |entries|
      requires forall e <- entries :: e.state != Init && e.error != Undefined
      modifies this`entries, this`done, this`ledger, this`history
      ensures Recorded() && old(history) <= history && ledger.pooled == {} && |entries| == |old(entries)|
      ensures forall e <- entries :: e.state != Init
      ensures defined <==> forall e <- entries :: e.error != Undefined
      ensures handled <= events && (defined ==> handled == events)
      ensures |history| == |old(history)| + |handled| && Handled(history, |old(history)| - 1, handled, maxResponseBytes)
      ensures !defined ==>
                handled != [] && entries[handled[|handled| - 1].idx].error == Undefined
    {
      hide Accounted, CountDone, EntryOk, IsRun, Moves, AfterEvent, Handled;
      handled := [];
      NoneHandled(history, |history| - 1, maxResponseBytes);
      for k := 0 to |events|
        invariant Recorded() && old(history) <= history && ledger.pooled == {} && |entries| == |old(entries)|
        invariant forall e <- entries :: e.state != Init && e.error != Undefined
        invariant |history| == |old(history)| + k && handled == events[..k]
        invariant Handled(history, |old(history)| - 1, handled, maxResponseBytes)
      {
        ghost var h := history;
        ItsConnection(events[k].idx);
        EventKeeps(entries[events[k].idx], events[k], maxResponseBytes, ledger.acquired);
        OnEvent(events[k]);
        Record(events[k].idx);
        OneHandled(h, history, |old(history)| - 1, handled, events[k], maxResponseBytes);
        handled := handled + [events[k]];
        if entries[events[k].idx].error == Undefined {
          return false, handled;
        }
      }
      return true, handled;
    }

    lemma Counted()
      requires Recorded()
      ensures done <= |entries| && (done == |entries| <==> forall e <- entries :: e.state == Done)
      ensures history != [] && history[|history| - 1].done == done && history[|history| - 1].entries == entries
    {
      hide Accounted, CountDone, EntryOk, IsRun;
      AllDone(entries);
    }

    // The event loop: rounds until every entry is done, or the deadline. When the trace is
    // over, the clock gets there.
    method Loop(rounds: seq<Round>) returns (defined: bool, turns: nat, ghost handled: seq<Event>)
      requires Recorded() && ledger.pooled == {}
      requires forall r <- rounds :: r.Ready? ==> forall ev <- r.events :: ev.idx < |entries|
      requires forall e <- entries :: e.state != Init && e.error != Undefined
      modifies this`entries, this`done, this`ledger, this`history
      ensures Recorded() && old(history) <= history && ledger.pooled == {} && |entries| == |old(entries)|
      ensures defined <==> forall e <- entries :: e.error != Undefined
      ensures defined ==> forall e <- entries :: e.state == Done
      ensures Ran(history, |old(history)| - 1, rounds, maxResponseBytes, turns, handled, entries, defined)
    {
      hide Accounted, CountDone, EntryOk, IsRun, Handled, Waited, Ran, EventsOf, EndedWith, Recorded;
      Counted();
      ghost var from := |history| - 1;
      turns, handled := 0, [];
      NoneHandled(history, from, maxResponseBytes);
      NoRoundYet(history, from, rounds, |entries|);
      while done < |entries|
        invariant turns <= |rounds|
        invariant Recorded() && old(history) <= history && ledger.pooled == {} && |entries| == |old(entries)|
        invariant forall e <- entries :: e.state != Init && e.error != Undefined
        invariant done == |entries| <==> forall e <- entries :: e.state == Done
        invariant done <= |entries| && history[|history| - 1].done == done && history[|history| - 1].entries == entries
        invariant handled == EventsOf(rounds[..turns]) && |history| == from + 1 + |handled|
        invariant Handled(history, from, handled, maxResponseBytes) && Waited(history, from, rounds, turns, |entries|)
        decreases |rounds| - turns, |entries| - done
      {
        ghost var h := history;
        if turns == |rounds| || rounds[turns].Deadline? {
          EndAll(Timeout);
          EndsOpen(h, history, from, rounds, maxResponseBytes, turns, handled, entries);
          return true, turns, handled;
        } else if rounds[turns].WaitFailed? {
          EndAll(Recv);
          EndsOpen(h, history, from, rounds, maxResponseBytes, turns, handled, entries);
          return true, turns, handled;
        }
        ghost var now;
        defined, now := OnEvents(rounds[turns].events);
        RoundHandled(h, history, from, rounds, maxResponseBytes, turns, handled, now, |entries|);
        handled := handled + now;
        Counted();
        if !defined {
          EndsUndefined(history, from, rounds, maxResponseBytes, turns, handled, entries);
          return;
        }
        turns := turns + 1;
      }
      EndsDone(history, from, rounds, maxResponseBytes, turns, handled, entries);
      return true, turns, handled;
    }

    // corRestClientMultiPerform. turns: how many rounds were seen to, to their end; handled: their
    // events; final: the entries as the loop leaves them, before their connections are let go.
    // Not defined: one entry's second parse is, at the end of the history, one that C leaves
    // open; nothing is said of what the program does then.
    method Perform(openings: seq<Opening>, rounds: seq<Round>)
      returns (n: nat, defined: bool, turns: nat, ghost handled: seq<Event>, ghost final: seq<Entry>)
      requires Valid() && ledger == Ledger(0, {}, {}) && |openings| == |entries|
      requires forall e <- entries :: e.state == Init && e.sendPos == 0
      requires forall r <- rounds :: r.Ready? ==> forall ev <- r.events :: ev.idx < |entries|
      modifies this`entries, this`done, this`ledger, this`history
      ensures |final| == |entries| == |old(entries)|
      ensures IsRun(history) && history[0] == Snapshot(old(entries), old(done), 0)
      ensures history[|history| - 1] == Snapshot(final, n, ledger.acquired)
      ensures AllOpened(history, openings)
      ensures Ran(history, |openings|, rounds, maxResponseBytes, turns, handled, final, defined)
      ensures forall i: nat, k: nat, m: nat :: DescendsAt(history, i, k) && DescendsAt(history, i, m) ==> k == m
      ensures forall e <- final :: EntryOk(e)
      ensures defined <==> forall e <- final :: e.error != Undefined
      ensures (forall e <- final :: e.conn.Some? ==> CrlfResponse(e.conn.value.buf)) ==> defined
      ensures defined ==>
                && n == |final| && (forall e <- final :: e.state == Done)
                && (forall k :: 0 <= k < |entries| ==> entries[k] == final[k].(conn := None))
                && ledger.pooled !! ledger.closed
                && (forall id :: id in ledger.pooled + ledger.closed <==> 0 <= id < ledger.acquired)
                && (forall id :: id in ledger.pooled <==> exists k :: PoolsIt(final, k, id))
    {
      hide Accounted, CountDone, EntryOk, IsRun, DescendsAt, CrlfResponse, Ran, AllOpened;
      history := [Snapshot(entries, done, 0)];
      NoStepYet(history[0]);
      Start(openings);
      ghost var h := history;
      defined, turns, handled := Loop(rounds);
      OpenedStill(h, history, openings);
      final := entries;
      n := done;
      forall i: nat, k: nat, m: nat | DescendsAt(history, i, k) && DescendsAt(history, i, m) ensures k == m {
        OneDescent(history, i, k, m);
      }
      GoodLinesAreDefined(final);
      if defined {
        AllDone(entries);
        Cleanup();
        NothingHeld(entries, ledger);
      }
    }
  }

  // The connection that entry k hands to the pool: its response is there, and lets it stay
  // open.
  predicate PoolsIt(es: seq<Entry>, k: int, id: int) {
    HeldBy(es, k, id) && es[k].error == NoError && es[k].conn.value.keepAlive
  }

  // Lines that end as they should lead to nothing that C leaves open.
  lemma GoodLinesAreDefined(es: seq<Entry>)
    requires forall e <- es :: EntryOk(e)
    ensures (forall e <- es :: e.conn.Some? ==> CrlfResponse(e.conn.value.buf)) ==>
            forall e <- es :: e.error != Undefined
  {
    hide CrlfResponse, Parse, Left, Check, Said;
    forall e <- es | e.error == Undefined ensures !CrlfResponse(e.conn.value.buf) {
      assert EntryOk(e);
      var buf := e.conn.value.buf;
      var residue :| Parse(Left(buf, residue)) == NotDefined;
      if CrlfResponse(buf) {
        SecondParse(buf, residue);
      }
    }
  }

  lemma NoStepYet(s: Snapshot)
    requires s.done == CountDone(s.entries)
    ensures IsRun([s])
  {
  }

  lemma OneMoved(es: seq<Entry>, es': seq<Entry>, i: nat)
    requires i < |es| == |es'| && es' == es[i := es'[i]] && Moves(es[i], es'[i])
    ensures OneMoves(es, es')
  {
    hide Moves;
  }

  lemma OpenMayFail(e: Entry, error: Error)
    requires EntryOk(e) && e.state != Done && e.state != Init && error != NoError && error != Undefined
    ensures EntryOk(Failing(e, error)) && Moves(e, Failing(e, error))
  {
    hide Said, RunsAway, Check;
  }

  lemma ReadingMayFail(e: Entry)
    requires EntryOk(e) && e.state == Reading
    ensures EntryOk(Failing(e, Alloc))
  {
    hide Said, RunsAway, Check;
  }

  // ---------------------------------------------------------------------------
  // What the end of a connection is taken for

  // Done, with this response, which says what becomes of the connection.
  predicate Answered(e: Entry, resp: Parsed) {
    && e.state == Done && e.error == NoError && e.resp == Some(resp) && resp.Response?
    && e.conn.Some? && e.conn.value.keepAlive == resp.fr.keepAlive
  }

  predicate Ended(e: Entry, error: Error) {
    e.state == Done && e.error == error
  }

  // What a response says that was accepted from a connection, when its lines end as they
  // should: what its bytes say - or, of bytes that stop at no line's middle, that there is no
  // body.
  lemma AcceptedMeans(buf: seq<Byte>, resp: Parsed)
    requires Said(buf, resp) && CrlfResponse(buf)
    ensures resp == Parse(buf) ||
            (LinesWhole(buf) &&
             resp == Response(ParseCode(buf[..HttpScan.FindCrlf(buf).value.len]).value, NOTHING_SAID, NoBody))
  {
    hide Parse, Left, LinesWhole, CrlfResponse;
    if resp != Parse(buf) {
      var residue :| resp == Parse(Left(buf, residue));
      SecondParse(buf, residue);
    }
  }

  // The peer closes, and what it sent is no response: with lines that end as they should,
  // that the connection was closed is told only when the bytes stop inside the status line or
  // a header line, or the status line is none.
  lemma ClosedIsTold(e: Entry, e': Entry, r: ReadResult, acquired: nat)
    requires EntryOk(e) && e.state == Reading && e.conn.Some?
    requires r.Over? && r.byPeer && !r.noMemoryAgain && e' == AfterEnd(e, r, acquired).entry
    requires e.conn.value.buf != [] && !Parse(e.conn.value.buf).Response? && CrlfResponse(e.conn.value.buf)
    ensures Ended(e', Closed) <==> !LinesWhole(e.conn.value.buf)
    ensures LinesWhole(e.conn.value.buf) ==> e'.resp.Some? && e'.resp.value.Response? && e'.resp.value.body == NoBody
    ensures LinesWhole(e.conn.value.buf) ==> e'.conn.Some? && PoolsIt([e'], 0, e'.conn.value.id)
  {
    hide Parse, Left, LinesWhole, CrlfResponse, Check, Said, RunsAway;
    SecondParse(e.conn.value.buf, r.residue);
  }

  // Five bytes of body announced, two there, and the peer gone: a response without a body,
  // and a connection for the pool.
  method CutShortIsAccepted(multi: CorRestClientMulti, i: nat, residue: seq<Byte>, retry: Source)
    requires multi.Valid() && i < |multi.entries| && multi.entries[i].state == Reading && multi.ledger.pooled == {}
    requires multi.entries[i].conn.Some? && multi.entries[i].conn.value.buf == HttpCutShort.CUT_SHORT
    modifies multi`entries, multi`done, multi`ledger
    ensures i < |multi.entries| && Answered(multi.entries[i], Response(200, NOTHING_SAID, NoBody))
    ensures PoolsIt(multi.entries, i, multi.entries[i].conn.value.id)
  {
    hide Parse, Left;
    HttpCutShort.CutShortIsWhole(residue);
    multi.OnEnded(i, Over(true, false, residue, false, retry));
  }

  // Lines that end in LF alone, a body that looks like headers, and the peer gone: the entry
  // at which the run is not defined any more.
  method RunsIntoUndefined(multi: CorRestClientMulti, i: nat, residue: seq<Byte>, noMemoryAgain: bool, retry: Source)
    requires multi.Valid() && i < |multi.entries| && multi.entries[i].state == Reading && multi.ledger.pooled == {}
    requires multi.entries[i].conn.Some? && multi.entries[i].conn.value.buf == HttpCutShort.NEGATIVE_CHUNK
    modifies multi`entries, multi`done, multi`ledger
    ensures i < |multi.entries| && Ended(multi.entries[i], Undefined)
  {
    hide Parse, Left, Check;
    HttpCutShort.SecondIsNotDefined(residue);
    multi.OnEnded(i, Over(true, false, residue, noMemoryAgain, retry));
  }

  // An entry comes to that exactly on these bytes.
  lemma UndefinedWhen(e: Entry, e': Entry, r: ReadResult, acquired: nat)
    requires e.conn.Some? && r.Over? && e' == AfterEnd(e, r, acquired).entry && e.state == Reading && EntryOk(e)
    ensures Ended(e', Undefined) <==>
            && r.byPeer && SecondIsUndefined(e.conn.value.buf, r.residue)
            && !Parses(e.conn.value.buf, r.noMemory) && (MayRetry(e) ==> e.conn.value.buf != [])
  {
    hide Parse, Left, SecondIsUndefined;
    UndefinedExactly(e.conn.value.buf, r.residue);
    NothingIsDefined(r.residue);
  }

  lemma NothingIsDefined(residue: seq<Byte>)
    ensures !SecondIsUndefined([], residue)
  {
  }

  lemma NothingHeld(es: seq<Entry>, l: Ledger)
    requires Accounted(es, l) && forall k :: 0 <= k < |es| ==> es[k].conn.None?
    ensures l.pooled !! l.closed && forall id :: id in l.pooled + l.closed <==> 0 <= id < l.acquired
  {
  }

  lemma HeldIsOpen(es: seq<Entry>, l: Ledger, i: nat)
    requires Accounted(es, l) && i < |es| && es[i].conn.Some?
    ensures es[i].conn.value.id !in l.closed && es[i].conn.value.id !in l.pooled
  {
    assert HeldBy(es, i, es[i].conn.value.id);
  }

  lemma {:induction false} CountSnoc(es: seq<Entry>, e: Entry)
    ensures CountDone(es + [e]) == CountDone(es) + if e.state == Done then 1 else 0
  {
    if es == [] {
      assert es + [e] == [e] && [e][1..] == [];
    } else {
      assert (es + [e])[1..] == es[1..] + [e];
      CountSnoc(es[1..], e);
    }
  }
}
