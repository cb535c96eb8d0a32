// What the multi-request engine is for: a request that goes out in any pieces, and a response
// that comes back in any, end their entry with that response, whatever happens to the other
// entries meanwhile; and a pooled connection that was dead starts its request over
// (corRestClientMulti.c:606-1020).
module MultiFetch {
  import opened Base
  import opened HttpResponse
  import opened HttpMarks
  import opened MultiEntry
  import opened ClientMulti

  // ---------------------------------------------------------------------------
  // One entry among many

  // The events of this entry, in order.
  function Mine(events: seq<Event>, i: nat): seq<Event> {
    if events == [] then []
    else
      var last := events[|events| - 1];
      Mine(events[..|events| - 1], i) + if last.idx == i then [last] else []
  }

  ghost predicate Once(e: Entry, ev: Event, cap: nat, acquired: nat, e': Entry) {
    && Sound(e) && (e.state == Connecting ==> e.sendPos == 0)
    && e' == AfterEvent(e, ev, cap, acquired).entry
  }

  // What an entry comes to by these events, however many connections the others obtain.
  ghost predicate Comes(e: Entry, events: seq<Event>, cap: nat, e': Entry) {
    if events == [] then e' == e
    else
      var n := |events| - 1;
      exists m, acquired :: Comes(e, events[..n], cap, m) && Once(m, events[n], cap, acquired, e')
  }

  lemma ComesOn(e: Entry, events: seq<Event>, cap: nat, m: Entry, ev: Event, acquired: nat, e': Entry)
    requires Comes(e, events, cap, m) && Once(m, ev, cap, acquired, e')
    ensures Comes(e, events + [ev], cap, e')
  {
    var all := events + [ev];
    assert all[..|all| - 1] == events && all[|all| - 1] == ev;
    assert Comes(e, all[..|all| - 1], cap, m) && Once(m, all[|all| - 1], cap, acquired, e');
  }

  // An entry is changed by its own events only.
  lemma {:induction false} EachOnItsOwn(h: seq<Snapshot>, from: nat, events: seq<Event>, cap: nat, i: nat, k: nat)
    requires Handled(h, from, events, cap) && i < |h[from].entries| && k <= |events|
    ensures |h[from + k].entries| == |h[from].entries|
    ensures Comes(h[from].entries[i], Mine(events[..k], i), cap, h[from + k].entries[i])
  {
    hide AfterEvent, Comes;
    if k == 0 {
      NoneComes(h[from].entries[i], cap);
    } else {
      EachOnItsOwn(h, from, events, cap, i, k - 1);
      var ev, m := events[k - 1], h[from + k - 1].entries[i];
      assert EventAt(h, from + (k - 1), ev, cap);
      assert events[..k][..k - 1] == events[..k - 1];
      if ev.idx == i {
        ComesOn(h[from].entries[i], Mine(events[..k - 1], i), cap, m, ev, h[from + k - 1].acquired,
                h[from + k].entries[i]);
      } else {
        assert Mine(events[..k], i) == Mine(events[..k - 1], i);
      }
    }
  }

  lemma NoneComes(e: Entry, cap: nat)
    ensures Comes(e, [], cap, e)
  {
  }

  // In two parts.
  lemma {:induction false} ComesBy(e: Entry, a: seq<Event>, b: seq<Event>, cap: nat, e': Entry) returns (m: Entry)
    requires Comes(e, a + b, cap, e')
    ensures Comes(e, a, cap, m) && Comes(m, b, cap, e')
    decreases |b|
  {
    hide Once;
    if b == [] {
      assert a + b == a;
      m := e';
    } else {
      var n := |b| - 1;
      assert (a + b)[..|a + b| - 1] == a + b[..n] && (a + b)[|a + b| - 1] == b[n];
      var x, acquired :| Comes(e, a + b[..n], cap, x) && Once(x, b[n], cap, acquired, e');
      m := ComesBy(e, a, b[..n], cap, x);
    }
  }

  // An address that refuses leaves fewer to try, or was the last: then the entry has failed.
  lemma AddressesRunOut(e: Entry, ev: Event, cap: nat, acquired: nat)
    requires Sound(e) && e.state == Connecting && e.sendPos == 0
    ensures var t := AfterEvent(e, ev, cap, acquired);
            && t.acquired == acquired
            && if ev.connected then t.entry.state == Writing && SameConnection(e, t.entry)
               else if ev.addressesLeft < e.conn.value.addresses then
                 && t.entry.state == Connecting && SameConnection(e, t.entry)
                 && t.entry.conn.value.addresses == ev.addressesLeft
               else Ended(t.entry, Connect)
    ensures var e' := AfterEvent(e, ev, cap, acquired).entry;
            e'.state == Connecting ==> e'.conn.Some? && e'.conn.value.addresses < e.conn.value.addresses
  {
  }

  // ---------------------------------------------------------------------------
  // Writing

  function Sum(ns: seq<nat>): nat {
    if ns == [] then 0 else Sum(ns[..|ns| - 1]) + ns[|ns| - 1]
  }

  // At the start, on a connection that nothing was written to.
  predicate AtStart(e: Entry) {
    && (e.state == Connecting || e.state == Writing) && e.sendPos == 0 && e.error == NoError && e.resp.None?
    && e.conn.Some? && e.conn.value.sent == 0
  }

  // These events let so many bytes go, one after the other.
  predicate Sends(events: seq<Event>, ns: seq<nat>) {
    |events| == |ns| && forall k :: 0 <= k < |ns| ==> events[k].write == Wrote(ns[k])
  }

  // So much of the request is written, and there is more.
  predicate IsSending(e: Entry, m: Entry, sum: nat) {
    && SameConnection(e, m) && m.error == NoError && m.resp.None?
    && m.state == Writing && m.sendPos == sum == m.conn.value.sent < m.sendLen
  }

  // All of it is, and nothing of the response is read.
  predicate IsSent(e: Entry, m: Entry) {
    && SameConnection(e, m) && m.error == NoError && m.resp.None?
    && m.state == Reading && m.conn.value.buf == []
  }

  lemma OneSent(e: Entry, m: Entry, sum: nat, ev: Event, k: nat, cap: nat, acquired: nat, e': Entry)
    requires IsSending(e, m, sum) && ev.write == Wrote(k) && Once(m, ev, cap, acquired, e')
    ensures if sum + k < e.sendLen then IsSending(e, e', sum + k) else IsSent(e, e')
  {
    hide Check, Parse, AfterReads, AfterConnecting;
  }

  lemma SumSnoc(ns: seq<nat>)
    requires |ns| > 1
    ensures var front := ns[..|ns| - 1]; front != [] && Sum(front[..|front| - 1]) <= Sum(front)
    ensures Sum(ns) == Sum(ns[..|ns| - 1]) + ns[|ns| - 1]
  {
  }

  // The request goes out in any pieces: what is left is counted, and reading begins when
  // nothing is.
  lemma {:induction false} Sent(e: Entry, events: seq<Event>, ns: seq<nat>, cap: nat, e': Entry)
    requires AtStart(e) && e.state == Writing && Sends(events, ns) && Comes(e, events, cap, e')
    requires ns != [] && Sum(ns[..|ns| - 1]) < e.sendLen
    ensures if Sum(ns) < e.sendLen then IsSending(e, e', Sum(ns)) else IsSent(e, e')
    decreases |events|
  {
    hide Once, IsSending, IsSent, Sum;
    var n := |events| - 1;
    var m, acquired :| Comes(e, events[..n], cap, m) && Once(m, events[n], cap, acquired, e');
    if n > 0 {
      SumSnoc(ns);
      Sent(e, events[..n], ns[..n], cap, m);
      OneSent(e, m, Sum(ns[..n]), events[n], ns[n], cap, acquired, e');
    } else {
      assert ns == [ns[0]];
      SumOfOne(ns[0]);
      assert m == e;
      NothingSentYet(e);
      OneSent(e, m, 0, events[n], ns[n], cap, acquired, e');
    }
  }

  lemma SumOfOne(n: nat)
    ensures Sum([n]) == n && Sum([n][..0]) == 0
  {
    assert [n][..0] == [];
  }

  lemma NothingSentYet(e: Entry)
    requires AtStart(e) && e.state == Writing && 0 < e.sendLen
    ensures IsSending(e, e, 0)
  {
  }

  // ---------------------------------------------------------------------------
  // Reading

  function Join(pieces: seq<seq<Byte>>): seq<Byte> {
    if pieces == [] then [] else Join(pieces[..|pieces| - 1]) + pieces[|pieces| - 1]
  }

  // What one event's reads give: these pieces, TLS holding more behind each but the last.
  function Pieces(pieces: seq<seq<Byte>>): seq<ReadResult> {
    seq(|pieces|, j requires 0 <= j < |pieces| => Got(pieces[j], false, j + 1 < |pieces|))
  }

  function Flat(gets: seq<seq<seq<Byte>>>): seq<seq<Byte>> {
    if gets == [] then [] else Flat(gets[..|gets| - 1]) + gets[|gets| - 1]
  }

  predicate Gets(events: seq<Event>, gets: seq<seq<seq<Byte>>>) {
    |events| == |gets| && forall k :: 0 <= k < |gets| ==> gets[k] != [] && events[k].parts == Pieces(gets[k])
  }

  predicate Unfinished(buf: seq<Byte>, cap: nat) {
    !PassesCap(buf, cap) && Check(buf) == 1
  }

  predicate WholeResponse(buf: seq<Byte>, cap: nat) {
    !PassesCap(buf, cap) && Check(buf) == 0 && Parse(buf).Response?
  }

  // Before the last piece the response is unfinished.
  predicate UnfinishedUpTo(pieces: seq<seq<Byte>>, cap: nat) {
    forall j :: 0 <= j < |pieces| ==> Unfinished(Join(pieces[..j]), cap)
  }

  function Having(e: Entry, buf: seq<Byte>): Entry
    requires e.conn.Some?
  {
    e.(conn := Some(e.conn.value.(buf := buf)))
  }

  lemma JoinSnoc(pieces: seq<seq<Byte>>, p: seq<Byte>)
    ensures Join(pieces + [p]) == Join(pieces) + p
  {
    assert (pieces + [p])[..|pieces|] == pieces;
  }

  // The reads of one event.
  lemma {:induction false} ReadsTake(e: Entry, before: seq<seq<Byte>>, pieces: seq<seq<Byte>>, cap: nat, acquired: nat)
    requires e.state == Reading && e.conn.Some? && e.conn.value.buf == Join(before) && pieces != []
    requires UnfinishedUpTo(before + pieces, cap)
    ensures var all := Join(before + pieces);
            && (Unfinished(all, cap) ==> AfterReads(e, Pieces(pieces), cap, acquired) == Turn(Having(e, all), acquired))
            && (WholeResponse(all, cap) ==>
                  AfterReads(e, Pieces(pieces), cap, acquired) == Turn(Answering(Having(e, all), Parse(all)), acquired))
    decreases |pieces|
  {
    hide Check, Parse, PassesCap, Join;
    var parts, now := Pieces(pieces), before + [pieces[0]];
    JoinSnoc(before, pieces[0]);
    assert parts[0].bytes == pieces[0];
    if |pieces| == 1 {
      assert before + pieces == now;
      assert parts[1..] == [];
    } else {
      assert (before + pieces)[..|before| + 1] == now;
      assert Unfinished(Join(now), cap);
      assert now + pieces[1..] == before + pieces;
      assert parts[1..] == Pieces(pieces[1..]);
      ReadsTake(Having(e, Join(now)), now, pieces[1..], cap, acquired);
      assert Having(Having(e, Join(now)), Join(before + pieces)) == Having(e, Join(before + pieces));
    }
  }

  lemma FrontUnfinished(pieces: seq<seq<Byte>>, more: seq<seq<Byte>>, cap: nat)
    requires UnfinishedUpTo(pieces + more, cap)
    ensures UnfinishedUpTo(pieces, cap) && (more != [] ==> Unfinished(Join(pieces), cap))
  {
    hide Unfinished, Join;
    forall j | 0 <= j < |pieces| ensures Unfinished(Join(pieces[..j]), cap) {
      assert (pieces + more)[..j] == pieces[..j];
    }
    assert more != [] ==> (pieces + more)[..|pieces|] == pieces;
  }

  // The response comes in any events and any pieces: unfinished until its last piece, and
  // with it the entry's.
  lemma {:induction false} Received(e: Entry, events: seq<Event>, gets: seq<seq<seq<Byte>>>, cap: nat, e': Entry)
    requires e.state == Reading && e.conn.Some? && e.conn.value.buf == [] && e.resp.None? && e.error == NoError
    requires Gets(events, gets) && UnfinishedUpTo(Flat(gets), cap) && Comes(e, events, cap, e')
    ensures var all := Join(Flat(gets));
            && (gets == [] || Unfinished(all, cap) ==> e' == Having(e, all))
            && (gets != [] && WholeResponse(all, cap) ==>
                  Parse(all).Response? && e' == Answering(Having(e, all), Parse(all)))
    decreases |events|
  {
    hide Check, Parse, PassesCap, Unfinished, WholeResponse, UnfinishedUpTo, AfterReads;
    if events != [] {
      var n := |events| - 1;
      var m, acquired :| Comes(e, events[..n], cap, m) && Once(m, events[n], cap, acquired, e');
      var before := Flat(gets[..n]);
      assert Flat(gets) == before + gets[n];
      FrontUnfinished(before, gets[n], cap);
      Received(e, events[..n], gets[..n], cap, m);
      assert m == Having(e, Join(before));
      ReadsTake(m, before, gets[n], cap, acquired);
      ParsesWhole(Join(Flat(gets)), cap);
    }
  }

  lemma ParsesWhole(buf: seq<Byte>, cap: nat)
    ensures WholeResponse(buf, cap) ==> Parse(buf).Response?
  {
  }

  // ---------------------------------------------------------------------------
  // From the start to the end

  lemma {:induction false} DoneForGood(e: Entry, events: seq<Event>, cap: nat, e': Entry)
    requires e.state == Done && Comes(e, events, cap, e')
    ensures e' == e
    decreases |events|
  {
    if events != [] {
      var n := |events| - 1;
      var m, acquired :| Comes(e, events[..n], cap, m) && Once(m, events[n], cap, acquired, e');
      DoneForGood(e, events[..n], cap, m);
    }
  }

  // The connection is there at once, or after one event that tells so.
  predicate Connects(e: Entry, events: seq<Event>) {
    if e.state == Connecting then |events| == 1 && events[0].connected else events == []
  }

  lemma ConnectedNow(e: Entry, events: seq<Event>, cap: nat, e': Entry)
    requires AtStart(e) && Connects(e, events) && Comes(e, events, cap, e')
    ensures AtStart(e') && e'.state == Writing && SameConnection(e, e')
  {
    if e.state == Connecting {
      var m, acquired :| Comes(e, events[..0], cap, m) && Once(m, events[0], cap, acquired, e');
      assert events[..0] == [];
    }
  }

  lemma Asked(e: Entry, connect: seq<Event>, send: seq<Event>, ns: seq<nat>, cap: nat, e': Entry)
    requires AtStart(e) && Connects(e, connect)
    requires Sends(send, ns) && ns != [] && Sum(ns[..|ns| - 1]) < e.sendLen <= Sum(ns)
    requires Comes(e, connect + send, cap, e')
    ensures IsSent(e, e')
  {
    hide Comes, Sum, Sends, AtStart, Connects;
    var m := ComesBy(e, connect, send, cap, e');
    ConnectedNow(e, connect, cap, m);
    Sent(m, send, ns, cap, e');
  }

  // Connected, written and read, in any pieces, and whatever comes behind it: the entry has the
  // response that all the bytes are.
  lemma Fetched(e: Entry, connect: seq<Event>, send: seq<Event>, ns: seq<nat>, get: seq<Event>,
                gets: seq<seq<seq<Byte>>>, behind: seq<Event>, cap: nat, e': Entry)
    requires AtStart(e) && Connects(e, connect)
    requires Sends(send, ns) && ns != [] && Sum(ns[..|ns| - 1]) < e.sendLen <= Sum(ns)
    requires Gets(get, gets) && gets != [] && UnfinishedUpTo(Flat(gets), cap) && WholeResponse(Join(Flat(gets)), cap)
    requires Comes(e, connect + send + get + behind, cap, e')
    ensures Answered(e', Parse(Join(Flat(gets)))) && SameConnection(e, e') && e'.conn.value.buf == Join(Flat(gets))
  {
    hide *;
    var m2 := ComesBy(e, connect + send + get, behind, cap, e');
    var m1 := ComesBy(e, connect + send, get, cap, m2);
    Asked(e, connect, send, ns, cap, m1);
    ReadsFrom(e, m1);
    Received(m1, get, gets, cap, m2);
    AnsweredWith(e, m1, Join(Flat(gets)), cap, m2);
    DoneForGood(m2, behind, cap, e');
  }

  lemma ReadsFrom(e: Entry, m: Entry)
    requires IsSent(e, m)
    ensures m.state == Reading && m.conn.Some? && m.conn.value.buf == [] && m.resp.None? && m.error == NoError
  {
  }

  lemma AnsweredWith(e: Entry, m: Entry, buf: seq<Byte>, cap: nat, e': Entry)
    requires IsSent(e, m) && m.conn.Some? && WholeResponse(buf, cap)
    requires Parse(buf).Response? ==> e' == Answering(Having(m, buf), Parse(buf))
    ensures Answered(e', Parse(buf)) && e'.state == Done && SameConnection(e, e') && e'.conn.value.buf == buf
  {
    hide Parse, Check, PassesCap;
  }

  // ---------------------------------------------------------------------------
  // In a run

  // The opening of an entry is not touched by those of the others.
  lemma {:induction false} OpenedOnItsOwn(h: seq<Snapshot>, openings: seq<Opening>, i: nat, k: nat)
    requires AllOpened(h, openings) && i < |h[0].entries| && k <= |openings|
    ensures |h[k].entries| == |h[0].entries|
    ensures k <= i ==> h[k].entries[i] == h[0].entries[i]
    ensures i < k ==>
              && h[0].entries[i].state == Init && h[0].entries[i].sendPos == 0
              && h[k].entries[i] == AfterOpening(h[0].entries[i], openings[i], h[i].acquired).entry
  {
    hide AfterOpening;
    if k > 0 {
      assert OpeningAt(h, k - 1, openings[k - 1]);
      OpenedOnItsOwn(h, openings, i, k - 1);
    }
  }

  lemma StartsFresh(e: Entry, sendLen: nat, src: Source, acquired: nat)
    requires e == Entry(Init, None, 0, 0, NoError, false, false, None) && Obtains(src)
    ensures var e' := AfterOpening(e, Opening(sendLen, src), acquired).entry;
            && AtStart(e') && e'.sendLen == sendLen
            && (e'.state == Connecting <==> src.New? && src.outcome.InProgress?)
  {
  }

  lemma RanFrom(h: seq<Snapshot>, from: nat, rounds: seq<Round>, cap: nat, turns: nat, handled: seq<Event>,
                final: seq<Entry>, defined: bool, i: nat)
    requires Ran(h, from, rounds, cap, turns, handled, final, defined)
    ensures Handled(h, from, handled, cap) && from + |handled| < |h|
    ensures var last := h[from + |handled|].entries;
            |final| == |last| && (i < |last| && last[i].state == Done ==> final[i] == last[i])
  {
    hide Waited, EventsOf;
  }

  // Of a run of many entries: the one whose connection could be had, and whose events, among
  // all that were seen to, are a connection made, a request written and a response read.
  lemma FetchedInRun(h: seq<Snapshot>, openings: seq<Opening>, rounds: seq<Round>, cap: nat, turns: nat,
                     handled: seq<Event>, final: seq<Entry>, defined: bool, i: nat, connect: seq<Event>,
                     send: seq<Event>, ns: seq<nat>, get: seq<Event>, gets: seq<seq<seq<Byte>>>, behind: seq<Event>)
    requires AllOpened(h, openings) && Ran(h, |openings|, rounds, cap, turns, handled, final, defined)
    requires i < |openings| == |h[0].entries| && h[0].entries[i] == Entry(Init, None, 0, 0, NoError, false, false, None)
    requires openings[i].Opening? && Obtains(openings[i].connect)
    requires if openings[i].connect.New? && openings[i].connect.outcome.InProgress? then
               |connect| == 1 && connect[0].connected
             else
               connect == []
    requires Sends(send, ns) && ns != [] && Sum(ns[..|ns| - 1]) < openings[i].sendLen <= Sum(ns)
    requires Gets(get, gets) && gets != [] && UnfinishedUpTo(Flat(gets), cap) && WholeResponse(Join(Flat(gets)), cap)
    requires Mine(handled, i) == connect + send + get + behind
    ensures i < |final| && Answered(final[i], Parse(Join(Flat(gets))))
  {
    hide Comes, UnfinishedUpTo, WholeResponse, Join, Flat, Sum, Sends, Gets, Parse, Handled, AtStart, AfterOpening,
         Mine,
         Ran, Obtains;
    var from := |openings|;
    OpenedOnItsOwn(h, openings, i, from);
    StartsFresh(h[0].entries[i], openings[i].sendLen, openings[i].connect, h[i].acquired);
    RanFrom(h, from, rounds, cap, turns, handled, final, defined, i);
    EachOnItsOwn(h, from, handled, cap, i, |handled|);
    assert handled[..|handled|] == handled;
    var e, e' := h[from].entries[i], h[from + |handled|].entries[i];
    Fetched(e, connect, send, ns, get, gets, behind, cap, e');
  }

  // ---------------------------------------------------------------------------
  // Starting over

  // The peer of a pooled connection is gone, and not a byte came: the request starts over on
  // another connection. When it was started over before, that is its end.
  lemma StartsOver(e: Entry, r: ReadResult, parts: seq<ReadResult>, cap: nat, acquired: nat)
    requires EntryOk(e) && e.state == Reading && e.conn.Some? && e.conn.value.buf == [] && r.Over?
    requires parts != [] && parts[0] == r
    ensures var t := AfterReads(e, parts, cap, acquired);
            if e.fromPool && !e.retried then
              if Obtains(r.retry) then
                && AtStart(t.entry) && t.entry.sendLen == e.sendLen && t.entry.retried
                && t.entry.conn.value.id == t.acquired - 1 >= acquired
              else Ended(t.entry, Connect)
            else Ended(t.entry, if r.byPeer then Closed else Recv)
  {
    hide Parse, Left, Check, Said, RunsAway;
  }

  // And when it cannot be written to.
  lemma StartsOverWriting(e: Entry, src: Source, acquired: nat)
    requires EntryOk(e) && e.state == Writing
    ensures Sound(e) && var t := AfterWriting(e, WriteFailed(src), acquired);
            if e.fromPool && !e.retried then
              if Obtains(src) then
                && AtStart(t.entry) && t.entry.sendLen == e.sendLen && t.entry.retried
                && t.entry.conn.value.id == t.acquired - 1 >= acquired
              else Ended(t.entry, Connect)
            else Ended(t.entry, Send)
  {
    hide Parse, Left, Check, Said, RunsAway;
  }
}
