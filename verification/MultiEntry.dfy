// One request of many: what connecting, writing and reading make of its entry, as functions
// of the entry and of what its socket does, and how the entries move over a run
// (corRestClientMulti.c:334-549 and 725-1020). What the sockets and the clock do comes as a
// trace: any trace. What is read is bytes, and the check and the parser are those of
// HttpResponse.
module MultiEntry {
  import opened Base
  import opened HttpResponse
  import opened HttpMarks

  datatype State = Init | Connecting | Writing | Reading | Done

  // Undefined is no error of the engine's: the entry at which a run left what C defines.
  datatype Error = NoError | Url | Alloc | Connect | Timeout | Recv | Send | Closed | Malformed | TooLarge | Undefined

  // id: the how many-th connection obtained; buf: the bytes read of the response; sent: the
  // bytes of the request written to it; addresses: how many are left to try.
  datatype Conn = Conn(id: nat, keepAlive: bool, buf: seq<Byte>, sent: nat, addresses: nat)

  // resp: the response, once there is one.
  datatype Entry = Entry(
    state: State, conn: Option<Conn>, sendLen: nat, sendPos: nat, error: Error, fromPool: bool, retried: bool,
    resp: Option<Parsed>)

  // ---------------------------------------------------------------------------
  // What happens from outside

  // A pooled connection that is dead may come first, and is closed; then one from the pool,
  // or a new one, which may fail.
  datatype Fresh = Fails | Connected | InProgress(addresses: nat)
  datatype Source = FromPool(keepAlive: bool) | New(deadFirst: bool, outcome: Fresh)

  // What one read gives. Of a parse, noMemory: there is none for the response's copy. At
  // the end of the connection, residue: what dechunking left of the body.
  datatype ReadResult =
    | NoRoom
    | ReadAgain
    | Over(byPeer: bool, noMemory: bool, residue: seq<Byte>, noMemoryAgain: bool, retry: Source)
    | Got(bytes: seq<Byte>, noMemory: bool, tlsHoldsMore: bool)

  datatype WriteResult = Wrote(n: nat) | WriteAgain | WriteFailed(retry: Source)

  // An event on an entry's socket, for whatever state the entry is in. addressesLeft: after
  // the next address that could be tried; parts: the reads, one and what TLS still held.
  datatype Event = Event(
    idx: nat, connected: bool, addressesLeft: nat, write: WriteResult, parts: seq<ReadResult>)

  datatype Round = Deadline | WaitFailed | Ready(events: seq<Event>)

  // What an entry finds at its start.
  datatype Opening = BadUrl | NoSendBuf | Opening(sendLen: nat, connect: Source)

  // ---------------------------------------------------------------------------
  // What is kept

  predicate Open(e: Entry) {
    e.state == Connecting || e.state == Writing || e.state == Reading
  }

  // What these bytes were parsed to: as they came, or at the peer's end of the connection
  // once more, as the first parse left them.
  ghost predicate Said(buf: seq<Byte>, resp: Parsed) {
    resp.Response? && (resp == Parse(buf) || exists residue :: resp == Parse(Left(buf, residue)))
  }

  // The second parse of these bytes, as the first left them, is one that C does not define.
  ghost predicate RunsAway(buf: seq<Byte>) {
    exists residue :: Parse(Left(buf, residue)) == NotDefined
  }

  // A response is read from, and accepted from, a connection the whole request went to; it
  // is what the bytes read say, and what it says of the connection is kept with it. While an
  // entry reads, the check finds its bytes unfinished.
  ghost predicate EntryOk(e: Entry) {
    && (e.state != Done ==> e.error == NoError)
    && (e.state == Init ==> e.conn.None? && !e.retried && !e.fromPool && e.sendPos == 0)
    && (Open(e) || e.resp.Some? ==> e.conn.Some?)
    && (e.state == Connecting ==> e.sendPos == 0 && e.conn.value.sent == 0)
    && (e.state == Writing ==> e.conn.value.sent == e.sendPos <= e.sendLen)
    && (e.state == Reading || e.resp.Some? ==> e.conn.value.sent == e.sendLen)
    && (e.state == Reading ==> Check(e.conn.value.buf) == 1)
    && (e.error == Undefined ==> e.conn.Some? && Check(e.conn.value.buf) == 1 && RunsAway(e.conn.value.buf))
    && (e.resp.Some? <==> e.state == Done && e.error == NoError)
    && (e.resp.Some? ==> Said(e.conn.value.buf, e.resp.value) && e.conn.value.keepAlive == e.resp.value.fr.keepAlive)
  }

  // ---------------------------------------------------------------------------
  // How an entry moves

  predicate Failed(e: Entry) {
    e.state == Done && e.error != NoError && e.resp.None?
  }

  predicate SameConnection(e: Entry, e': Entry) {
    && e.conn.Some? && e'.conn.Some? && e'.conn.value.id == e.conn.value.id
    && e'.retried == e.retried && e'.fromPool == e.fromPool && e'.sendLen == e.sendLen
  }

  // From the first byte, on another connection, or failed: an entry whose connection was
  // the pool's, and this once.
  predicate TriedAgain(e: Entry, e': Entry) {
    && e.fromPool && !e.retried && e'.retried && e'.sendPos == 0 && e'.sendLen == e.sendLen
    && (Failed(e') ||
        ((e'.state == Connecting || e'.state == Writing) && e.conn.Some? && e'.conn.Some?
            && e'.conn.value.id != e.conn.value.id))
  }

  // What one turn of the loop that starts the entries, or one event, or the end of the wait
  // can make of an entry.
  predicate Moves(e: Entry, e': Entry) {
    match e.state
    case Init => !e.retried && !e'.retried && (e'.state == Connecting || e'.state == Writing || Failed(e'))
    case Connecting => SameConnection(e, e') && (e'.state == Connecting || e'.state == Writing || Failed(e'))
    case Writing =>
      || (SameConnection(e, e') && e.sendPos <= e'.sendPos
          && (e'.state == Writing || e'.state == Reading || Failed(e')))
      || TriedAgain(e, e')
    case Reading =>
      || (SameConnection(e, e') && e.conn.value.buf <= e'.conn.value.buf && (e'.state == Reading || e'.state == Done))
      || TriedAgain(e, e')
    case Done => e' == e
  }

  function Stage(s: State): nat {
    match s case Init => 0 case Connecting => 1 case Writing => 2 case Reading => 3 case Done => 4
  }

  // One entry at most changes, and that as an entry moves.
  ghost predicate OneMoves(es: seq<Entry>, es': seq<Entry>) {
    && |es| == |es'|
    && (forall i :: 0 <= i < |es| ==> es'[i] == es[i] || Moves(es[i], es'[i]))
    && (forall i, j :: 0 <= i < |es| && 0 <= j < |es| && es'[i] != es[i] && es'[j] != es[j] ==> i == j)
  }

  // Between two events: the entries, how many are done, and how many connections there were.
  datatype Snapshot = Snapshot(entries: seq<Entry>, done: nat, acquired: nat)

  ghost predicate StepAt(h: seq<Snapshot>, k: int) {
    0 <= k && k + 1 < |h| && OneMoves(h[k].entries, h[k + 1].entries)
  }

  // A run: from one to the next one entry moves, and the count is right all the way.
  ghost predicate IsRun(h: seq<Snapshot>) {
    && h != []
    && (forall k :: 0 <= k < |h| ==> h[k].done == CountDone(h[k].entries))
    && (forall k :: 0 <= k < |h| - 1 ==> StepAt(h, k))
  }

  lemma RunOn(h: seq<Snapshot>, s: Snapshot)
    requires IsRun(h) && OneMoves(h[|h| - 1].entries, s.entries) && s.done == CountDone(s.entries)
    ensures IsRun(h + [s])
  {
    hide OneMoves, CountDone;
    forall k | 0 <= k < |h| ensures StepAt(h + [s], k) {
      assert k < |h| - 1 ==> StepAt(h, k);
    }
  }

  // Done is final; and an entry goes back only when it is retried.
  predicate Onward(e: Entry, e': Entry) {
    && (e.state == Done ==> e' == e)
    && (e.retried ==> e'.retried)
    && (e.retried == e'.retried ==> Stage(e.state) <= Stage(e'.state))
  }

  lemma {:induction false} SameLength(h: seq<Snapshot>, k: nat)
    requires IsRun(h) && k < |h|
    ensures |h[k].entries| == |h[0].entries|
  {
    hide CountDone;
    if k > 0 {
      assert StepAt(h, k - 1);
      SameLength(h, k - 1);
    }
  }

  lemma MoveIsOnward(e: Entry, e': Entry)
    requires e' == e || Moves(e, e')
    ensures Onward(e, e')
  {
  }

  // Whatever happens in between.
  lemma {:induction false} OnwardAlong(h: seq<Snapshot>, i: nat, k: nat, m: nat)
    requires IsRun(h) && i < |h[0].entries| && k <= m < |h|
    ensures |h[k].entries| == |h[m].entries| == |h[0].entries| && Onward(h[k].entries[i], h[m].entries[i])
    decreases m
  {
    hide CountDone, Moves;
    SameLength(h, k);
    if k < m {
      assert StepAt(h, m - 1);
      OnwardAlong(h, i, k, m - 1);
      MoveIsOnward(h[m - 1].entries[i], h[m].entries[i]);
    }
  }

  predicate DescendsAt(h: seq<Snapshot>, i: nat, k: nat) {
    && k + 1 < |h| && i < |h[k].entries| && i < |h[k + 1].entries|
    && Stage(h[k + 1].entries[i].state) < Stage(h[k].entries[i].state)
  }

  // An entry goes back once in a run, at most: from writing or reading, on a connection of
  // the pool, and is retried from then on.
  lemma OneDescent(h: seq<Snapshot>, i: nat, k: nat, m: nat)
    requires IsRun(h) && DescendsAt(h, i, k) && DescendsAt(h, i, m)
    ensures k == m && (h[k].entries[i].state == Writing || h[k].entries[i].state == Reading)
    ensures h[k].entries[i].fromPool && !h[k].entries[i].retried && h[k + 1].entries[i].retried
  {
    hide CountDone;
    assert StepAt(h, k) && StepAt(h, m);
    SameLength(h, k);
    if k < m {
      OnwardAlong(h, i, k + 1, m);
    } else if m < k {
      OnwardAlong(h, i, m + 1, k);
    }
  }

  function CountDone(es: seq<Entry>): nat {
    if es == [] then 0 else (if es[0].state == Done then 1 else 0) + CountDone(es[1..])
  }

  lemma {:induction false} CountUpdate(es: seq<Entry>, i: nat, e: Entry)
    requires i < |es|
    ensures CountDone(es[i := e]) + (if es[i].state == Done then 1 else 0) ==
            CountDone(es) + if e.state == Done then 1 else 0
  {
    if i == 0 {
      assert es[i := e][1..] == es[1..];
    } else {
      assert es[i := e][1..] == es[1..][i - 1 := e];
      CountUpdate(es[1..], i - 1, e);
    }
  }

  lemma {:induction false} AllDone(es: seq<Entry>)
    ensures CountDone(es) <= |es|
    ensures CountDone(es) == |es| <==> forall e <- es :: e.state == Done
  {
    if es != [] {
      AllDone(es[1..]);
      assert forall e :: e in es <==> e == es[0] || e in es[1..];
    }
  }

  // ---------------------------------------------------------------------------
  // What happens to an entry

  // An entry, and how many connections there were by then.
  datatype Turn = Turn(entry: Entry, acquired: nat)

  // Where there has to be a connection, there is one.
  predicate Sound(e: Entry) {
    (Open(e) ==> e.conn.Some?) && (e.state == Writing ==> e.sendPos <= e.sendLen)
  }

  function Failing(e: Entry, error: Error): Entry {
    e.(state := Done, error := error)
  }

  // Done, with this response; what it says of the connection is kept with it.
  function Answering(e: Entry, resp: Parsed): Entry
    requires e.conn.Some? && resp.Response?
  {
    e.(conn := Some(e.conn.value.(keepAlive := resp.fr.keepAlive)), state := Done, resp := Some(resp))
  }

  predicate Obtains(src: Source) {
    src.FromPool? || !src.outcome.Fails?
  }

  // How many connections that takes: a dead one counts.
  function Acquires(src: Source): nat {
    (if src.New? && src.deadFirst then 1 else 0) + (if Obtains(src) then 1 else 0)
  }

  // The entry with the connection it obtained, its number id: one of the pool's, or a new
  // one, is written to at once unless it is still connecting.
  function Entered(e: Entry, src: Source, id: nat): Entry
    requires Obtains(src)
  {
    if src.FromPool? then e.(state := Writing, fromPool := true, conn := Some(Conn(id, src.keepAlive, [], 0, 0)))
    else if src.outcome.Connected? then e.(state := Writing, conn := Some(Conn(id, true, [], 0, 0)))
    else e.(state := Connecting, conn := Some(Conn(id, true, [], 0, src.outcome.addresses)))
  }

  // startConnect, and the end of an entry that gets no connection.
  function Started(e: Entry, src: Source, acquired: nat): (t: Turn)
    requires e.sendPos == 0
    ensures Sound(t.entry)
  {
    var now := acquired + Acquires(src);
    Turn(if Obtains(src) then Entered(e, src, now - 1) else Failing(e, Connect), now)
  }

  // One turn of the loop that starts the entries.
  function AfterOpening(e: Entry, o: Opening, acquired: nat): (t: Turn)
    requires e.state == Init && e.sendPos == 0
    ensures Sound(t.entry)
  {
    match o
    case BadUrl => Turn(Failing(e, Url), acquired)
    case NoSendBuf => Turn(Failing(e, Alloc), acquired)
    case Opening(sendLen, connect) => Started(e.(sendLen := sendLen), connect, acquired)
  }

  // Its connection is the pool's, and it was not retried yet.
  predicate MayRetry(e: Entry) {
    e.fromPool && !e.retried
  }

  // From the first byte, on another connection.
  function Retrying(e: Entry, src: Source, acquired: nat): (t: Turn)
    ensures Sound(t.entry)
  {
    Started(e.(conn := None, fromPool := false, retried := true, sendPos := 0), src, acquired)
  }

  function AfterConnecting(e: Entry, connected: bool, addressesLeft: nat): (e': Entry)
    requires Sound(e) && e.state == Connecting && e.sendPos == 0
    ensures Sound(e')
  {
    var c := e.conn.value;
    if connected then e.(state := Writing, conn := Some(c.(addresses := 0)))
    else if addressesLeft < c.addresses then e.(conn := Some(c.(addresses := addressesLeft)))
    else Failing(e, Connect)
  }

  function AfterWriting(e: Entry, w: WriteResult, acquired: nat): (t: Turn)
    requires Sound(e) && e.state == Writing
    ensures Sound(t.entry)
  {
    match w
    case WriteAgain => Turn(e, acquired)
    case WriteFailed(src) => if MayRetry(e) then Retrying(e, src, acquired) else Turn(Failing(e, Send), acquired)
    case Wrote(m) =>
      var left := e.sendLen - e.sendPos;
      var n := if m < left then m else left;
      var c := e.conn.value.(sent := e.conn.value.sent + n);
      var e' := e.(sendPos := e.sendPos + n);
      Turn(if n == left then e'.(state := Reading, conn := Some(c.(buf := []))) else e'.(conn := Some(c)), acquired)
  }

  predicate Parses(buf: seq<Byte>, noMemory: bool) {
    Parse(buf).Response? && !noMemory
  }

  // The end of the connection: the bytes are parsed, and, when the peer closed, what that
  // parse has left of them is parsed again.
  function AfterEnd(e: Entry, r: ReadResult, acquired: nat): (t: Turn)
    requires e.conn.Some? && r.Over?
    ensures Sound(t.entry)
  {
    var buf := e.conn.value.buf;
    if buf != [] && Parses(buf, r.noMemory) then Turn(Answering(e, Parse(buf)), acquired)
    else if MayRetry(e) && buf == [] then Retrying(e, r.retry, acquired)
    else if r.byPeer && buf != [] && Parse(Left(buf, r.residue)).NotDefined? then Turn(Failing(e, Undefined), acquired)
    else if r.byPeer && buf != [] && Parses(Left(buf, r.residue), r.noMemoryAgain) then
      Turn(Answering(e, Parse(Left(buf, r.residue))), acquired)
    else Turn(Failing(e, if r.byPeer then Closed else Recv), acquired)
  }

  // What follows the first CR LF CR LF.
  function BodyLen(s: seq<Byte>): Option<nat> {
    if |s| < 4 then None
    else if s[..4] == [13, 10, 13, 10] then Some(|s| - 4)
    else BodyLen(s[1..])
  }

  const MAX_HEADERS := 65536

  // responseTooLarge; no cap is 0.
  predicate PassesCap(buf: seq<Byte>, cap: nat) {
    cap != 0 && |buf| > cap && match BodyLen(buf) case None => |buf| > cap + MAX_HEADERS case Some(n) => n > cap
  }

  predicate EmptyLineAt(s: seq<Byte>, k: int) {
    0 <= k <= |s| - 4 && s[k] == 13 && s[k + 1] == 10 && s[k + 2] == 13 && s[k + 3] == 10
  }

  lemma {:induction false} BodyLenMeans(s: seq<Byte>)
    ensures BodyLen(s).None? <==> forall k :: !EmptyLineAt(s, k)
    ensures BodyLen(s).Some? ==>
              var k := |s| - BodyLen(s).value - 4; EmptyLineAt(s, k) && forall j :: j < k ==> !EmptyLineAt(s, j)
  {
    if |s| >= 4 {
      assert s[..4] == [13, 10, 13, 10] <==> EmptyLineAt(s, 0);
      if !EmptyLineAt(s, 0) {
        BodyLenMeans(s[1..]);
        assert forall k :: EmptyLineAt(s, k) ==> EmptyLineAt(s[1..], k - 1);
        assert forall k :: EmptyLineAt(s[1..], k) ==> EmptyLineAt(s, k + 1);
      }
    }
  }

  // The cap is one on the body, what follows the first empty line at k; before there is one,
  // sixty-four kilobytes more are let through.
  lemma CapIsOnTheBody(s: seq<Byte>, cap: nat, k: int)
    ensures EmptyLineAt(s, k) && (forall j :: j < k ==> !EmptyLineAt(s, j)) ==>
              (PassesCap(s, cap) <==> cap != 0 && |s| - (k + 4) > cap)
    ensures (forall j :: !EmptyLineAt(s, j)) ==> (PassesCap(s, cap) <==> cap != 0 && |s| > cap + 65536)
  {
    BodyLenMeans(s);
    if EmptyLineAt(s, k) && forall j :: j < k ==> !EmptyLineAt(s, j) {
      assert BodyLen(s).Some?;
      var m := |s| - BodyLen(s).value - 4;
      assert !(m < k) && !(k < m);
    }
  }

  // The entry with these bytes more.
  function AfterBytes(e: Entry, r: ReadResult, cap: nat): (e': Entry)
    requires Sound(e) && e.state == Reading && r.Got?
    ensures Sound(e')
  {
    var buf := e.conn.value.buf + r.bytes;
    var with := e.(conn := Some(e.conn.value.(buf := buf)));
    if PassesCap(buf, cap) then Failing(with, TooLarge)
    else if Check(buf) == 0 then
      if Parses(buf, r.noMemory) then Answering(with, Parse(buf))
      else Failing(with, if Parse(buf).Response? then Alloc else Malformed)
    else if Check(buf) < 0 then Failing(with, Malformed)
    else with
  }

  function AfterRead(e: Entry, r: ReadResult, cap: nat, acquired: nat): (t: Turn)
    requires Sound(e) && e.state == Reading
    ensures Sound(t.entry)
  {
    match r
    case NoRoom => Turn(Failing(e, Alloc), acquired)
    case ReadAgain => Turn(e, acquired)
    case Over(_, _, _, _, _) => AfterEnd(e, r, acquired)
    case Got(_, _, _) => Turn(AfterBytes(e, r, cap), acquired)
  }

  // After this read comes another: TLS holds more, and the response is not whole.
  predicate ReadsOn(e': Entry, r: ReadResult) {
    r.Got? && r.tlsHoldsMore && e'.state == Reading
  }

  // The reads of one event, as long as there is more.
  function AfterReads(e: Entry, parts: seq<ReadResult>, cap: nat, acquired: nat): (t: Turn)
    requires Sound(e) && e.state == Reading
    ensures Sound(t.entry)
    decreases |parts|
  {
    if parts == [] then Turn(e, acquired)
    else
      var t := AfterRead(e, parts[0], cap, acquired);
      if ReadsOn(t.entry, parts[0]) then AfterReads(t.entry, parts[1..], cap, t.acquired) else t
  }

  function AfterEvent(e: Entry, ev: Event, cap: nat, acquired: nat): (t: Turn)
    requires Sound(e) && (e.state == Connecting ==> e.sendPos == 0)
    ensures Sound(t.entry)
  {
    match e.state
    case Init => Turn(e, acquired)
    case Connecting => Turn(AfterConnecting(e, ev.connected, ev.addressesLeft), acquired)
    case Writing => AfterWriting(e, ev.write, acquired)
    case Reading => AfterReads(e, ev.parts, cap, acquired)
    case Done => Turn(e, acquired)
  }

  // ---------------------------------------------------------------------------
  // What is kept, and how it moves

  lemma OkIsSound(e: Entry)
    requires EntryOk(e)
    ensures Sound(e) && (e.state == Init || e.state == Connecting ==> e.sendPos == 0)
  {
    hide Said, RunsAway, Check;
  }

  lemma OpeningKeeps(e: Entry, o: Opening, acquired: nat)
    requires EntryOk(e) && e.state == Init
    ensures e.sendPos == 0 && var e' := AfterOpening(e, o, acquired).entry;
            EntryOk(e') && Moves(e, e') && e'.state != Init && e'.error != Undefined
  {
    hide Said, RunsAway, Check;
  }

  lemma ConnectingKeeps(e: Entry, connected: bool, addressesLeft: nat)
    requires EntryOk(e) && e.state == Connecting
    ensures Sound(e) && var e' := AfterConnecting(e, connected, addressesLeft); EntryOk(e') && Moves(e, e')
  {
    hide Said, RunsAway, Check;
  }

  lemma RetryKeeps(e: Entry, src: Source, acquired: nat)
    requires EntryOk(e) && (e.state == Writing || e.state == Reading) && MayRetry(e)
    requires e.conn.Some? ==> e.conn.value.id < acquired
    ensures var e' := Retrying(e, src, acquired).entry; EntryOk(e') && Moves(e, e')
  {
    hide Said, RunsAway, Check;
  }

  lemma NothingIsUnfinished()
    ensures Check([]) == 1
  {
  }

  lemma WritingKeeps(e: Entry, w: WriteResult, acquired: nat)
    requires EntryOk(e) && e.state == Writing && (e.conn.Some? ==> e.conn.value.id < acquired)
    ensures Sound(e) && var e' := AfterWriting(e, w, acquired).entry; EntryOk(e') && Moves(e, e')
  {
    hide Said, RunsAway, Check, Retrying;
    NothingIsUnfinished();
    if w.WriteFailed? && MayRetry(e) {
      RetryKeeps(e, w.retry, acquired);
    }
  }

  lemma EndKeeps(e: Entry, r: ReadResult, acquired: nat)
    requires EntryOk(e) && e.state == Reading && r.Over? && (e.conn.Some? ==> e.conn.value.id < acquired)
    ensures e.conn.Some? && var e' := AfterEnd(e, r, acquired).entry; EntryOk(e') && Moves(e, e')
    ensures Parse(e.conn.value.buf) != NotDefined
  {
    hide Check, Parse, Left, Retrying;
    UndefinedIsMalformed(e.conn.value.buf);
    if MayRetry(e) && e.conn.value.buf == [] {
      RetryKeeps(e, r.retry, acquired);
    }
  }

  lemma BytesKeep(e: Entry, r: ReadResult, cap: nat)
    requires EntryOk(e) && e.state == Reading && r.Got?
    ensures Sound(e) && var e' := AfterBytes(e, r, cap); EntryOk(e') && Moves(e, e')
    ensures var buf := e.conn.value.buf + r.bytes; Check(buf) == 0 ==> Parse(buf) != NotDefined
  {
    hide Check, Parse, Left, PassesCap;
    UndefinedIsMalformed(e.conn.value.buf + r.bytes);
  }

  lemma ReadKeeps(e: Entry, r: ReadResult, cap: nat, acquired: nat)
    requires EntryOk(e) && e.state == Reading && (e.conn.Some? ==> e.conn.value.id < acquired)
    ensures Sound(e) && var e' := AfterRead(e, r, cap, acquired).entry; EntryOk(e') && Moves(e, e')
  {
    hide Check, Parse, Left, PassesCap, AfterBytes, AfterEnd, Said, RunsAway;
    if r.Over? {
      EndKeeps(e, r, acquired);
    } else if r.Got? {
      BytesKeep(e, r, cap);
    }
  }
  lemma IsConnected(e: Entry)
    requires EntryOk(e) && e.state == Reading
    ensures e.conn.Some? && Moves(e, e)
  {
    hide Said, RunsAway, Check;
  }

  // A read after reads that left the entry reading.
  lemma ReadsCompose(a: Entry, b: Entry, c: Entry)
    requires a.state == Reading && b.state == Reading && SameConnection(a, b) && Moves(a, b) && Moves(b, c)
    ensures Moves(a, c)
  {
  }

  lemma StillReading(e: Entry, e': Entry)
    requires Moves(e, e') && e.state == Reading && e'.state == Reading
    ensures SameConnection(e, e')
  {
  }

  lemma {:induction false} ReadsKeep(e: Entry, parts: seq<ReadResult>, cap: nat, acquired: nat)
    requires EntryOk(e) && e.state == Reading && (e.conn.Some? ==> e.conn.value.id < acquired)
    ensures Sound(e) && var e' := AfterReads(e, parts, cap, acquired).entry; EntryOk(e') && Moves(e, e')
    decreases |parts|
  {
    hide EntryOk, Moves, AfterRead;
    OkIsSound(e);
    if parts == [] {
      IsConnected(e);
    } else {
      var t := AfterRead(e, parts[0], cap, acquired);
      ReadKeeps(e, parts[0], cap, acquired);
      if ReadsOn(t.entry, parts[0]) {
        SameAcquired(e, parts[0], cap, acquired);
        StillReading(e, t.entry);
        ReadsKeep(t.entry, parts[1..], cap, t.acquired);
        ReadsCompose(e, t.entry, AfterReads(t.entry, parts[1..], cap, t.acquired).entry);
      }
    }
  }

  lemma SameAcquired(e: Entry, r: ReadResult, cap: nat, acquired: nat)
    requires Sound(e) && e.state == Reading && r.Got?
    ensures AfterRead(e, r, cap, acquired).acquired == acquired
  {
  }

  lemma DoneStays(e: Entry)
    requires e.state == Done
    ensures Moves(e, e)
  {
  }

  lemma EventKeeps(e: Entry, ev: Event, cap: nat, acquired: nat)
    requires EntryOk(e) && e.state != Init && (e.conn.Some? ==> e.conn.value.id < acquired)
    ensures Sound(e) && (e.state == Connecting ==> e.sendPos == 0)
    ensures var e' := AfterEvent(e, ev, cap, acquired).entry; EntryOk(e') && Moves(e, e') && e'.state != Init
  {
    hide EntryOk, AfterConnecting, AfterWriting, AfterReads;
    OkIsSound(e);
    match e.state
    case Connecting => ConnectingKeeps(e, ev.connected, ev.addressesLeft);
    case Writing => WritingKeeps(e, ev.write, acquired);
    case Reading => ReadsKeep(e, ev.parts, cap, acquired);
    case Done => DoneStays(e);
    case Init =>
  }

  // ---------------------------------------------------------------------------
  // A run, turn by turn

  // From here to the next, entry i is started.
  ghost predicate OpeningAt(h: seq<Snapshot>, i: nat, o: Opening) {
    && i + 1 < |h| && i < |h[i].entries| && h[i].entries[i].state == Init && h[i].entries[i].sendPos == 0
    && var t := AfterOpening(h[i].entries[i], o, h[i].acquired);
       h[i + 1].entries == h[i].entries[i := t.entry] && h[i + 1].acquired == t.acquired
  }

  // From here to the next, this event is seen to.
  ghost predicate EventAt(h: seq<Snapshot>, k: nat, ev: Event, cap: nat) {
    && k + 1 < |h| && ev.idx < |h[k].entries|
    && var e := h[k].entries[ev.idx];
       && Sound(e) && (e.state == Connecting ==> e.sendPos == 0)
       && var t := AfterEvent(e, ev, cap, h[k].acquired);
          h[k + 1].entries == h[k].entries[ev.idx := t.entry] && h[k + 1].acquired == t.acquired
  }

  ghost predicate AllOpened(h: seq<Snapshot>, openings: seq<Opening>) {
    |openings| < |h| && forall i :: 0 <= i < |openings| ==> OpeningAt(h, i, openings[i])
  }

  ghost predicate Handled(h: seq<Snapshot>, from: nat, events: seq<Event>, cap: nat) {
    from + |events| < |h| && forall k :: 0 <= k < |events| ==> EventAt(h, from + k, events[k], cap)
  }

  lemma HandledStill(h: seq<Snapshot>, h': seq<Snapshot>, from: nat, events: seq<Event>, cap: nat)
    requires Handled(h, from, events, cap) && h <= h'
    ensures Handled(h', from, events, cap)
  {
    hide AfterEvent;
    forall k | 0 <= k < |events| ensures EventAt(h', from + k, events[k], cap) {
      assert EventAt(h, from + k, events[k], cap);
    }
  }

  lemma HandledOn(h: seq<Snapshot>, from: nat, events: seq<Event>, more: seq<Event>, cap: nat)
    requires Handled(h, from, events, cap) && Handled(h, from + |events|, more, cap)
    ensures Handled(h, from, events + more, cap)
  {
    hide EventAt;
    forall k | 0 <= k < |events + more| ensures EventAt(h, from + k, (events + more)[k], cap) {
      assert k < |events| ==> EventAt(h, from + k, events[k], cap);
      assert k >= |events| ==> EventAt(h, from + |events| + (k - |events|), more[k - |events|], cap);
    }
  }

  lemma OpenedStill(h: seq<Snapshot>, h': seq<Snapshot>, openings: seq<Opening>)
    requires AllOpened(h, openings) && h <= h'
    ensures AllOpened(h', openings)
  {
    hide AfterOpening;
    forall i | 0 <= i < |openings| ensures OpeningAt(h', i, openings[i]) {
      assert OpeningAt(h, i, openings[i]);
    }
  }

  // The events of these rounds, one after the other.
  function EventsOf(rounds: seq<Round>): seq<Event> {
    if rounds == [] then []
    else
      var last := rounds[|rounds| - 1];
      EventsOf(rounds[..|rounds| - 1]) + if last.Ready? then last.events else []
  }

  lemma EventsSnoc(rounds: seq<Round>, r: nat)
    requires r < |rounds| && rounds[r].Ready?
    ensures EventsOf(rounds[..r + 1]) == EventsOf(rounds[..r]) + rounds[r].events
  {
    assert rounds[..r + 1][..r] == rounds[..r];
  }

  // Every entry still open ends like this, the others as they are.
  function EndedWith(es: seq<Entry>, error: Error): seq<Entry> {
    seq(|es|, i requires 0 <= i < |es| => if es[i].state == Done then es[i] else Failing(es[i], error))
  }

  // So many rounds were waited for, every time with an entry still open.
  ghost predicate Waited(h: seq<Snapshot>, from: nat, rounds: seq<Round>, turns: nat, n: nat) {
    && turns <= |rounds|
    && forall q :: 0 <= q < turns ==>
         && rounds[q].Ready?
         && from + |EventsOf(rounds[..q])| < |h| && h[from + |EventsOf(rounds[..q])|].done < n
  }

  // From there on the run is that of the events, one by one: of the rounds up to where all
  // entries are done, or the deadline comes, or there is no wait to be had; and these end the
  // entries still open. Or up to the event that leaves what C defines.
  ghost predicate Ran(h: seq<Snapshot>, from: nat, rounds: seq<Round>, cap: nat, turns: nat, handled: seq<Event>,
                      final: seq<Entry>, defined: bool) {
    && turns <= |rounds| && Handled(h, from, handled, cap)
    && var last := h[from + |handled|];
       if defined then
         && Waited(h, from, rounds, turns, |final|) && handled == EventsOf(rounds[..turns])
         && if last.done == |final| then final == last.entries
            else
              && (turns < |rounds| ==> !rounds[turns].Ready?)
              && final == EndedWith(last.entries, if turns < |rounds| && rounds[turns].WaitFailed? then Recv
                   else Timeout)
       else
         && turns < |rounds| && Waited(h, from, rounds, turns + 1, |final|)
         && EventsOf(rounds[..turns]) < handled <= EventsOf(rounds[..turns + 1])
         && final == last.entries
         && var i := handled[|handled| - 1].idx; i < |final| && final[i].error == Undefined
  }

  lemma NoneHandled(h: seq<Snapshot>, from: nat, cap: nat)
    requires from < |h|
    ensures Handled(h, from, [], cap)
  {
  }

  lemma OneHandled(h: seq<Snapshot>, h': seq<Snapshot>, from: nat, events: seq<Event>, ev: Event, cap: nat)
    requires Handled(h, from, events, cap) && h <= h' && |h'| == |h| + 1 == from + |events| + 2
    requires EventAt(h', from + |events|, ev, cap)
    ensures Handled(h', from, events + [ev], cap)
  {
    hide EventAt;
    HandledStill(h, h', from, events, cap);
    assert Handled(h', from + |events|, [ev], cap);
    HandledOn(h', from, events, [ev], cap);
  }

  lemma NoRoundYet(h: seq<Snapshot>, from: nat, rounds: seq<Round>, n: nat)
    ensures Waited(h, from, rounds, 0, n) && EventsOf(rounds[..0]) == []
  {
  }

  lemma WaitedStill(h: seq<Snapshot>, h': seq<Snapshot>, from: nat, rounds: seq<Round>, turns: nat, n: nat)
    requires Waited(h, from, rounds, turns, n) && h <= h'
    ensures Waited(h', from, rounds, turns, n)
  {
  }

  lemma OneMoreRound(h: seq<Snapshot>, from: nat, rounds: seq<Round>, turns: nat, n: nat)
    requires Waited(h, from, rounds, turns, n) && turns < |rounds| && rounds[turns].Ready?
    requires var k := from + |EventsOf(rounds[..turns])|; k < |h| && h[k].done < n
    ensures Waited(h, from, rounds, turns + 1, n)
  {
  }

  // A round seen to, or as far as it was.
  lemma RoundHandled(h: seq<Snapshot>, h': seq<Snapshot>, from: nat, rounds: seq<Round>, cap: nat, turns: nat,
                     handled: seq<Event>, now: seq<Event>, n: nat)
    requires turns < |rounds| && rounds[turns].Ready? && handled == EventsOf(rounds[..turns])
    requires Handled(h, from, handled, cap) && Waited(h, from, rounds, turns, n) && h <= h'
    requires |h| == from + 1 + |handled| && h[|h| - 1].done < n
    requires Handled(h', |h| - 1, now, cap) && now <= rounds[turns].events
    ensures Handled(h', from, handled + now, cap) && Waited(h', from, rounds, turns + 1, n)
    ensures handled + now <= EventsOf(rounds[..turns + 1])
    ensures now == rounds[turns].events ==> handled + now == EventsOf(rounds[..turns + 1])
  {
    hide Handled, Waited, EventsOf;
    HandledStill(h, h', from, handled, cap);
    HandledOn(h', from, handled, now, cap);
    WaitedStill(h, h', from, rounds, turns, n);
    OneMoreRound(h', from, rounds, turns, n);
    EventsSnoc(rounds, turns);
  }

  lemma EndsDone(h: seq<Snapshot>, from: nat, rounds: seq<Round>, cap: nat, turns: nat, handled: seq<Event>,
                 final: seq<Entry>)
    requires turns <= |rounds| && handled == EventsOf(rounds[..turns])
    requires Handled(h, from, handled, cap) && Waited(h, from, rounds, turns, |final|)
    requires |h| == from + 1 + |handled| && h[|h| - 1].done == |final| && h[|h| - 1].entries == final
    ensures Ran(h, from, rounds, cap, turns, handled, final, true)
  {
    hide Handled, Waited, EventsOf;
  }

  lemma EndsOpen(h: seq<Snapshot>, h': seq<Snapshot>, from: nat, rounds: seq<Round>, cap: nat, turns: nat,
                 handled: seq<Event>, final: seq<Entry>)
    requires turns <= |rounds| && handled == EventsOf(rounds[..turns]) && (turns < |rounds| ==> !rounds[turns].Ready?)
    requires Handled(h, from, handled, cap) && Waited(h, from, rounds, turns, |final|) && h <= h'
    requires |h| == from + 1 + |handled| && h[|h| - 1].done < |final|
    requires final == EndedWith(h[|h| - 1].entries, if turns < |rounds| && rounds[turns].WaitFailed? then Recv
             else Timeout)
    ensures Ran(h', from, rounds, cap, turns, handled, final, true)
  {
    hide Handled, Waited, EventsOf, EndedWith;
    HandledStill(h, h', from, handled, cap);
    WaitedStill(h, h', from, rounds, turns, |final|);
  }

  lemma EndsUndefined(h: seq<Snapshot>, from: nat, rounds: seq<Round>, cap: nat, turns: nat, handled: seq<Event>,
                      final: seq<Entry>)
    requires turns < |rounds| && Handled(h, from, handled, cap) && Waited(h, from, rounds, turns + 1, |final|)
    requires EventsOf(rounds[..turns]) < handled <= EventsOf(rounds[..turns + 1])
    requires |h| == from + 1 + |handled| && h[|h| - 1].entries == final
    requires var i := handled[|handled| - 1].idx; i < |final| && final[i].error == Undefined
    ensures Ran(h, from, rounds, cap, turns, handled, final, false)
  {
    hide Handled, Waited, EventsOf;
  }
}
