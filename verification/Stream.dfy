// A response body written over time (corRestBackendMhd.c:53-309): writers on any thread,
// the server's content reader, the end, and the connection's end, every one under the
// stream's mutex. First what one operation does to what there is, and what every
// interleaving keeps; then the growing buffer that does it.
module Stream {
  import opened Base

  const PENDING_MAX: nat := 16 * 1024 * 1024

  // One of the two references: the application's (until corRestStreamEnd is over) and the
  // response's (until streamFree is).
  datatype Owner = Holds | LettingGo | LetGo

  // accepted: everything a write took; delivered: everything the server got; pending: in
  // between. endSaid: the server was told the body is over. freed: how often it was freed.
  datatype State = State(
    accepted: seq<Byte>, delivered: seq<Byte>, pending: seq<Byte>,
    suspended: bool, ended: bool, cut: bool, gone: bool,
    app: Owner, response: Owner, endSaid: bool, freed: nat)

  const START := State([], [], [], false, false, false, false, Holds, Holds, false, 0)

  // peerClosed: the client closed its side, a look at the socket says; noMemory: the buffer
  // had to grow and could not.
  datatype Action =
    | Read(max: nat)
    | Write(data: seq<Byte>, peerClosed: bool, noMemory: bool)
    | End | AppRelease | Free | ResponseRelease

  // Who may do what when: the application while it has the handle, the server while the
  // response is not destroyed - and no reading while the connection is suspended.
  predicate Enabled(s: State, a: Action) {
    match a
    case Read(_) => s.response == Holds && !s.suspended
    case Write(_, _, _) => s.app == Holds
    case End => s.app == Holds
    case AppRelease => s.app == LettingGo
    case Free => s.response == Holds
    case ResponseRelease => s.response == LettingGo
  }

  // ---------------------------------------------------------------------------
  // The operations

  function Refs(s: State): nat {
    (if s.app == LetGo then 0 else 1) + (if s.response == LetGo then 0 else 1)
  }

  function Resumed(s: State): State {
    if s.suspended && !s.gone then s.(suspended := false) else s
  }

  function Taken(s: State, n: nat): State
    requires n <= |s.pending|
  {
    s.(delivered := s.delivered + s.pending[..n], pending := s.pending[n..])
  }

  function Min(a: nat, b: nat): nat { if a < b then a else b }

  // streamRead
  function DoRead(s: State, max: nat): State {
    if s.cut then s
    else if s.pending != [] then Taken(s, Min(|s.pending|, max))
    else if s.ended then s.(endSaid := true)
    else s.(suspended := true)
  }

  // corRestStreamWrite
  function DoWrite(s: State, data: seq<Byte>, peerClosed: bool, noMemory: bool): State {
    var t := if data == [] && s.suspended && !s.gone && peerClosed then s.(cut := true) else s;
    if t.gone || t.ended then t
    else if t.cut then Resumed(t)
    else if data == [] then t
    else if |t.pending| + |data| > PENDING_MAX || noMemory then Resumed(t.(cut := true))
    else Resumed(t.(accepted := t.accepted + data, pending := t.pending + data))
  }

  // What the writer is told.
  predicate WriteOk(s: State, data: seq<Byte>, peerClosed: bool, noMemory: bool) {
    var t := DoWrite(s, data, peerClosed, noMemory);
    !t.gone && !t.ended && !t.cut
  }

  function Released(s: State): State {
    if Refs(s) == 0 then s.(freed := s.freed + 1) else s
  }

  function Do(s: State, a: Action): State
    requires Enabled(s, a)
  {
    match a
    case Read(max) => DoRead(s, max)
    case Write(data, peerClosed, noMemory) => DoWrite(s, data, peerClosed, noMemory)
    case End => Resumed(s.(ended := true, app := LettingGo))
    case AppRelease => Released(s.(app := LetGo))
    case Free => s.(gone := true, response := LettingGo)
    case ResponseRelease => Released(s.(response := LetGo))
  }

  // ---------------------------------------------------------------------------
  // What every interleaving keeps

  ghost predicate Inv(s: State) {
    && s.delivered + s.pending == s.accepted
    && |s.pending| <= PENDING_MAX
    && (s.endSaid ==> s.ended && s.pending == [])
    && (s.suspended && !s.gone ==> s.pending == [] && !s.ended && !s.cut)
    && (s.ended <==> s.app != Holds) && (s.gone <==> s.response != Holds)
    && s.freed == (if Refs(s) == 0 then 1 else 0)
  }

  lemma ReadKeeps(s: State, max: nat)
    requires Inv(s) && Enabled(s, Read(max))
    ensures Inv(DoRead(s, max))
  {
    if !s.cut && s.pending != [] {
      var n := Min(|s.pending|, max);
      assert s.pending == s.pending[..n] + s.pending[n..];
    }
  }

  lemma WriteKeeps(s: State, data: seq<Byte>, peerClosed: bool, noMemory: bool)
    requires Inv(s) && s.app == Holds
    ensures Inv(DoWrite(s, data, peerClosed, noMemory))
  {
    assert s.delivered + (s.pending + data) == (s.delivered + s.pending) + data;
  }

  lemma StepKeeps(s: State, a: Action)
    requires Inv(s) && Enabled(s, a)
    ensures Inv(Do(s, a))
  {
    hide DoRead, DoWrite;
    match a
    case Read(max) =>
      ReadKeeps(s, max);
    case Write(data, peerClosed, noMemory) =>
      WriteKeeps(s, data, peerClosed, noMemory);
    case _ =>
  }

  // A run: what each action can do, one after the other.
  ghost predicate Runs(s: State, actions: seq<Action>)
    decreases |actions|
  {
    actions == [] || (Enabled(s, actions[0]) && Runs(Do(s, actions[0]), actions[1..]))
  }

  function After(s: State, actions: seq<Action>): State
    requires Runs(s, actions)
    decreases |actions|
  {
    if actions == [] then s else After(Do(s, actions[0]), actions[1..])
  }

  lemma {:induction false} RunKeeps(s: State, actions: seq<Action>)
    requires Inv(s) && Runs(s, actions)
    ensures Inv(After(s, actions))
    decreases |actions|
  {
    if actions != [] {
      StepKeeps(s, actions[0]);
      RunKeeps(Do(s, actions[0]), actions[1..]);
    }
  }

  // From the start, whatever the order: what was accepted is what was delivered and what
  // is pending, in order, and never too much of it; a body said to be over was delivered
  // whole; a live connection is never left suspended with data, an end or a cut waiting;
  // the stream is freed when both have let go, and once.
  lemma EveryRun(actions: seq<Action>)
    requires Runs(START, actions)
    ensures var s := After(START, actions);
            && s.delivered + s.pending == s.accepted && |s.pending| <= PENDING_MAX
            && (s.endSaid ==> s.delivered == s.accepted)
            && (s.suspended && !s.gone ==> s.pending == [] && !s.ended && !s.cut)
            && (s.freed == 1 <==> s.app == LetGo && s.response == LetGo) && s.freed <= 1
  {
    RunKeeps(START, actions);
    var s := After(START, actions);
    assert s.pending == [] ==> s.delivered + s.pending == s.delivered;
  }

  // Once the body is said to be over nothing is accepted any more: what was delivered then
  // stays all there is.
  lemma {:induction false} EndIsFinal(s: State, actions: seq<Action>)
    requires Inv(s) && s.endSaid && Runs(s, actions)
    ensures After(s, actions).endSaid && After(s, actions).accepted == s.accepted == After(s, actions).delivered
    decreases |actions|
  {
    if actions == [] {
      assert s.delivered + [] == s.delivered;
    } else {
      StepKeeps(s, actions[0]);
      EndIsFinal(Do(s, actions[0]), actions[1..]);
    }
  }

  // A write that is told "ok" has its bytes accepted, and the server reading on; one that
  // is not adds nothing, and after a cut or an end none ever does.
  lemma WriteTells(s: State, data: seq<Byte>, peerClosed: bool, noMemory: bool)
    requires Inv(s) && s.app == Holds
    ensures var t := DoWrite(s, data, peerClosed, noMemory);
            && t.accepted == s.accepted + (if WriteOk(s, data, peerClosed, noMemory) then data else [])
            && (!t.gone && (data != [] || t.cut) ==> Enabled(t, Read(1)))
            && (s.cut ==> t.cut && !WriteOk(s, data, peerClosed, noMemory))
  {
    assert s.accepted + [] == s.accepted;
  }

  // When a write is told "ok": the connection is there and not cut, and what it brings fits -
  // or it brings nothing, and the client is not seen gone. Then its bytes are the last to
  // be read.
  lemma WriteOkWhen(s: State, data: seq<Byte>, peerClosed: bool, noMemory: bool)
    requires Inv(s) && s.app == Holds
    ensures WriteOk(s, data, peerClosed, noMemory) <==>
              && !s.gone && !s.cut
              && if data == [] then !(s.suspended && peerClosed)
                 else |s.pending| + |data| <= 16 * 1024 * 1024 && !noMemory
    ensures WriteOk(s, data, peerClosed, noMemory) ==>
              var t := DoWrite(s, data, peerClosed, noMemory);
              && t.pending == s.pending + data && t.accepted == s.accepted + data && t.delivered == s.delivered
              && (data != [] ==> !t.suspended)
  {
    assert s.pending + [] == s.pending && s.accepted + [] == s.accepted;
  }

  // What one read gives: bytes, as many as there are and as are asked for; the end, when it
  // was said and nothing is left; else the connection waits.
  lemma ReadGives(s: State, max: nat)
    requires Inv(s) && Enabled(s, Read(max)) && !s.cut
    ensures var t := DoRead(s, max);
            if s.pending == [] then t.delivered == s.delivered && (s.ended <==> t.endSaid)
                && (!s.ended <==> t.suspended)
            else
              && t.endSaid == s.endSaid && !t.suspended
              && s.delivered <= t.delivered && t.delivered + t.pending == s.accepted
              && |t.delivered| - |s.delivered| == (if max < |s.pending| then max else |s.pending|)
  {
    if s.pending != [] {
      ReadKeeps(s, max);
      var n := Min(|s.pending|, max);
      assert DoRead(s, max).delivered == s.delivered + s.pending[..n];
    }
  }

  // The server reads on, a byte at least a time: all that is pending is delivered,
  lemma {:induction false} PendingIsDelivered(s: State, max: nat) returns (turns: seq<Action>)
    requires Inv(s) && !s.cut && !s.suspended && s.response == Holds && max > 0
    ensures |turns| <= |s.pending| && Runs(s, turns)
    ensures After(s, turns).delivered == s.accepted == After(s, turns).accepted && After(s, turns).pending == []
    decreases |s.pending|
  {
    turns := [];
    if s.pending == [] {
      ReadToTheEnd(s);
    } else {
      var t := Do(s, Read(max));
      StepKeeps(s, Read(max));
      var more := PendingIsDelivered(t, max);
      turns := [Read(max)] + more;
      assert turns[1..] == more;
    }
  }

  // The server reads on, a byte at least a time: an ended body that was not cut is said to
  // be over, all of it delivered.
  lemma {:induction false} EndIsReached(s: State, max: nat) returns (turns: seq<Action>)
    requires Inv(s) && s.ended && !s.cut && s.response == Holds && max > 0
    ensures |turns| <= |s.pending| + 1 && Runs(s, turns)
    ensures After(s, turns).endSaid && After(s, turns).delivered == s.accepted
    decreases |s.pending|
  {
    var t := Do(s, Read(max));
    StepKeeps(s, Read(max));
    if s.pending == [] {
      turns := [Read(max)];
      assert s.delivered + [] == s.delivered;
      assert turns[1..] == [] && After(t, []) == t;
    } else {
      var more := EndIsReached(t, max);
      turns := [Read(max)] + more;
      assert turns[1..] == more;
    }
  }

  lemma ReadToTheEnd(s: State)
    requires Inv(s) && s.pending == []
    ensures s.delivered == s.accepted
  {
    assert s.delivered + [] == s.delivered;
  }

  lemma ReadIs(s: State, max: nat)
    requires Inv(s) && Enabled(s, Read(max))
    ensures Do(s, Read(max)) == DoRead(s, max) && Inv(DoRead(s, max)) && Refs(DoRead(s, max)) == Refs(s)
  {
    ReadKeeps(s, max);
  }

  lemma ReleaseIs(s: State, ofApp: bool)
    requires Inv(s) && if ofApp then s.app == LettingGo else s.response == LettingGo
    ensures var a := if ofApp then AppRelease else ResponseRelease;
            && Enabled(s, a) && Inv(Do(s, a))
            && Do(s, a) == Released(if ofApp then s.(app := LetGo) else s.(response := LetGo))
  {
    StepKeeps(s, if ofApp then AppRelease else ResponseRelease);
  }

  lemma FreedOnce(s: State)
    requires Inv(s)
    ensures s.freed == if Refs(s) == 0 then 1 else 0
  {
  }

  // ---------------------------------------------------------------------------
  // The stream itself

  // What the content reader says: bytes, -1 for the end, -2 for an error, and 0 when the
  // connection was suspended.
  datatype ReadResult = Bytes(n: nat) | EndOfStream | EndWithError | Suspended

  class CorRestStream {
    var buf: array<Byte>
    var len: nat
    var off: nat
    var size: nat
    var suspended: bool
    var ended: bool
    var cut: bool
    var gone: bool
    var refs: nat
    ghost var accepted: seq<Byte>
    ghost var delivered: seq<Byte>
    ghost var pending: seq<Byte>
    ghost var app: Owner
    ghost var response: Owner
    ghost var endSaid: bool
    ghost var freed: nat

    ghost function Now(): State
      reads this
    {
      State(accepted, delivered, pending, suspended, ended, cut, gone, app, response, endSaid, freed)
    }

    // The buffer's part: what is pending, at buf[off..len].
    ghost predicate Layout()
      reads this, buf
    {
      off <= len <= size == buf.Length && (off == len ==> len == 0) && pending == buf[off..len]
    }

    ghost predicate Valid()
      reads this, buf
    {
      Layout() && refs == Refs(Now()) && Inv(Now())
    }

    constructor ()
      ensures Valid() && fresh(buf) && Now() == START
    {
      buf := new Byte[0];
      len, off, size := 0, 0, 0;
      suspended, ended, cut, gone := false, false, false, false;
      refs := 2;
      accepted, delivered, pending, app, response, endSaid, freed := [], [], [], Holds, Holds, false, 0;
    }

    // resume
    method Resume()
      modifies this`suspended
      ensures Now() == Resumed(old(Now()))
    {
      if suspended && !gone {
        suspended := false;
      }
    }

    // Up to max of the pending bytes, into the server's buffer.
    method Take(out: array<Byte>, max: nat) returns (n: nat)
      requires Layout() && len > off && max <= out.Length && out != buf
      modifies this`off, this`len, this`delivered, this`pending, out
      ensures Layout() && n == Min(|old(pending)|, max) && n <= out.Length
      ensures Now() == Taken(old(Now()), n) && delivered == old(delivered) + out[..n]
    {
      n := if len - off < max then len - off else max;
      forall k | 0 <= k < n {
        out[k] := buf[off + k];
      }
      assert out[..n] == pending[..n];
      delivered, pending := delivered + pending[..n], pending[n..];
      off := off + n;
      assert pending == buf[off..len];
      if off == len {
        off, len := 0, 0;
      }
    }

    // streamRead: up to max bytes into the server's buffer.
    method StreamRead(out: array<Byte>, max: nat) returns (r: ReadResult)
      requires Valid() && Enabled(Now(), Read(max)) && max <= out.Length && out != buf
      modifies this, out
      ensures Valid() && buf == old(buf) && Now() == Do(old(Now()), Read(max))
      ensures match r
              case Bytes(n) => n <= max && Now().delivered == old(Now().delivered) + out[..n]
              case EndOfStream => Now().endSaid && Now().delivered == Now().accepted
              case EndWithError => cut
              case Suspended => suspended
    {
      hide Inv, Do;
      ghost var s := Now();
      ReadIs(s, max);
      if cut {
        return EndWithError;
      } else if len > off {
        var n := Take(out, max);
        return Bytes(n);
      } else if ended {
        endSaid := true;
        ReadToTheEnd(s);
        return EndOfStream;
      }
      suspended := true;
      return Suspended;
    }

    // The buffer grown to hold `need` bytes, doubling; the data in it kept.
    method Grow(need: nat, noMemory: bool) returns (ok: bool)
      requires Layout() && need > size
      modifies this`buf, this`size
      ensures Layout() && Now() == old(Now()) && ok == !noMemory && (ok ==> size >= need)
      ensures buf == old(buf) || fresh(buf)
    {
      var newSize := if size == 0 then 4096 else size;
      while newSize < need
        invariant newSize > 0 && newSize >= size
        decreases (need as int) - newSize
      {
        newSize := newSize * 2;
      }
      if noMemory {
        return false;
      }
      var bufP := new Byte[newSize];
      forall k | 0 <= k < len {
        bufP[k] := buf[k];
      }
      assert bufP[off..len] == buf[off..len];
      buf, size := bufP, newSize;
      return true;
    }

    // The write's own bytes, in room there is.
    method Append(data: seq<Byte>)
      requires Layout() && len + |data| <= size && data != []
      modifies this`len, this`accepted, this`pending, buf
      ensures Layout() && Now() == old(Now()).(accepted := old(accepted) + data, pending := old(pending) + data)
    {
      forall k | 0 <= k < |data| {
        buf[len + k] := data[k];
      }
      len, accepted, pending := len + |data|, accepted + data, pending + data;
    }

    // A write that has bytes, and may have them written: taken, or the connection cut.
    method Accept(data: seq<Byte>, noMemory: bool) returns (ok: bool, ghost failed: bool)
      requires Layout() && data != [] && !cut
      modifies this`len, this`accepted, this`pending, this`cut, this`buf, this`size, buf
      ensures Layout() && (buf == old(buf) || fresh(buf)) && (failed ==> noMemory) && ok == !cut
      ensures var s := old(Now());
              Now() == if |s.pending| + |data| > PENDING_MAX || failed then s.(cut := true)
                       else s.(accepted := s.accepted + data, pending := s.pending + data)
    {
      var need := len + |data|;
      failed := false;
      if need - off > PENDING_MAX {
        cut := true;
      } else {
        if need > size {
          var grown := Grow(need, noMemory);
          if !grown {
            cut, failed := true, true;
          }
        }
        if !cut {
          Append(data);
        }
      }
      ok := !cut;
    }

    // corRestStreamWrite. failed: the buffer had to grow, and could not.
    method StreamWrite(data: seq<Byte>, peerClosed: bool, noMemory: bool) returns (ok: bool, ghost failed: bool)
      requires Valid() && app == Holds
      modifies this, buf
      ensures Valid() && (buf == old(buf) || fresh(buf))
      ensures failed ==> noMemory
      ensures Now() == Do(old(Now()), Write(data, peerClosed, failed))
      ensures ok == WriteOk(old(Now()), data, peerClosed, failed)
    {
      hide Inv;
      ghost var s := Now();
      ok, failed := false, false;
      if |data| == 0 && suspended && !gone && peerClosed {
        cut := true;
      }
      if !gone && !ended && cut {
        Resume();
      } else if !gone && !ended && |data| == 0 {
        ok := true;
      } else if !gone && !ended {
        ok, failed := Accept(data, noMemory);
        Resume();
      }
      StepKeeps(s, Write(data, peerClosed, failed));
    }

    // corRestStreamEnd, up to its release.
    method EndMark()
      requires Valid() && app == Holds
      modifies this
      ensures Valid() && buf == old(buf) && Now() == Do(old(Now()), End)
    {
      hide Inv, DoRead, DoWrite;
      StepKeeps(Now(), End);
      ended, app := true, LettingGo;
      Resume();
    }

    // streamFree, up to its release.
    method FreeMark()
      requires Valid() && response == Holds
      modifies this
      ensures Valid() && buf == old(buf) && Now() == Do(old(Now()), Free)
    {
      hide Inv, DoRead, DoWrite;
      StepKeeps(Now(), Free);
      gone, response := true, LettingGo;
    }

    // Whose reference it was.
    method DropReference(ofApp: bool)
      modifies this`app, this`response
      ensures Now() == if ofApp then old(Now()).(app := LetGo) else old(Now()).(response := LetGo)
    {
      if ofApp {
        app := LetGo;
      } else {
        response := LetGo;
      }
    }

    // release: the last one frees.
    method Release(ofApp: bool) returns (free: bool)
      requires Valid() && if ofApp then app == LettingGo else response == LettingGo
      modifies this`refs, this`app, this`response, this`freed
      ensures Valid() && buf == old(buf)
      ensures Now() == Do(old(Now()), if ofApp then AppRelease else ResponseRelease)
      ensures free <==> old(refs) == 1
      ensures free <==> freed == 1
    {
      hide Inv, Do;
      ghost var s := Now();
      ReleaseIs(s, ofApp);
      FreedOnce(s);
      refs := refs - 1;
      DropReference(ofApp);
      free := refs == 0;
      if free {
        freed := freed + 1;
      }
    }
  }
}
