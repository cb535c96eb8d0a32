// The dechunker at work in the receive buffer: each chunk's data moved down over the
// size lines already read, up to the data moved before it
// (corRestClientParse.c:349-390).
module HttpDechunk {
  import opened Base
  import opened CStrings
  import opened HttpScan
  import opened HttpChunks
  import HttpParser

  // ---------------------------------------------------------------------------
  // strtol reads a C string: the NUL put at the end of the size line is where it stops

  lemma {:induction false} SpaceInString(s: seq<Byte>)
    ensures SkipSpace(CString(s)) == CString(SkipSpace(s))
  {
    if s != [] && s[0] != NUL {
      SpaceInString(s[1..]);
    }
  }

  lemma {:induction false} HexInString(s: seq<Byte>, acc: nat)
    ensures HexDigits(CString(s), acc) == HexDigits(s, acc)
    decreases |s|
  {
    if s != [] && IsHex(s[0]) {
      HexInString(s[1..], acc * 16 + HexVal(s[0]));
    }
  }

  lemma PrefixInString(s: seq<Byte>)
    ensures HexDigits(SkipPrefix(CString(s)), 0) == HexDigits(SkipPrefix(s), 0)
  {
    if SkipPrefix(s) != s {
      assert CString(s)[1..] == CString(s[1..]) && s[1..][1..] == s[2..];
      assert CString(s)[2..] == CString(s[1..])[1..] == CString(s[2..]);
      HexInString(s[2..], 0);
      assert CString(s)[2] == CString(s[2..])[0] == s[2];
    } else {
      var c := CString(s);
      assert |c| >= 3 ==> c[2] == s[2] && c[1] == s[1];
      HexInString(s, 0);
    }
  }

  lemma StrtolStopsAtNul(s: seq<Byte>)
    ensures Strtol16(CString(s)) == Strtol16(s)
  {
    SpaceInString(s);
    var t := SkipSpace(s);
    PrefixInString(t);
    if t != [] && (t[0] == 45 || t[0] == 43) {
      assert CString(t)[1..] == CString(t[1..]);
      PrefixInString(t[1..]);
    }
  }

  // ---------------------------------------------------------------------------
  // The buffer

  // The size line read, and its end cut off: s[from..from + len] before the LF.
  method ReadSizeLine(buf: array<Byte>, from: nat, len: nat, to: nat) returns (size: int)
    requires from + len < to <= buf.Length
    modifies buf
    ensures buf[..] == old(buf[..])[from + len := NUL]
    ensures size == Strtol16(old(buf[from..from + len]))
  {
    ghost var line := buf[from..from + len];
    buf[from + len] := NUL;
    ghost var rest := buf[from + len + 1..to];
    assert buf[from..to] == line + [NUL] + rest;
    StringEndsAtNul(line, rest);
    StrtolStopsAtNul(line);
    size := Strtol16(CString(buf[from..to]));
  }

  // These bytes with n of them copied from src down to dst.
  function Copied(b: seq<Byte>, dst: nat, src: nat, n: nat): (r: seq<Byte>)
    requires dst <= src && src + n <= |b|
    ensures |r| == |b|
  {
    b[..dst] + b[src..src + n] + b[dst + n..]
  }

  // memmove
  method MoveDown(buf: array<Byte>, dst: nat, src: nat, n: nat)
    requires dst <= src <= src + n <= buf.Length
    modifies buf
    ensures buf[..] == Copied(old(buf[..]), dst, src, n)
  {
    ghost var b := buf[..];
    forall k | dst <= k < dst + n {
      buf[k] := buf[src + (k - dst)];
    }
    assert forall k :: 0 <= k < |b| ==> buf[..][k] == Copied(b, dst, src, n)[k];
  }

  // What one turn does to the bytes: its data is at dst, and what follows the data is
  // where it was.
  ghost predicate Turned(b: seq<Byte>, after: seq<Byte>, dst: nat, src: nat, to: nat, turn: Turn<Dechunked>)
    requires dst <= src <= to <= |b|
    requires turn.Chunk? ==> turn.at + turn.size < turn.next <= to - src
  {
    && |after| == |b| && after[..dst] == b[..dst] && after[to..] == b[to..]
    && (turn.Chunk? ==>
          && after[dst..dst + turn.size] == b[src..to][turn.at..turn.at + turn.size]
          && after[src + turn.next..to] == b[src..to][turn.next..])
  }

  // The move may overlap the data's own place, but ends before the data does.
  lemma MoveTurns(b: seq<Byte>, after: seq<Byte>, dst: nat, src: nat, to: nat, len: nat, at: nat, size: nat, next: nat)
    requires dst <= src && len < at && at + size < next && src + next <= to <= |b|
    requires after == Copied(b[src + len := NUL], dst, src + at, size)
    ensures Turned(b, after, dst, src, to, Chunk(at, size, next))
  {
    hide Copied;
    MovedBytes(b, after, dst, src + len, src + at, size);
    SliceOfSlice(b, src, to, at, at + size);
    SliceOfSlice(b, src, to, next, to - src);
    MovedSlices(b, after, dst, src + at, size, src + next, to);
  }

  lemma MovedSlices(b: seq<Byte>, after: seq<Byte>, dst: nat, at: nat, size: nat, next: nat, to: nat)
    requires dst <= at && at + size <= next <= to <= |b| == |after|
    requires forall k :: 0 <= k < dst ==> after[k] == b[k]
    requires forall k :: dst <= k < dst + size ==> after[k] == b[at + (k - dst)]
    requires forall k :: at + size <= k < |b| ==> after[k] == b[k]
    ensures after[..dst] == b[..dst] && after[to..] == b[to..]
    ensures after[dst..dst + size] == b[at..at + size] && after[next..to] == b[next..to]
  {
  }

  // Byte by byte: nothing moves but the data, and only what is in front of it and the cut
  // byte can be written over.
  lemma MovedBytes(b: seq<Byte>, after: seq<Byte>, dst: nat, nul: nat, at: nat, size: nat)
    requires dst <= nul < at && at + size <= |b|
    requires after == Copied(b[nul := NUL], dst, at, size)
    ensures |after| == |b|
    ensures forall k :: 0 <= k < dst ==> after[k] == b[k]
    ensures forall k :: dst <= k < dst + size ==> after[k] == b[at + (k - dst)]
    ensures forall k :: at + size <= k < |b| ==> after[k] == b[k]
  {
  }

  // The end of a chunk whose data has been moved: the two bytes after the data are read
  // where they were.
  method EndOfData(buf: array<Byte>, at: nat, size: nat, ghost rest: seq<Byte>) returns (next: Option<nat>)
    requires at + size + 2 <= buf.Length && |rest| >= size + 2
    requires buf[at + size] == rest[size] && buf[at + size + 1] == rest[size + 1]
    ensures next == if DataEnds(rest, size) then Some(AfterData(rest, size)) else None
  {
    if buf[at + size] == CR && buf[at + size + 1] == LF {
      return Some(size + 2);
    } else if buf[at + size] == LF {
      return Some(size + 1);
    }
    return None;
  }

  // The chunk after its size line: moved, and the place of the next.
  method TakeData(buf: array<Byte>, dst: nat, src: nat, to: nat, line: Line, size: nat, ghost b: seq<Byte>)
    returns (next: Option<nat>)
    requires dst <= src && line.len < line.next && src + line.next + size + 2 <= to <= buf.Length == |b|
    requires buf[..] == b[src + line.len := NUL]
    modifies buf
    ensures var rest := b[src..to][line.next..];
            next == if DataEnds(rest, size) then Some(AfterData(rest, size)) else None
    ensures buf[..][..dst] == b[..dst] && buf[..][to..] == b[to..]
    ensures next.Some? ==> Turned(b, buf[..], dst, src, to, Chunk(line.next, size, line.next + next.value))
  {
    hide Turned, DataEnds, AfterData, Copied;
    var at := src + line.next;
    MoveDown(buf, dst, at, size);
    ghost var after, rest := buf[..], b[src..to][line.next..];
    AfterMove(b, after, dst, src, to, line, size);
    assert buf[at + size] == after[at + size] && buf[at + size + 1] == after[at + size + 1];
    next := EndOfData(buf, at, size, rest);
    if next.Some? {
      MoveTurns(b, after, dst, src, to, line.len, line.next, size, line.next + next.value);
    }
  }

  lemma AfterMove(b: seq<Byte>, after: seq<Byte>, dst: nat, src: nat, to: nat, line: Line, size: nat)
    requires dst <= src && line.len < line.next && src + line.next + size + 2 <= to <= |b|
    requires after == Copied(b[src + line.len := NUL], dst, src + line.next, size)
    ensures |after| == |b| && after[..dst] == b[..dst] && after[to..] == b[to..]
    ensures var at, rest := src + line.next, b[src..to][line.next..];
            after[at + size] == rest[size] && after[at + size + 1] == rest[size + 1]
  {
    hide Copied;
    var at := src + line.next;
    MovedBytes(b, after, dst, src + line.len, at, size);
    assert after[at + size] == b[at + size] && after[at + size + 1] == b[at + size + 1];
  }

  // One turn of the loop.
  method DechunkOnce(buf: array<Byte>, dst: nat, src: nat, to: nat) returns (turn: Turn<Dechunked>)
    requires dst <= src < to <= buf.Length
    modifies buf
    ensures turn == DechunkTurn(old(buf[..])[src..to])
    ensures Turned(old(buf[..]), buf[..], dst, src, to, turn)
  {
    ghost var b := buf[..];
    ghost var s := b[src..to];
    var found := HttpParser.FindLineEnd(buf[src..to]);
    if found.None? {
      return Answer(Short);
    }
    var line := found.value;
    assert s[..line.len] == buf[src..src + line.len];
    var size := ReadSizeLine(buf, src, line.len, to);
    TurnOf(s, line, size);
    if size == 0 {
      return Answer(Whole([]));
    } else if to - (src + line.next) < size + 2 {
      return Answer(Short);
    } else if size < 0 {
      return Answer(Undefined);
    }
    var next := TakeData(buf, dst, src, to, line, size, b);
    return if next.Some? then Chunk(line.next, size, line.next + next.value) else Answer(Bad);
  }

  // ---------------------------------------------------------------------------
  // The loop

  lemma BeforeAgain(a: seq<Byte>, b: seq<Byte>, d: Dechunked)
    ensures Before(a, Before(b, d)) == Before(a + b, d)
  {
    if d.Whole? {
      assert a + (b + d.data) == (a + b) + d.data;
    }
  }

  // b0 the bytes found, b what they are now, of which t is still to be dechunked and has
  // rest in it; the data moved so far is at from..dst.
  ghost predicate Moved(whole: Dechunked, b0: seq<Byte>, b: seq<Byte>, from: nat, dst: nat, to: nat, rest: Dechunked) {
    && from <= dst <= to <= |b| == |b0| && b[..from] == b0[..from] && b[to..] == b0[to..]
    && whole == Before(b[from..dst], rest)
  }

  lemma MovedAtFirst(whole: Dechunked, b: seq<Byte>, from: nat, to: nat)
    requires from <= to <= |b|
    ensures Moved(whole, b, b, from, from, to, whole)
  {
    assert whole.Whole? ==> [] + whole.data == whole.data;
  }

  lemma MovedAfter(whole: Dechunked, b0: seq<Byte>, b: seq<Byte>, after: seq<Byte>, from: nat, dst: nat, to: nat,
                   data: seq<Byte>, rest: Dechunked)
    requires Moved(whole, b0, b, from, dst, to, Before(data, rest))
    requires dst + |data| <= to && |after| == |b| && after[..dst] == b[..dst] && after[to..] == b[to..]
    requires after[dst..dst + |data|] == data
    ensures Moved(whole, b0, after, from, dst + |data|, to, rest)
  {
    PartOfPrefix(after, b, from, dst);
    BeforeAgain(b[from..dst], data, rest);
    Joined(after, b[from..dst], data, from, dst);
  }

  lemma Joined(a: seq<Byte>, x: seq<Byte>, y: seq<Byte>, from: nat, mid: nat)
    requires from <= mid && mid + |y| <= |a| && a[from..mid] == x && a[mid..mid + |y|] == y
    ensures a[from..mid + |y|] == x + y
  {
  }

  // What dechunk returns; NotDefined as Dechunked's Undefined.
  datatype Outcome = Length(outLen: nat) | MoreToCome | Wrong | NotDefined

  predicate Tells(r: Outcome, d: Dechunked) {
    match d
    case Whole(data) => r == Length(|data|)
    case Short => r == MoreToCome
    case Bad => r == Wrong
    case Undefined => r == NotDefined
  }

  // What the last turn's answer makes dechunk return.
  function Answered(d: Dechunked, outLen: nat): Outcome {
    match d
    case Whole(_) => Length(outLen)
    case Short => MoreToCome
    case Bad => Wrong
    case Undefined => NotDefined
  }

  lemma AnswerTells(whole: Dechunked, b0: seq<Byte>, b: seq<Byte>, after: seq<Byte>, from: nat, dst: nat, to: nat,
                    t: seq<Byte>)
    requires t != [] && DechunkTurn(t).Answer? && Moved(whole, b0, b, from, dst, to, Dechunk(t))
    requires |after| == |b| && after[..dst] == b[..dst] && after[to..] == b[to..]
    ensures var r := Answered(DechunkTurn(t).answer, dst - from);
            Tells(r, whole) && (r.Length? ==> whole == Whole(after[from..dst]))
    ensures after[..from] == b0[..from] && after[to..] == b0[to..]
  {
    UnfoldedAnswer(t);
    PartOfPrefix(after, b, from, dst);
    OnlyEmptyEnds(t);
    assert b[from..dst] + [] == b[from..dst];
  }

  // Only an empty chunk ends the data.
  lemma OnlyEmptyEnds(t: seq<Byte>)
    requires t != []
    ensures DechunkTurn(t).Answer? && DechunkTurn(t).answer.Whole? ==> DechunkTurn(t).answer.data == []
  {
  }

  // One turn of the loop, and what it leaves to do: rest, after what there was before.
  method DechunkStep(buf: array<Byte>, from: nat, dst: nat, src: nat, to: nat,
                     ghost whole: Dechunked, ghost b0: seq<Byte>, ghost t: seq<Byte>)
    returns (turn: Turn<Dechunked>, ghost rest: seq<Byte>)
    requires from <= dst <= src < to <= buf.Length
    requires t == buf[..][src..to] && Moved(whole, b0, buf[..], from, dst, to, Dechunk(t))
    modifies buf
    ensures turn.Answer? ==> var r := Answered(turn.answer, dst - from);
                             Tells(r, whole) && (r.Length? ==> whole == Whole(buf[..][from..dst]))
    ensures turn.Answer? ==> buf[..][..from] == b0[..from] && buf[..][to..] == b0[to..]
    ensures turn.Chunk? ==> && dst + turn.size <= src + turn.next <= to && turn.next > 0
                            && rest == buf[..][src + turn.next..to]
                            && Moved(whole, b0, buf[..], from, dst + turn.size, to, Dechunk(rest))
  {
    hide Dechunk, DechunkTurn;
    ghost var b := buf[..];
    rest := t;
    turn := DechunkOnce(buf, dst, src, to);
    ghost var after := buf[..];
    if turn.Answer? {
      AnswerTells(whole, b0, b, after, from, dst, to, t);
    } else {
      UnfoldedChunk(t);
      rest := t[turn.next..];
      MovedAfter(whole, b0, b, after, from, dst, to, t[turn.at..turn.at + turn.size], Dechunk(rest));
    }
  }

  // dechunk: the data of all chunks, joined, at the front of the same bytes.
  method DechunkInPlace(buf: array<Byte>, from: nat, to: nat) returns (r: Outcome)
    requires from <= to <= buf.Length
    modifies buf
    ensures Tells(r, Dechunk(old(buf[..])[from..to]))
    ensures r.Length? ==> from + r.outLen <= to
    ensures r.Length? ==> Dechunk(old(buf[..])[from..to]) == Whole(buf[..][from..from + r.outLen])
    ensures buf[..][..from] == old(buf[..])[..from] && buf[..][to..] == old(buf[..])[to..]
  {
    hide Dechunk;
    var src, dst := from, from;
    ghost var b0, t := buf[..], buf[..][from..to];
    ghost var whole := Dechunk(t);
    MovedAtFirst(whole, b0, from, to);
    while src < to
      invariant from <= dst <= src <= to && t == buf[..][src..to]
      invariant Moved(whole, b0, buf[..], from, dst, to, Dechunk(t))
      decreases (to as int) - src
    {
      var turn, rest := DechunkStep(buf, from, dst, src, to, whole, b0, t);
      if turn.Answer? {
        return Answered(turn.answer, dst - from);
      }
      src, dst, t := src + turn.next, dst + turn.size, rest;
    }
    NothingLeft(t);
    return MoreToCome;
  }

  lemma NothingLeft(t: seq<Byte>)
    requires t == []
    ensures Dechunk(t) == Short
  {
  }
}
