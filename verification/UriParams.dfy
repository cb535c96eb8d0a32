// The query string, split in place into decoded names and values (corRestInit.c:236-314),
// after its plus signs became spaces (corRestBackendBuiltin.c:479-489): as a function of
// its bytes, as the loop over the buffer, and as the inverse of joining encoded pairs.
module UriParams {
  import opened Base
  import opened CStrings
  import opened UrlCodec

  type Pair = (seq<Byte>, seq<Byte>)

  // ---------------------------------------------------------------------------
  // What a query says

  // One parameter, up to its '&': a name, and what follows the first '='.
  function Param(part: seq<Byte>): Pair {
    var k := IndexOf(part, EQ);
    if k == |part| then (Decoded(part), []) else (Decoded(part[..k]), Decoded(part[k + 1..]))
  }

  function First(s: seq<Byte>): seq<Byte> {
    s[..IndexOf(s, AMP)]
  }

  function ParseQuery(s: seq<Byte>): seq<Pair>
    decreases |s|
  {
    if s == [] then []
    else
      var part := First(s);
      [Param(part)] + if |part| == |s| then [] else ParseQuery(s[|part| + 1..])
  }

  function PlusToSpace(s: seq<Byte>): seq<Byte> {
    seq(|s|, i requires 0 <= i < |s| => if s[i] == PLUS then SPACE else s[i])
  }

  // What makes a query: the parameters between its ampersands, each a name and, behind its
  // first '=', a value; a space for every plus, and nothing else of the rest changed.
  lemma QueryMeans(name: seq<Byte>, value: seq<Byte>, rest: seq<Byte>)
    requires EQ !in name && AMP !in name && AMP !in value
    ensures ParseQuery([]) == []
    ensures name != [] ==>
              && ParseQuery(name) == [(Decoded(name), [])]
              && ParseQuery(name + [AMP] + rest) == [(Decoded(name), [])] + ParseQuery(rest)
    ensures var param := name + [EQ] + value;
            && ParseQuery(param) == [(Decoded(name), Decoded(value))]
            && ParseQuery(param + [AMP] + rest) == [(Decoded(name), Decoded(value))] + ParseQuery(rest)
  {
    hide Decoded, IndexOf;
    var param := name + [EQ] + value;
    FirstOf(name, rest);
    FirstOf(param, rest);
    IndexOfIs(name, EQ, |name|);
    assert param[..|name|] == name && param[|name| + 1..] == value;
    IndexOfIs(param, EQ, |name|);
    assert |name + [AMP] + rest| > |name| && |param + [AMP] + rest| > |param|;
  }

  lemma PlusMeans(s: seq<Byte>)
    ensures |PlusToSpace(s)| == |s|
    ensures forall k :: 0 <= k < |s| ==> PlusToSpace(s)[k] == if s[k] == Ascii("+")[0] then Ascii(" ")[0] else s[k]
  {
    assert Ascii("+") == [43] && Ascii(" ") == [32];
  }

  // ---------------------------------------------------------------------------
  // The round trip

  function Written(pair: Pair): seq<Byte> {
    Encode(pair.0) + [EQ] + Encode(pair.1)
  }

  // The pairs as a query: encoded, and joined by '&'.
  function Join(pairs: seq<Pair>): seq<Byte> {
    if pairs == [] then []
    else if |pairs| == 1 then Written(pairs[0])
    else Written(pairs[0]) + [AMP] + Join(pairs[1..])
  }

  predicate IsText(pair: Pair) {
    NUL !in pair.0 && NUL !in pair.1
  }

  // What becomes of a pair: a name is cut at its first '=', the rest of it going to the
  // value.
  function Split(pair: Pair): Pair {
    var j := IndexOf(pair.0, EQ);
    if j == |pair.0| then pair else (pair.0[..j], pair.0[j + 1..] + [EQ] + pair.1)
  }

  function SplitAll(pairs: seq<Pair>): seq<Pair> {
    if pairs == [] then [] else [Split(pairs[0])] + SplitAll(pairs[1..])
  }

  lemma DecodedEncode(s: seq<Byte>)
    requires NUL !in s
    ensures Decoded(Encode(s)) == s
  {
    DecodeUndoesEncode(s);
    CStringOfPlain(s);
  }

  // A pair whose name is '='-free comes back.
  lemma ParamOfPlain(pair: Pair)
    requires IsText(pair) && EQ !in pair.0
    ensures Param(Written(pair)) == pair
  {
    var name, value := Encode(pair.0), Encode(pair.1);
    EncodedIsPlain(pair.0);
    assert Written(pair)[..|name|] == name && Written(pair)[|name| + 1..] == value;
    IndexOfIs(Written(pair), EQ, |name|);
    DecodedEncode(pair.0);
    DecodedEncode(pair.1);
  }

  // A pair is written as the pair it is split into.
  lemma SplitIsWritten(pair: Pair)
    ensures Written(Split(pair)) == Written(pair)
    ensures EQ !in Split(pair).0 && (IsText(pair) ==> IsText(Split(pair)))
  {
    hide Encode, IndexOf;
    var j := IndexOf(pair.0, EQ);
    IndexOfMeans(pair.0, EQ);
    if j < |pair.0| {
      var name, more := pair.0[..j], pair.0[j + 1..];
      assert pair.0 == name + ([EQ] + more);
      EncodeJoins(name, [EQ] + more);
      EncodeJoins(more, [EQ] + pair.1);
      EqualsStays(more);
      EqualsStays(pair.1);
      assert more + [EQ] + pair.1 == more + ([EQ] + pair.1);
      calc {
        Written(Split(pair));
        Encode(name) + [EQ] + (Encode(more) + ([EQ] + Encode(pair.1)));
        (Encode(name) + ([EQ] + Encode(more))) + [EQ] + Encode(pair.1);
        Written(pair);
      }
    } else {
      assert pair.0[..j] == pair.0;
    }
  }

  lemma EqualsStays(s: seq<Byte>)
    ensures Encode([EQ] + s) == [EQ] + Encode(s)
  {
    assert ([EQ] + s)[1..] == s;
  }

  lemma {:induction false} JoinIsPlain(pairs: seq<Pair>)
    ensures NUL !in Join(pairs) && PLUS !in Join(pairs)
  {
    if pairs != [] {
      JoinIsPlain(pairs[1..]);
      EncodedIsPlain(pairs[0].0);
      EncodedIsPlain(pairs[0].1);
    }
  }

  lemma FirstOf(part: seq<Byte>, rest: seq<Byte>)
    requires AMP !in part
    ensures First(part) == part
    ensures First(part + [AMP] + rest) == part && (part + [AMP] + rest)[|part| + 1..] == rest
  {
    IndexOfIs(part, AMP, |part|);
    assert (part + [AMP] + rest)[..|part|] == part;
    IndexOfIs(part + [AMP] + rest, AMP, |part|);
  }

  lemma {:induction false} ParseSplits(pairs: seq<Pair>)
    requires forall pair <- pairs :: IsText(pair)
    ensures ParseQuery(Join(pairs)) == SplitAll(pairs)
  {
    if pairs != [] {
      var part := Written(pairs[0]);
      SplitIsWritten(pairs[0]);
      ParamOfPlain(Split(pairs[0]));
      EncodedIsPlain(pairs[0].0);
      EncodedIsPlain(pairs[0].1);
      FirstOf(part, Join(pairs[1..]));
      assert part != [] && |part + [AMP]| > |part|;
      if |pairs| > 1 {
        ParseSplits(pairs[1..]);
      } else {
        assert SplitAll(pairs[1..]) == [];
      }
    }
  }

  lemma {:induction false} SplitAllSame(pairs: seq<Pair>)
    ensures SplitAll(pairs) == pairs <==> forall pair <- pairs :: EQ !in pair.0
  {
    if pairs != [] {
      SplitAllSame(pairs[1..]);
      IndexOfMeans(pairs[0].0, EQ);
      var j := IndexOf(pairs[0].0, EQ);
      assert j == |pairs[0].0| <==> Split(pairs[0]) == pairs[0];
      assert j == |pairs[0].0| ==> pairs[0].0[..j] == pairs[0].0;
      assert j == |pairs[0].0| <==> EQ !in pairs[0].0;
      assert forall pair :: pair in pairs <==> pair == pairs[0] || pair in pairs[1..];
      if SplitAll(pairs) == pairs {
        assert SplitAll(pairs)[1..] == SplitAll(pairs[1..]);
        assert SplitAll(pairs)[0] == Split(pairs[0]);
      }
    }
  }

  // Joining encoded pairs and parsing, the plus signs turned to spaces in between: every
  // pair, split at its name's first '='; so the same pairs exactly when no name has one.
  lemma QueryRoundTrip(pairs: seq<Pair>)
    requires forall pair <- pairs :: IsText(pair)
    ensures ParseQuery(PlusToSpace(Join(pairs))) == SplitAll(pairs)
    ensures ParseQuery(PlusToSpace(Join(pairs))) == pairs <==> forall pair <- pairs :: EQ !in pair.0
  {
    JoinIsPlain(pairs);
    assert PlusToSpace(Join(pairs)) == Join(pairs);
    ParseSplits(pairs);
    SplitAllSame(pairs);
  }

  // ---------------------------------------------------------------------------
  // The array of parameters

  // Where a name is, and its value; None for the empty string every value is without '='.
  type Place = (nat, Option<nat>)

  const KV_SLOTS: nat := 10
  const KV_GROW: nat := 5

  class Params {
    var uriParamV: array<Place>
    var uriParamCount: nat
    var uriParamSize: nat

    ghost predicate Valid() reads this {
      uriParamCount <= uriParamSize == uriParamV.Length
    }

    ghost function Contents(): seq<Place>
      reads this, uriParamV
      requires Valid()
    {
      uriParamV[..uriParamCount]
    }

    constructor ()
      ensures Valid() && fresh(uriParamV) && Contents() == []
    {
      uriParamV, uriParamCount, uriParamSize := new Place[KV_SLOTS](_ => (0, None)), 0, KV_SLOTS;
    }

    // corRestUriParamAdd: full, the array is moved to one that is longer.
    method Add(name: nat, value: Option<nat>)
      requires Valid()
      modifies this, uriParamV
      ensures Valid() && Contents() == old(Contents()) + [(name, value)]
      ensures uriParamV == old(uriParamV) || fresh(uriParamV)
      ensures uriParamSize == old(uriParamSize) + if old(uriParamCount == uriParamSize) then KV_GROW else 0
    {
      if uriParamCount >= uriParamSize {
        var newSize := uriParamSize + KV_GROW;
        var newV := new Place[newSize](_ => (0, None));
        forall i | 0 <= i < uriParamCount {
          newV[i] := uriParamV[i];
        }
        assert newV[..uriParamCount] == uriParamV[..uriParamCount];
        uriParamV, uriParamSize := newV, newSize;
      }
      uriParamV[uriParamCount] := (name, value);
      uriParamCount := uriParamCount + 1;
    }
  }

  // ---------------------------------------------------------------------------
  // The loops

  predicate HoldsPair(b: seq<Byte>, at: Place, pair: Pair, end: nat) {
    Holds(b, at.0, pair.0, end) && if at.1.None? then pair.1 == [] else Holds(b, at.1.value, pair.1, end)
  }

  predicate HoldsPairs(b: seq<Byte>, ats: seq<Place>, pairs: seq<Pair>, end: nat) {
    |ats| == |pairs| && forall i :: 0 <= i < |ats| ==> HoldsPair(b, ats[i], pairs[i], end)
  }

  lemma HoldsPairsAfter(b: seq<Byte>, after: seq<Byte>, ats: seq<Place>, pairs: seq<Pair>, end: nat, end': nat)
    requires HoldsPairs(b, ats, pairs, end) && end <= end' <= |after| && end <= |b| && after[..end] == b[..end]
    ensures HoldsPairs(after, ats, pairs, end')
  {
    forall i | 0 <= i < |ats| ensures HoldsPair(after, ats[i], pairs[i], end') {
      HoldsAfter(b, after, ats[i].0, pairs[i].0, end, end');
      if ats[i].1.Some? {
        HoldsAfter(b, after, ats[i].1.value, pairs[i].1, end, end');
      }
    }
  }

  // The plus signs of a string, made spaces.
  method PlusPass(buf: array<Byte>, end: nat)
    requires end < buf.Length && buf[end] == NUL && NUL !in buf[..end]
    modifies buf
    ensures buf[..] == PlusToSpace(old(buf[..])[..end]) + old(buf[..])[end..]
  {
    ghost var b := buf[..];
    assert forall k :: 0 <= k < end ==> b[k] == b[..end][k];
    var p := 0;
    while buf[p] != NUL
      invariant 0 <= p <= end
      invariant forall k :: 0 <= k < p ==> buf[k] == if b[k] == PLUS then SPACE else b[k]
      invariant forall k :: p <= k < buf.Length ==> buf[k] == b[k]
      decreases end - p
    {
      if buf[p] == PLUS {
        buf[p] := SPACE;
      }
      p := p + 1;
    }
  }

  // To the next stop, or the string's end.
  method Skip(buf: array<Byte>, from: nat, ghost end: nat, atEq: bool) returns (p: nat)
    requires from <= end < buf.Length && buf[end] == NUL && NUL !in buf[from..end]
    ensures from <= p <= end && (p < end ==> buf[p] == AMP || (atEq && buf[p] == EQ))
    ensures AMP !in buf[from..p] && (atEq ==> EQ !in buf[from..p])
  {
    p := from;
    while buf[p] != NUL && buf[p] != AMP && !(atEq && buf[p] == EQ)
      invariant from <= p <= end
      invariant AMP !in buf[from..p] && (atEq ==> EQ !in buf[from..p])
      decreases end - p
    {
      assert buf[from..p + 1] == buf[from..p] + [buf[p]];
      p := p + 1;
    }
    assert p < end ==> buf[p] == buf[from..end][p - from];
  }

  // Where the parameter that starts at p ends; its name, up to k, and its value.
  lemma PartAt(b: seq<Byte>, p: nat, k: nat, q: nat, end: nat)
    requires p <= k <= q <= end <= |b| && AMP !in b[p..k] && EQ !in b[p..k]
    requires k < q ==> b[k] == EQ && AMP !in b[k + 1..q]
    requires q < end ==> b[q] == AMP
    ensures var s := b[p..end];
            && First(s) == b[p..q] && (q < end ==> s[|First(s)| + 1..] == b[q + 1..end])
            && Param(First(s)) == if k < q then (Decoded(b[p..k]), Decoded(b[k + 1..q])) else (Decoded(b[p..q]), [])
  {
    var s, part := b[p..end], b[p..q];
    assert part[..k - p] == b[p..k] && s[..q - p] == part;
    assert AMP !in part by {
      if k < q {
        assert part == b[p..k] + [EQ] + b[k + 1..q];
      }
    }
    IndexOfIs(s, AMP, q - p);
    IndexOfIs(part, EQ, k - p);
    if k < q {
      assert part[k - p + 1..] == b[k + 1..q];
    } else {
      assert part[..] == part;
    }
  }

  lemma PlainPart(b: seq<Byte>, from: nat, end: nat, i: nat, j: nat)
    requires from <= i <= j <= end <= |b| && NUL !in b[from..end]
    ensures NUL !in b[i..j]
  {
    SliceOfSlice(b, from, end, i - from, j - from);
  }

  // Name and value, with the NULs written after them, decoded one after the other.
  method DecodeBoth(buf: array<Byte>, p: nat, k: nat, ghost q: nat, ghost name: seq<Byte>, ghost value: seq<Byte>)
    requires p <= k < q < buf.Length && buf[k] == NUL == buf[q]
    requires name == buf[..][p..k] && value == buf[..][k + 1..q] && NUL !in name && NUL !in value
    modifies buf
    ensures HoldsPair(buf[..], (p, Some(k + 1)), (Decoded(name), Decoded(value)), q + 1) && buf[q] == NUL
    ensures buf[..][..p] == old(buf[..])[..p] && buf[..][q + 1..] == old(buf[..])[q + 1..]
  {
    hide Decoded, Holds;
    ghost var b := buf[..];
    assert buf[p..k] == name;
    DecodeInPlace(buf, p, k);
    ghost var b1 := buf[..];
    assert forall i :: k + 1 <= i < |b| ==> b1[i] == b1[k + 1..][i - (k + 1)] == b[k + 1..][i - (k + 1)] == b[i];
    assert buf[k + 1..q] == b1[k + 1..q] == value;
    assert forall i :: k + 1 <= i < q ==> b1[i] == value[i - (k + 1)];
    if buf[k + 1] != NUL {
      DecodeInPlace(buf, k + 1, q);
    } else {
      EmptyHolds(b1, k + 1, q + 1);
    }
    ghost var b2 := buf[..];
    HoldsAfter(b1, b2, p, Decoded(name), k + 1, q + 1);
    PartOfPrefix(b2, b1, p, k + 1);
    assert b1[q + 1..] == b[q + 1..];
  }

  lemma EmptyHolds(b: seq<Byte>, at: nat, end: nat)
    requires at < end <= |b| && b[at] == NUL
    ensures Holds(b, at, Decoded([]), end)
  {
  }

  // One turn of the loop: the parameter that starts at p, which ends at q.
  method ParseParam(buf: array<Byte>, p: nat, ghost end: nat)
    returns (value: Option<nat>, p': nat, ghost q: nat)
    requires p < end < buf.Length && buf[end] == NUL && NUL !in buf[p..end]
    modifies buf
    ensures var s := old(buf[..])[p..end];
            q == p + |First(s)| && HoldsPair(buf[..], (p, value), Param(First(s)), q + 1)
    ensures p <= q <= end && buf[q] == NUL && p' == if q < end then q + 1 else end
    ensures buf[..][..p] == old(buf[..])[..p] && buf[..][q + 1..] == old(buf[..])[q + 1..]
  {
    hide Decoded, Holds, First, Param;
    ghost var b := buf[..];
    var k := Skip(buf, p, end, true);
    PlainPart(b, p, end, p, k);
    assert buf[p..end] == b[p..end] && buf[p..k] == b[p..k];
    if buf[k] == EQ {
      value, p', q := TakeValue(buf, p, k, end);
      return;
    }
    p', q := k, k;
    PartAt(b, p, k, k, end);
    if buf[k] == AMP {
      buf[k] := NUL;
      p' := k + 1;
    }
    assert buf[p..k] == b[p..k];
    DecodeInPlace(buf, p, k);
    return None, p', q;
  }

  // The rest of a parameter whose '=' is at k.
  method TakeValue(buf: array<Byte>, p: nat, k: nat, ghost end: nat)
    returns (value: Option<nat>, p': nat, ghost q: nat)
    requires p <= k < end < buf.Length && buf[end] == NUL && NUL !in buf[p..end]
    requires buf[k] == EQ && AMP !in buf[p..k] && EQ !in buf[p..k]
    modifies buf
    ensures var s := old(buf[..])[p..end];
            q == p + |First(s)| && HoldsPair(buf[..], (p, value), Param(First(s)), q + 1)
    ensures p <= q <= end && buf[q] == NUL && p' == if q < end then q + 1 else end
    ensures buf[..][..p] == old(buf[..])[..p] && buf[..][q + 1..] == old(buf[..])[q + 1..]
  {
    hide Decoded, Holds, HoldsPair, First, Param;
    ghost var b := buf[..];
    assert b[p..end] == buf[p..end] && b[p..k] == buf[p..k];
    PlainPart(b, p, end, k + 1, end);
    buf[k] := NUL;
    assert buf[k + 1..end] == b[k + 1..end];
    p' := Skip(buf, k + 1, end, false);
    q := p';
    assert buf[k + 1..q] == b[k + 1..q];
    PartAt(b, p, k, q, end);
    PlainPart(b, p, end, p, k);
    PlainPart(b, p, end, k + 1, q);
    if buf[p'] == AMP {
      buf[p'] := NUL;
      p' := p' + 1;
    }
    assert buf[..] == b[k := NUL][q := NUL];
    DecodeBoth(buf, p, k, q, b[p..k], b[k + 1..q]);
    value := Some(k + 1);
  }

  lemma QueryOn(t: seq<Byte>)
    requires t != []
    ensures ParseQuery(t) == [Param(First(t))] + ParseQuery(if |First(t)| < |t| then t[|First(t)| + 1..] else [])
  {
  }

  lemma MorePairs(b: seq<Byte>, after: seq<Byte>, ats: seq<Place>, pairs: seq<Pair>, end: nat, end': nat, at: Place,
                  pair: Pair)
    requires HoldsPairs(b, ats, pairs, end) && end <= end' <= |after| && end <= |b| && after[..end] == b[..end]
    requires HoldsPair(after, at, pair, end')
    ensures HoldsPairs(after, ats + [at], pairs + [pair], end')
  {
    HoldsPairsAfter(b, after, ats, pairs, end, end');
  }

  // One turn, its parameter on the array: t is what there was to parse, t' what there is.
  method AddParam(buf: array<Byte>, p: nat, ghost end: nat, params: Params,
                  ghost t: seq<Byte>, ghost done: seq<Pair>, ghost e: nat)
    returns (p': nat, ghost t': seq<Byte>, ghost e': nat)
    requires e <= p < end < buf.Length && t == buf[..][p..end] && NUL !in t && buf[end] == NUL
    requires params.Valid() && HoldsPairs(buf[..], params.Contents(), done, e)
    modifies buf, params, params.uriParamV
    ensures params.Valid() && (params.uriParamV == old(params.uriParamV) || fresh(params.uriParamV))
    ensures p < p' <= end && (e' <= p' || (p' == end && e' == end + 1))
    ensures HoldsPairs(buf[..], params.Contents(), done + [Param(First(t))], e')
    ensures ParseQuery(t) == [Param(First(t))] + ParseQuery(t')
    ensures t' == buf[..][p'..end] && NUL !in t' && buf[end] == NUL
    ensures buf[..][end + 1..] == old(buf[..])[end + 1..]
  {
    hide ParseQuery, Param, First, HoldsPair, HoldsPairs;
    ghost var b, ats := buf[..], params.Contents();
    assert buf[p..end] == t;
    QueryOn(t);
    var value;
    ghost var q;
    value, p', q := ParseParam(buf, p, end);
    ghost var after := buf[..];
    PartOfPrefix(after, b, e, p);
    Tails(b, after, t, p, q, end);
    MorePairs(b, after, ats, done, e, q + 1, (p, value), Param(First(t)));
    params.Add(p, value);
    assert buf[..] == after && params.Contents() == ats + [(p, value)];
    t', e' := if q < end then t[q - p + 1..] else [], q + 1;
  }

  // corRestUriParamsParse: one parameter after the other, onto the array.
  method ParseParams(buf: array<Byte>, ghost end: nat, params: Params)
    requires end < buf.Length && buf[end] == NUL && NUL !in buf[..end]
    requires params.Valid() && params.Contents() == []
    modifies buf, params, params.uriParamV
    ensures params.Valid()
    ensures HoldsPairs(buf[..], params.Contents(), ParseQuery(old(buf[..])[..end]), end + 1)
    ensures buf[..][end + 1..] == old(buf[..])[end + 1..]
  {
    hide ParseQuery, Param, First, HoldsPairs;
    ghost var b0, s := buf[..], buf[..][..end];
    ghost var t, done, e: nat := s, [], 0;
    var p := 0;
    assert s == buf[..end] && b0[0..end] == s;
    NoPairs(b0);
    while buf[p] != NUL
      invariant 0 <= p <= end && t == buf[..][p..end] && NUL !in t && buf[end] == NUL
      invariant e <= p || (p == end && e == end + 1)
      invariant buf[..][end + 1..] == b0[end + 1..]
      invariant params.Valid() && HoldsPairs(buf[..], params.Contents(), done, e)
      invariant done + ParseQuery(t) == ParseQuery(s)
      invariant params.uriParamV == old(params.uriParamV) || fresh(params.uriParamV)
      decreases end - p
    {
      ghost var pair := Param(First(t));
      var p', t', e' := AddParam(buf, p, end, params, t, done, e);
      assert (done + [pair]) + ParseQuery(t') == done + ([pair] + ParseQuery(t'));
      p, t, e, done := p', t', e', done + [pair];
    }
    assert forall i :: p <= i < end ==> t[i - p] == buf[i];
    NothingLeft(t, done);
    HoldsPairsAfter(buf[..], buf[..], params.Contents(), done, e, end + 1);
  }

  lemma NoPairs(b: seq<Byte>)
    ensures HoldsPairs(b, [], [], 0)
  {
  }

  lemma NothingLeft(t: seq<Byte>, done: seq<Pair>)
    requires t == []
    ensures done + ParseQuery(t) == done
  {
  }

  // What follows a parameter is as it was.
  lemma Tails(b: seq<Byte>, after: seq<Byte>, t: seq<Byte>, p: nat, q: nat, end: nat)
    requires p <= q <= end < |b| == |after| && t == b[p..end] && after[q + 1..] == b[q + 1..]
    requires NUL !in t && b[end] == NUL
    ensures after[end + 1..] == b[end + 1..]
    ensures q < end ==> after[q + 1..end] == t[q - p + 1..] && NUL !in t[q - p + 1..] && after[end] == NUL
  {
    assert forall i :: q + 1 <= i < |b| ==> after[i] == after[q + 1..][i - (q + 1)] == b[q + 1..][i - (q + 1)] == b[i];
  }
}
