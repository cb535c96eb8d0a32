// What corRestClientParseResponse leaves in the receive buffer - NULs over the colons and
// over the line ends - and what a second parse of it finds: the multi-request engine makes
// one, when the peer closes (corRestClientParse.c:241-342 and 455-547,
// corRestClientMulti.c:922-940).
module HttpMarks {
  import opened Base
  import opened CStrings
  import opened HttpScan
  import opened HttpChunks
  import opened HttpResponse

  // Where the text after the code starts.
  function TextAt(line: seq<Byte>): nat
    requires ParseCode(line).Some?
  {
    var k := FirstSpace(line) + 4;
    if k < |line| && line[k] == SP then k + 1 else k
  }

  // The status line, s[..len]: its text is ended by a NUL, when there is one.
  function MarkedStatus(s: seq<Byte>, len: nat): (r: seq<Byte>)
    requires len < |s| && ParseCode(s[..len]).Some?
    ensures |r| == |s|
  {
    if TextAt(s[..len]) < len then s[len := NUL] else s
  }

  // A header line, s[..len]: its name and its value are ended by NULs, when it has a colon.
  function MarkedLine(s: seq<Byte>, len: nat): (r: seq<Byte>)
    requires len < |s|
    ensures |r| == |s|
  {
    var colon := Colon(s[..len]);
    if colon < len then s[colon := NUL][len := NUL] else s
  }

  // The header block, and what follows as it was.
  function Marked(s: seq<Byte>): (r: seq<Byte>)
    ensures |r| == |s|
    decreases |s|
  {
    if s == [] then s
    else
      match FindCrlf(s)
      case None => s
      case Some(line) =>
        if line.len == 0 then s else MarkedLine(s, line.len)[..line.next] + Marked(s[line.next..])
  }

  // The buffer s after a parse of it. residue: what the dechunker left of the body, as long
  // as it was, when there was one to dechunk.
  function Left(s: seq<Byte>, residue: seq<Byte>): seq<Byte> {
    match FindCrlf(s)
    case None => s
    case Some(line) =>
      if ParseCode(s[..line.len]).None? then s
      else
        var marked := MarkedStatus(s, line.len)[..line.next] + Marked(s[line.next..]);
        if ParsedBlock(s).None? then marked
        else
          var (body, fr) := ParsedBlock(s).value;
          if fr.chunked && |residue| == |body| then marked[..|s| - |body|] + residue else marked
  }

  // The status line is one, and the bytes do not stop inside a header line: the empty line is
  // there, or the end of some other line is the end of the bytes.
  predicate LinesWhole(s: seq<Byte>) {
    FindCrlf(s).Some? && ParseCode(s[..FindCrlf(s).value.len]).Some? && ParsedBlock(s).Some?
  }

  // ---------------------------------------------------------------------------
  // The second parse

  // Every line in front of the empty one ends in CR LF (section 2.2 of RFC 9112).
  predicate CrlfLines(s: seq<Byte>)
    decreases |s|
  {
    s == [] ||
    match FindCrlf(s)
    case None => true
    case Some(line) => line.len == 0 || (line.next == line.len + 2 && CrlfLines(s[line.next..]))
  }

  predicate CrlfResponse(s: seq<Byte>) {
    FindCrlf(s).Some? ==> FindCrlf(s).value.next == FindCrlf(s).value.len + 2 && CrlfLines(s[FindCrlf(s).value.next..])
  }

  // With its CR a NUL, a line is one byte longer.
  lemma LineWithoutCr(s: seq<Byte>, m: seq<Byte>, len: nat)
    requires FindCrlf(s) == Some(Line(len, len + 2)) && len + 2 <= |m| && m[len] == NUL && m[len + 1] == LF
    requires forall k :: 0 <= k < len ==> m[k] == s[k] || m[k] == NUL
    ensures FindCrlf(m) == Some(Line(len + 1, len + 2))
  {
    IndexOfMeans(s, LF);
    forall k | 0 <= k < len + 1 ensures m[k] != LF {
      assert s[..len + 1][k] == s[k];
    }
    IndexOfIs(m, LF, len + 1);
  }

  // A line whose first colon has become a NUL names none of the headers that matter.
  lemma MarkedLineSaysNothing(l: seq<Byte>, at: nat, fr: Framing)
    requires at < |l| && l[at] == NUL && forall k :: 0 <= k < at ==> l[k] != COLON
    ensures ParseLine(l, fr) == fr
  {
    hide IndexOf, Atoi, ContainsFold, CString, SkipBlanks;
    IndexOfMeans(l, COLON);
    if Colon(l) < |l| {
      assert Colon(l) > at && Lower(l[at]) == 0;
    }
  }

  lemma NoColon(l: seq<Byte>, fr: Framing)
    requires Colon(l) == |l|
    ensures ParseLine(l, fr) == fr
  {
  }

  lemma Unfold(m: seq<Byte>, fr: Framing)
    requires FindCrlf(m).Some? && FindCrlf(m).value.len != 0
    ensures Headers(m, fr, ParseLine) ==
            Headers(m[FindCrlf(m).value.next..], ParseLine(m[..FindCrlf(m).value.len], fr), ParseLine)
  {
  }

  // What becomes of the end of a marked block. A line with a colon that ends in LF alone has
  // lost its end, and goes on into the next (joined): into the empty line, which is then
  // swallowed, or to where the bytes stop.
  datatype Fate = Kept | Cut | Swallowed

  predicate LosesEnd(s: seq<Byte>, line: Line)
    requires line.len < line.next <= |s|
  {
    Colon(s[..line.len]) < line.len && line.next == line.len + 1
  }

  function FateOf(s: seq<Byte>, joined: bool): Fate
    decreases |s|
  {
    if s == [] then if joined then Cut else Kept
    else
      match FindCrlf(s)
      case None => Cut
      case Some(line) =>
        if line.len == 0 then if joined then Swallowed else Kept
        else FateOf(s[line.next..], LosesEnd(s, line))
  }

  // What a second reading of the block comes to, with these bytes behind it.
  function Reread(fate: Fate, tail: seq<Byte>, fr: Framing): Option<(seq<Byte>, Framing)> {
    match fate
    case Kept => Some((tail, fr))
    case Cut => None
    case Swallowed => Headers(tail, fr, ParseLine)
  }

  // A piece of a marked text without a line's end, its last byte a NUL.
  predicate IsPiece(p: seq<Byte>) {
    p != [] && LF !in p && p[|p| - 1] == NUL
  }

  // The line that starts with this piece, if it ends, ends no sooner, and what follows it is
  // read as that.
  ghost predicate GoesOn(m: seq<Byte>, p: seq<Byte>, fate: Fate, tail: seq<Byte>, fr: Framing) {
    match FindCrlf(m)
    case None => fate.Cut?
    case Some(line) => p <= m[..line.len] && Headers(m[line.next..], fr, ParseLine) == Reread(fate, tail, fr)
  }

  // The bytes behind the header block; none when it does not end.
  function Behind(s: seq<Byte>, fr: Framing): (r: seq<Byte>)
    ensures |r| <= |s|
  {
    match Headers(s, fr, ParseLine)
    case None => []
    case Some((body, _)) => body
  }

  // A marked block with this behind it.
  function MarkedWith(s: seq<Byte>, tail: seq<Byte>): seq<Byte>
    requires |tail| <= |s|
  {
    Marked(s)[..|s| - |tail|] + tail
  }

  // How long the line is that ends with q, without its end.
  function LenOf(q: seq<Byte>): nat
    requires |q| >= 2
  {
    if q[|q| - 2] == CR then |q| - 2 else |q| - 1
  }

  predicate IsEnded(q: seq<Byte>) {
    |q| >= 2 && q[|q| - 1] == LF && LF !in q[..|q| - 1]
  }

  // A piece in front of a line makes it longer.
  lemma LineIsFound(p: seq<Byte>, q: seq<Byte>, rest: seq<Byte>)
    requires LF !in p && IsEnded(q)
    ensures var m, n := p + (q + rest), |p| + LenOf(q);
            FindCrlf(m) == Some(Line(n, |p| + |q|)) && m[..n] == p + q[..LenOf(q)] && m[|p| + |q|..] == rest
  {
    var m, k := p + (q + rest), |p| + |q| - 1;
    assert m[..k] == p + q[..|q| - 1];
    assert m[k] == q[|q| - 1] && m[k - 1] == q[|q| - 2];
    IndexOfIs(m, LF, k);
  }

  // The empty line, behind a piece, ends it.
  lemma EmptyLineIsSwallowed(p: seq<Byte>, s: seq<Byte>, tail: seq<Byte>)
    requires IsPiece(p) && FindCrlf(s).Some? && FindCrlf(s).value.len == 0
    ensures var n := FindCrlf(s).value.next;
            var m := p + (s[..n] + tail);
            FindCrlf(m) == Some(Line(|p|, |p| + n)) && m[..|p|] == p && m[|p| + n..] == tail
  {
    IndexOfMeans(s, LF);
    var n := FindCrlf(s).value.next;
    var m, k := p + (s[..n] + tail), |p| + n - 1;
    assert m[..k] == p + s[..n - 1];
    assert m[k] == s[n - 1];
    assert m[k - 1] == if n == 1 then p[|p| - 1] else s[n - 2];
    IndexOfIs(m, LF, k);
  }

  // The bytes of a line that is not empty, marked.
  function FirstOf(s: seq<Byte>): seq<Byte>
    requires FindCrlf(s).Some?
  {
    MarkedLine(s, FindCrlf(s).value.len)[..FindCrlf(s).value.next]
  }

  lemma FirstIs(s: seq<Byte>)
    requires FindCrlf(s).Some? && FindCrlf(s).value.len > 0
    ensures var q := FirstOf(s); if LosesEnd(s, FindCrlf(s).value) then IsPiece(q) else IsEnded(q)
  {
    hide Colon;
    IndexOfMeans(s, LF);
    assert LF !in s[..FindCrlf(s).value.next - 1];
  }

  // Whatever follows it, the line says nothing.
  lemma FirstSaysNothing(s: seq<Byte>, l: seq<Byte>, fr: Framing)
    requires FindCrlf(s).Some? && FindCrlf(s).value.len > 0
    requires if LosesEnd(s, FindCrlf(s).value) then FirstOf(s) <= l
             else IsEnded(FirstOf(s)) && l == FirstOf(s)[..LenOf(FirstOf(s))]
    ensures ParseLine(l, fr) == fr
  {
    hide ParseLine, IndexOf;
    var line, q := FindCrlf(s).value, FirstOf(s);
    var c := Colon(s[..line.len]);
    IndexOfMeans(s[..line.len], COLON);
    IndexOfMeans(s, LF);
    if c < line.len {
      assert forall k :: 0 <= k < c ==> l[k] == q[k] == s[k] == s[..line.len][..c][k] != COLON;
      assert l[c] == q[c] == NUL;
      MarkedLineSaysNothing(l, c, fr);
    } else {
      assert l == s[..line.len];
      NoColon(l, fr);
    }
  }

  lemma MarkedUnfolds(s: seq<Byte>, fr: Framing, tail: seq<Byte>)
    requires FindCrlf(s).Some? && FindCrlf(s).value.len > 0 && |tail| == |Behind(s, fr)|
    ensures var line := FindCrlf(s).value;
            var rest, fr' := s[line.next..], ParseLine(s[..line.len], fr);
            && |tail| == |Behind(rest, fr')|
            && MarkedWith(s, tail) == FirstOf(s) + MarkedWith(rest, tail)
            && forall joined: bool :: FateOf(s, joined) == FateOf(rest, LosesEnd(s, line))
  {
    hide FindCrlf, MarkedLine, ParseLine, LosesEnd;
    var rest := s[FindCrlf(s).value.next..];
    assert Marked(s)[..|s| - |tail|] == FirstOf(s) + Marked(rest)[..|rest| - |tail|];
  }

  // A block whose first line has lost its end: what the rest comes to, it comes to.
  lemma GoesOnToHeaders(s: seq<Byte>, m: seq<Byte>, fate: Fate, tail: seq<Byte>, fr: Framing)
    requires FindCrlf(s).Some? && FindCrlf(s).value.len > 0 && LosesEnd(s, FindCrlf(s).value)
    requires FirstOf(s) <= m && FirstOf(s) != [] && GoesOn(m, FirstOf(s), fate, tail, fr)
    ensures Headers(m, fr, ParseLine) == Reread(fate, tail, fr)
  {
    hide FindCrlf, ParseLine, FirstOf, LosesEnd, Reread;
    if FindCrlf(m).Some? {
      FirstSaysNothing(s, m[..FindCrlf(m).value.len], fr);
      Unfold(m, fr);
    } else {
      CutIsNone(fate, tail, fr);
    }
  }

  lemma CutIsNone(fate: Fate, tail: seq<Byte>, fr: Framing)
    ensures fate.Cut? ==> Reread(fate, tail, fr) == None
  {
  }

  // The piece p and a marked block behind it, or the block alone, whatever is behind that.
  ghost predicate ReadsAs(s: seq<Byte>, p: seq<Byte>, tail: seq<Byte>, fr: Framing)
    requires |tail| <= |s|
  {
    var m, fate := p + MarkedWith(s, tail), FateOf(s, p != []);
    if p == [] then Headers(m, fr, ParseLine) == Reread(fate, tail, fr) else GoesOn(m, p, fate, tail, fr)
  }

  lemma {:induction false} SecondBlock(s: seq<Byte>, p: seq<Byte>, fr: Framing, tail: seq<Byte>, fr': Framing)
    requires (p == [] || IsPiece(p)) && |tail| == |Behind(s, fr)|
    ensures ReadsAs(s, p, tail, fr')
    decreases |s|
  {
    hide FindCrlf, ParseLine, FirstOf, LosesEnd, FateOf, MarkedWith, Behind, ReadsAs, IsPiece, IsEnded;
    if s == [] || FindCrlf(s).None? {
      SecondEnd(s, p, fr, tail, fr');
    } else if FindCrlf(s).value.len == 0 {
      SecondEmptyLine(s, p, fr, tail, fr');
    } else {
      var line := FindCrlf(s).value;
      var rest, fr1 := s[line.next..], ParseLine(s[..line.len], fr);
      MarkedUnfolds(s, fr, tail);
      FirstIs(s);
      if LosesEnd(s, line) {
        PiecesJoin(p, FirstOf(s));
        SecondBlock(rest, p + FirstOf(s), fr1, tail, fr');
        SecondJoined(s, p, fr, tail, fr');
      } else {
        SecondBlock(rest, [], fr1, tail, fr');
        SecondLine(s, p, fr, tail, fr');
      }
    }
  }

  // The first line has lost its end: the piece is longer.
  lemma SecondJoined(s: seq<Byte>, p: seq<Byte>, fr: Framing, tail: seq<Byte>, fr': Framing)
    requires FindCrlf(s).Some? && FindCrlf(s).value.len > 0 && LosesEnd(s, FindCrlf(s).value) && FirstOf(s) != []
    requires |tail| == |Behind(s, fr)| && |tail| <= |s[FindCrlf(s).value.next..]|
    requires ReadsAs(s[FindCrlf(s).value.next..], p + FirstOf(s), tail, fr')
    ensures ReadsAs(s, p, tail, fr')
  {
    hide FindCrlf, ParseLine, FirstOf, LosesEnd, Reread, FateOf, MarkedWith, Behind, GoesOn, Headers;
    var q, rest, m := FirstOf(s), s[FindCrlf(s).value.next..], p + MarkedWith(s, tail);
    MarkedUnfolds(s, fr, tail);
    assert m == (p + q) + MarkedWith(rest, tail);
    if p == [] {
      assert p + q == q;
      GoesOnToHeaders(s, m, FateOf(rest, true), tail, fr');
    } else {
      GoesOnSooner(m, p, q, FateOf(rest, true), tail, fr');
    }
  }

  // It has its end: behind it the block is read for itself.
  lemma SecondLine(s: seq<Byte>, p: seq<Byte>, fr: Framing, tail: seq<Byte>, fr': Framing)
    requires FindCrlf(s).Some? && FindCrlf(s).value.len > 0 && !LosesEnd(s, FindCrlf(s).value) && IsEnded(FirstOf(s))
    requires (p == [] || IsPiece(p)) && |tail| == |Behind(s, fr)| && |tail| <= |s[FindCrlf(s).value.next..]|
    requires ReadsAs(s[FindCrlf(s).value.next..], [], tail, fr')
    ensures ReadsAs(s, p, tail, fr')
  {
    hide FindCrlf, ParseLine, FirstOf, LosesEnd, Reread, FateOf, MarkedWith, Behind, GoesOn, Headers, IsPiece, IsEnded;
    var rest := s[FindCrlf(s).value.next..];
    var rest' := MarkedWith(rest, tail);
    MarkedUnfolds(s, fr, tail);
    NoEndInside(p);
    assert [] + rest' == rest';
    LineIsRead(s, p, rest', FateOf(rest, false), tail, fr');
  }

  lemma NoEndInside(p: seq<Byte>)
    requires p == [] || IsPiece(p)
    ensures LF !in p
  {
  }

  lemma PiecesJoin(p: seq<Byte>, q: seq<Byte>)
    requires (p == [] || IsPiece(p)) && IsPiece(q)
    ensures IsPiece(p + q) && q != []
  {
  }

  lemma GoesOnSooner(m: seq<Byte>, p: seq<Byte>, q: seq<Byte>, fate: Fate, tail: seq<Byte>, fr: Framing)
    requires GoesOn(m, p + q, fate, tail, fr)
    ensures GoesOn(m, p, fate, tail, fr)
  {
    hide FindCrlf, Headers, Reread;
  }

  lemma LineIsRead(s: seq<Byte>, p: seq<Byte>, rest: seq<Byte>, fate: Fate, tail: seq<Byte>, fr: Framing)
    requires FindCrlf(s).Some? && FindCrlf(s).value.len > 0 && !LosesEnd(s, FindCrlf(s).value) && IsEnded(FirstOf(s))
    requires LF !in p && Headers(rest, fr, ParseLine) == Reread(fate, tail, fr)
    ensures var m := p + (FirstOf(s) + rest);
            if p == [] then Headers(m, fr, ParseLine) == Reread(fate, tail, fr) else GoesOn(m, p, fate, tail, fr)
  {
    hide FindCrlf, ParseLine, FirstOf, LosesEnd, Reread, IsEnded, Headers;
    var q := FirstOf(s);
    var m := p + (q + rest);
    LineIsFound(p, q, rest);
    if p == [] {
      LineIsLong(s);
      assert p + q[..LenOf(q)] == q[..LenOf(q)];
      FirstSaysNothing(s, q[..LenOf(q)], fr);
      Unfold(m, fr);
    }
  }

  lemma LineIsLong(s: seq<Byte>)
    requires FindCrlf(s).Some? && FindCrlf(s).value.len > 0 && IsEnded(FirstOf(s))
    ensures LenOf(FirstOf(s)) > 0
  {
    hide Colon;
    IndexOfMeans(s, LF);
  }

  // No further line.
  lemma SecondEnd(s: seq<Byte>, p: seq<Byte>, fr: Framing, tail: seq<Byte>, fr': Framing)
    requires s == [] || FindCrlf(s).None?
    requires (p == [] || IsPiece(p)) && |tail| == |Behind(s, fr)|
    ensures ReadsAs(s, p, tail, fr')
  {
    IndexOfMeans(s, LF);
    assert s != [] ==> s[..|s|] == s && LF !in s;
    assert MarkedWith(s, tail) == s;
    var m := p + s;
    assert m[..|m|] == m && LF !in m;
    IndexOfIs(m, LF, |m|);
    assert p == [] ==> m == s;
  }

  // The empty line, or the rest of a piece.
  lemma SecondEmptyLine(s: seq<Byte>, p: seq<Byte>, fr: Framing, tail: seq<Byte>, fr': Framing)
    requires FindCrlf(s).Some? && FindCrlf(s).value.len == 0
    requires (p == [] || IsPiece(p)) && |tail| == |Behind(s, fr)|
    ensures ReadsAs(s, p, tail, fr')
  {
    hide FindCrlf, ParseLine, IsPiece;
    var n := FindCrlf(s).value.next;
    EmptyLineMarked(s, fr, tail);
    if p == [] {
      var m := s[..n] + tail;
      assert p + m == m && m[..n] == s[..n] && m[n..] == tail;
      CrlfIsLocal(s, m);
    } else {
      EmptyLineIsSwallowed(p, s, tail);
    }
  }

  lemma EmptyLineMarked(s: seq<Byte>, fr: Framing, tail: seq<Byte>)
    requires FindCrlf(s).Some? && FindCrlf(s).value.len == 0 && |tail| == |Behind(s, fr)|
    ensures MarkedWith(s, tail) == s[..FindCrlf(s).value.next] + tail
  {
    hide FindCrlf;
  }

  lemma CodeOfMore(l: seq<Byte>, l': seq<Byte>)
    requires ParseCode(l).Some? && l <= l'
    ensures ParseCode(l') == ParseCode(l)
  {
    var k := FirstSpace(l);
    IndexOfMeans(l, SP);
    assert l'[..k] == l[..k];
    IndexOfIs(l', SP, k);
    assert l'[k + 1..][0] == l[k + 1..][0] && l'[k + 1..][1] == l[k + 1..][1] && l'[k + 1..][2] == l[k + 1..][2];
  }

  // The status line loses its end: it has a text, and ends in LF alone.
  predicate StatusLosesEnd(s: seq<Byte>, line: Line)
    requires line.len < line.next <= |s| && ParseCode(s[..line.len]).Some?
  {
    TextAt(s[..line.len]) < line.len && line.next == line.len + 1
  }

  // What is left behind the header block.
  function TailOf(s: seq<Byte>, residue: seq<Byte>): seq<Byte>
    requires FindCrlf(s).Some? && ParsedBlock(s).Some?
  {
    var (body, fr) := ParsedBlock(s).value;
    if fr.chunked && |residue| == |body| then residue else body
  }

  lemma {:induction false} MarkedKeepsBody(s: seq<Byte>, fr: Framing)
    ensures Marked(s)[|s| - |Behind(s, fr)|..] == Behind(s, fr)
    decreases |s|
  {
    hide ParseLine, MarkedLine;
    if s != [] && FindCrlf(s).Some? && FindCrlf(s).value.len != 0 {
      var line := FindCrlf(s).value;
      var rest, fr' := s[line.next..], ParseLine(s[..line.len], fr);
      MarkedKeepsBody(rest, fr');
      assert Behind(s, fr) == Behind(rest, fr');
      var n := |Behind(s, fr)|;
      assert Marked(s)[|s| - n..] == Marked(rest)[|rest| - n..];
    }
  }

  // The status line and the block behind it, as a first parse leaves them.
  function StatusPiece(s: seq<Byte>): seq<Byte>
    requires FindCrlf(s).Some? && ParseCode(s[..FindCrlf(s).value.len]).Some?
  {
    MarkedStatus(s, FindCrlf(s).value.len)[..FindCrlf(s).value.next]
  }

  lemma LeftIs(s: seq<Byte>, residue: seq<Byte>)
    requires FindCrlf(s).Some? && ParseCode(s[..FindCrlf(s).value.len]).Some?
    ensures var rest := s[FindCrlf(s).value.next..];
            var tail := if ParsedBlock(s).None? then [] else TailOf(s, residue);
            && |tail| == |Behind(rest, NOTHING_SAID)|
            && Left(s, residue) == StatusPiece(s) + MarkedWith(rest, tail)
  {
    hide FindCrlf, ParseCode, Headers, Marked, MarkedStatus;
    var rest := s[FindCrlf(s).value.next..];
    var tail := if ParsedBlock(s).None? then [] else TailOf(s, residue);
    MarkedKeepsBody(rest, NOTHING_SAID);
    var n := |rest| - |tail|;
    assert Marked(rest) == Marked(rest)[..n] + Marked(rest)[n..];
    assert (StatusPiece(s) + Marked(rest))[..|s| - |tail|] == StatusPiece(s) + Marked(rest)[..n];
  }

  lemma StatusIs(s: seq<Byte>)
    requires FindCrlf(s).Some? && ParseCode(s[..FindCrlf(s).value.len]).Some?
    ensures var q := StatusPiece(s); if StatusLosesEnd(s, FindCrlf(s).value) then IsPiece(q) else IsEnded(q)
    ensures s[..FindCrlf(s).value.len] <= StatusPiece(s) && StatusPiece(s) != []
    ensures !StatusLosesEnd(s, FindCrlf(s).value) ==> LenOf(StatusPiece(s)) >= FindCrlf(s).value.len
  {
    hide IndexOf;
    IndexOfMeans(s, LF);
    assert LF !in s[..FindCrlf(s).value.next - 1];
  }

  // What a second parse finds in the buffer that a first one left, for every response.
  function ParsedAgain(s: seq<Byte>, residue: seq<Byte>): Parsed {
    if !LinesWhole(s) then Parse(s)
    else
      var line := FindCrlf(s).value;
      var code, tail := ParseCode(s[..line.len]).value, TailOf(s, residue);
      match FateOf(s[line.next..], StatusLosesEnd(s, line))
      case Kept => Response(code, NOTHING_SAID, NoBody)
      case Cut => Incomplete
      case Swallowed =>
        match Headers(tail, NOTHING_SAID, ParseLine)
        case None => Incomplete
        case Some((body, fr)) => ParseBody(code, body, fr)
  }

  lemma StatusAgain(s: seq<Byte>, m: seq<Byte>, line: Line, code: int)
    requires FindCrlf(m) == Some(line) && s <= m[..line.len] && ParseCode(s) == Some(code)
    ensures Parse(m) == match Headers(m[line.next..], NOTHING_SAID, ParseLine)
                        case None => Incomplete
                        case Some((body, fr)) => ParseBody(code, body, fr)
  {
    hide ParseCode, Headers, ParseBody;
    CodeOfMore(s, m[..line.len]);
  }

  // A block that has not ended is cut: nothing of it is swallowed.
  lemma {:induction false} UnfinishedIsCut(s: seq<Byte>, fr: Framing, joined: bool)
    requires Headers(s, fr, ParseLine).None?
    ensures FateOf(s, joined).Cut?
    decreases |s|
  {
    hide ParseLine, LosesEnd;
    if FindCrlf(s).Some? {
      var line := FindCrlf(s).value;
      UnfinishedIsCut(s[line.next..], ParseLine(s[..line.len], fr), LosesEnd(s, line));
    }
  }

  // The second parse, exactly. With its end kept, a block says nothing any more; where the
  // empty line is swallowed, the body is read for headers.
  lemma SecondParseExactly(s: seq<Byte>, residue: seq<Byte>)
    ensures Parse(Left(s, residue)) == ParsedAgain(s, residue)
  {
    hide FindCrlf, Headers, ParseCode, FateOf, MarkedWith, StatusPiece, StatusLosesEnd, Left, IsPiece, IsEnded, TailOf,
         Behind,
         ReadsAs, Dechunk;
    if FindCrlf(s).Some? && ParseCode(s[..FindCrlf(s).value.len]).Some? {
      var line := FindCrlf(s).value;
      var rest := s[line.next..];
      var tail := if ParsedBlock(s).None? then [] else TailOf(s, residue);
      LeftIs(s, residue);
      StatusIs(s);
      var p := if StatusLosesEnd(s, line) then StatusPiece(s) else [];
      SecondBlock(rest, p, NOTHING_SAID, tail, NOTHING_SAID);
      if StatusLosesEnd(s, line) {
        AgainJoined(s, Left(s, residue), tail);
      } else {
        AgainEnded(s, Left(s, residue), tail);
      }
      if ParsedBlock(s).None? {
        UnfinishedIsCut(rest, NOTHING_SAID, StatusLosesEnd(s, line));
      }
    } else {
      LeftAlone(s, residue);
    }
  }

  // What the parser makes of the block that was read again.
  function OfBlock(code: int, fate: Fate, tail: seq<Byte>): Parsed {
    match Reread(fate, tail, NOTHING_SAID)
    case None => Incomplete
    case Some((body, fr)) => ParseBody(code, body, fr)
  }

  lemma AgainJoined(s: seq<Byte>, m: seq<Byte>, tail: seq<Byte>)
    requires FindCrlf(s).Some? && ParseCode(s[..FindCrlf(s).value.len]).Some? && StatusPiece(s) != []
    requires s[..FindCrlf(s).value.len] <= StatusPiece(s) && |tail| <= |s[FindCrlf(s).value.next..]|
    requires m == StatusPiece(s) + MarkedWith(s[FindCrlf(s).value.next..], tail)
    requires ReadsAs(s[FindCrlf(s).value.next..], StatusPiece(s), tail, NOTHING_SAID)
    ensures Parse(m) == OfBlock(ParseCode(s[..FindCrlf(s).value.len]).value, FateOf(s[FindCrlf(s).value.next..], true),
            tail)
  {
    hide FindCrlf, Headers, ParseCode, FateOf, MarkedWith, StatusPiece, ParseBody;
    var line := FindCrlf(s).value;
    if FindCrlf(m).Some? {
      StatusAgain(s[..line.len], m, FindCrlf(m).value, ParseCode(s[..line.len]).value);
    }
  }

  lemma AgainEnded(s: seq<Byte>, m: seq<Byte>, tail: seq<Byte>)
    requires FindCrlf(s).Some? && ParseCode(s[..FindCrlf(s).value.len]).Some? && IsEnded(StatusPiece(s))
    requires s[..FindCrlf(s).value.len] <= StatusPiece(s) && LenOf(StatusPiece(s)) >= FindCrlf(s).value.len
    requires |tail| <= |s[FindCrlf(s).value.next..]|
    requires m == StatusPiece(s) + MarkedWith(s[FindCrlf(s).value.next..], tail)
    requires ReadsAs(s[FindCrlf(s).value.next..], [], tail, NOTHING_SAID)
    ensures Parse(m) == OfBlock(ParseCode(s[..FindCrlf(s).value.len]).value, FateOf(s[FindCrlf(s).value.next..], false),
            tail)
  {
    hide FindCrlf, Headers, ParseCode, FateOf, MarkedWith, StatusPiece, ParseBody, Reread;
    var line, p, rest := FindCrlf(s).value, StatusPiece(s), MarkedWith(s[FindCrlf(s).value.next..], tail);
    assert [] + rest == rest && [] + (p + rest) == m;
    LineIsFound([], p, rest);
    assert [] + p[..LenOf(p)] == p[..LenOf(p)];
    StatusAgain(s[..line.len], m, FindCrlf(m).value, ParseCode(s[..line.len]).value);
  }

  lemma LeftAlone(s: seq<Byte>, residue: seq<Byte>)
    requires FindCrlf(s).None? || ParseCode(s[..FindCrlf(s).value.len]).None?
    ensures Left(s, residue) == s
  {
  }

  lemma {:induction false} CrlfIsKept(s: seq<Byte>, fr: Framing)
    requires CrlfLines(s)
    ensures FateOf(s, false) == if Headers(s, fr, ParseLine).Some? then Kept else Cut
    decreases |s|
  {
    hide ParseLine, Colon;
    if s != [] && FindCrlf(s).Some? && FindCrlf(s).value.len != 0 {
      var line := FindCrlf(s).value;
      CrlfIsKept(s[line.next..], ParseLine(s[..line.len], fr));
    }
  }

  // With lines that end as they should, a second parse finds a response without a body, on a
  // connection that stays open, unless the bytes stop inside a line - however much of the
  // headers and of the body is missing. And C says what it does.
  lemma SecondParse(s: seq<Byte>, residue: seq<Byte>)
    requires CrlfResponse(s)
    ensures Parse(Left(s, residue)).Response? <==> LinesWhole(s)
    ensures LinesWhole(s) ==>
              Parse(Left(s, residue)) == Response(ParseCode(s[..FindCrlf(s).value.len]).value, NOTHING_SAID, NoBody)
    ensures Parse(Left(s, residue)) != NotDefined
  {
    hide FindCrlf, Headers, ParseCode, CrlfLines, FateOf, ParseBody, TailOf, Left;
    SecondParseExactly(s, residue);
    if FindCrlf(s).Some? {
      CrlfIsKept(s[FindCrlf(s).value.next..], NOTHING_SAID);
    }
  }

  // What a second parse does is undefined in C exactly for these bytes: the empty line is
  // swallowed, and the body, read for headers, is chunked with a negative size.
  predicate SecondIsUndefined(s: seq<Byte>, residue: seq<Byte>) {
    && LinesWhole(s)
    && FateOf(s[FindCrlf(s).value.next..], StatusLosesEnd(s, FindCrlf(s).value)) == Swallowed
    && var block := Headers(TailOf(s, residue), NOTHING_SAID, ParseLine);
       block.Some? && block.value.1.chunked && Dechunk(block.value.0) == Undefined
  }

  lemma UndefinedExactly(s: seq<Byte>, residue: seq<Byte>)
    ensures Parse(Left(s, residue)) == NotDefined <==> SecondIsUndefined(s, residue)
  {
    hide FindCrlf, Headers, ParseCode, FateOf, TailOf, Left, Dechunk;
    SecondParseExactly(s, residue);
  }
}
