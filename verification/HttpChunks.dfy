// The chunked coding of section 7.1 of RFC 9112: the read-only check and the dechunker
// as functions of the bytes, what the coding means, and that the three agree
// (corRestClientParse.c:106-158 and 349-390).
module HttpChunks {
  import opened Base
  import opened CStrings
  import opened HttpScan

  // The hex digits s starts with, as a number.
  function HexDigits(s: seq<Byte>, acc: nat): nat
    decreases |s|
  {
    if s == [] || !IsHex(s[0]) then acc else HexDigits(s[1..], acc * 16 + HexVal(s[0]))
  }

  predicate IsX(b: Byte) { b == 120 || b == 88 }

  // The "0x" that strtol takes in base 16, in front of a digit.
  function SkipPrefix(s: seq<Byte>): seq<Byte> {
    if |s| >= 3 && s[0] == 48 && IsX(s[1]) && IsHex(s[2]) then s[2..] else s
  }

  // strtol(s, NULL, 16)
  function Strtol16(s: seq<Byte>): int {
    var t := SkipSpace(s);
    if t != [] && t[0] == 45 then -(HexDigits(SkipPrefix(t[1..]), 0) as int)
    else if t != [] && t[0] == 43 then HexDigits(SkipPrefix(t[1..]), 0)
    else HexDigits(SkipPrefix(t), 0)
  }

  // A chunk's data is followed by CRLF, or by LF.
  predicate DataEnds(rest: seq<Byte>, size: nat)
    requires |rest| >= size + 2
  {
    (rest[size] == CR && rest[size + 1] == LF) || rest[size] == LF
  }

  function AfterData(rest: seq<Byte>, size: nat): (next: nat)
    requires |rest| >= size + 2
    ensures size < next <= |rest|
  {
    if rest[size] == CR && rest[size + 1] == LF then size + 2 else size + 1
  }

  // ---------------------------------------------------------------------------
  // chunkedComplete

  // A size line: hex digits up to the end or a ';', anything else malformed.
  function SizeLine(line: seq<Byte>): Option<nat> {
    var k := IndexOf(line, SEMICOLON);
    if forall i :: 0 <= i < k ==> IsHex(line[i]) then Some(HexDigits(line[..k], 0)) else None
  }

  datatype Scan = Complete(bodyLen: nat) | NeedMore | Malformed

  function After(size: nat, scan: Scan): Scan {
    if scan.Complete? then Complete(size + scan.bodyLen) else scan
  }

  // One turn of the loop: its answer, or a chunk - its data at s[at..at + size], the
  // next one at s[next..].
  datatype Turn<T> = Answer(answer: T) | Chunk(at: nat, size: nat, next: nat)

  function ScanTurn(s: seq<Byte>): (r: Turn<Scan>)
    requires s != []
    ensures r.Chunk? ==> 0 < r.size && r.at + r.size < r.next <= |s|
  {
    match FindCrlf(s)
    case None => Answer(NeedMore)
    case Some(line) =>
      match SizeLine(s[..line.len])
      case None => Answer(Malformed)
      case Some(size) =>
        var rest := s[line.next..];
        if size == 0 then Answer(Complete(0))
        else if |rest| < size + 2 then Answer(NeedMore)
        else if !DataEnds(rest, size) then Answer(NeedMore)
        else Chunk(line.next, size, line.next + AfterData(rest, size))
  }

  function ScanChunks(s: seq<Byte>): Scan
    decreases |s|
  {
    if s == [] then NeedMore
    else
      match ScanTurn(s)
      case Answer(scan) => scan
      case Chunk(_, size, next) => After(size, ScanChunks(s[next..]))
  }

  // ---------------------------------------------------------------------------
  // dechunk

  // Undefined: a negative size, which C's memmove does not define.
  datatype Dechunked = Whole(data: seq<Byte>) | Short | Bad | Undefined

  function Before(data: seq<Byte>, d: Dechunked): Dechunked {
    if d.Whole? then Whole(data + d.data) else d
  }

  function DechunkTurn(s: seq<Byte>): (r: Turn<Dechunked>)
    requires s != []
    ensures r.Chunk? ==> 0 < r.size && r.at + r.size < r.next <= |s|
  {
    match FindCrlf(s)
    case None => Answer(Short)
    case Some(line) =>
      var size := Strtol16(s[..line.len]);
      var rest := s[line.next..];
      if size == 0 then Answer(Whole([]))
      else if |rest| < size + 2 then Answer(Short)
      else if size < 0 then Answer(Undefined)
      else if !DataEnds(rest, size) then Answer(Bad)
      else Chunk(line.next, size, line.next + AfterData(rest, size))
  }

  function Dechunk(s: seq<Byte>): Dechunked
    decreases |s|
  {
    if s == [] then Short
    else
      match DechunkTurn(s)
      case Answer(d) => d
      case Chunk(at, size, next) => Before(s[at..at + size], Dechunk(s[next..]))
  }

  // What DechunkTurn says of a size line that has been read.
  lemma TurnOf(s: seq<Byte>, line: Line, size: int)
    requires s != [] && FindCrlf(s) == Some(line) && size == Strtol16(s[..line.len])
    ensures size == 0 ==> DechunkTurn(s) == Answer(Whole([]))
    ensures size != 0 && |s| - line.next < size + 2 ==> DechunkTurn(s) == Answer(Short)
    ensures size < 0 && |s| - line.next >= size + 2 ==> DechunkTurn(s) == Answer(Undefined)
    ensures size > 0 && |s| - line.next >= size + 2 ==>
              var rest := s[line.next..];
              DechunkTurn(s) == if DataEnds(rest, size) then Chunk(line.next, size, line.next + AfterData(rest, size))
                  else Answer(Bad)
  {
  }

  lemma UnfoldedAnswer(t: seq<Byte>)
    requires t != [] && DechunkTurn(t).Answer?
    ensures Dechunk(t) == DechunkTurn(t).answer
  {
  }

  lemma UnfoldedChunk(t: seq<Byte>)
    requires t != [] && DechunkTurn(t).Chunk?
    ensures var c := DechunkTurn(t); Dechunk(t) == Before(t[c.at..c.at + c.size], Dechunk(t[c.next..]))
  {
  }

  // ---------------------------------------------------------------------------
  // The check and the dechunker agree

  lemma {:induction false} HexStops(size: seq<Byte>, ext: seq<Byte>, acc: nat)
    requires forall k :: 0 <= k < |size| ==> IsHex(size[k])
    requires ext != [] ==> !IsHex(ext[0])
    ensures HexDigits(size + ext, acc) == HexDigits(size, acc)
  {
    if size == [] {
      assert size + ext == ext;
    } else {
      assert (size + ext)[1..] == size[1..] + ext;
      HexStops(size[1..], ext, acc * 16 + HexVal(size[0]));
    }
  }

  lemma SizesAgree(line: seq<Byte>)
    ensures SizeLine(line).Some? ==> SizeLine(line).value == Strtol16(line)
  {
    var k := IndexOf(line, SEMICOLON);
    IndexOfMeans(line, SEMICOLON);
    if SizeLine(line).Some? && line != [] {
      assert line == line[..k] + line[k..];
      HexStops(line[..k], line[k..], 0);
      assert IsHex(line[0]) || line[0] == SEMICOLON;
      assert SkipSpace(line) == line;
      assert |line| >= 2 && line[0] == 48 ==> !IsX(line[1]);
    }
  }

  // Turn by turn: the same chunk, and no chunk where the check stops.
  lemma TurnsAgree(s: seq<Byte>)
    requires s != []
    ensures ScanTurn(s).Chunk? ==> DechunkTurn(s) == Chunk(ScanTurn(s).at, ScanTurn(s).size, ScanTurn(s).next)
    ensures ScanTurn(s).Answer? && ScanTurn(s).answer.Complete? ==>
            DechunkTurn(s) == Answer(Whole([])) && ScanTurn(s).answer.bodyLen == 0
    ensures ScanTurn(s) == Answer(NeedMore) ==> DechunkTurn(s) == Answer(Short) || DechunkTurn(s) == Answer(Bad)
  {
    if FindCrlf(s).Some? {
      SizesAgree(s[..FindCrlf(s).value.len]);
    }
  }

  // Whenever the check says the body is complete, the dechunker gives it, with the
  // length the check counted.
  lemma {:induction false} CompleteMeansWhole(s: seq<Byte>)
    ensures ScanChunks(s).Complete? ==> Dechunk(s).Whole? && ScanChunks(s).bodyLen == |Dechunk(s).data|
    decreases |s|
  {
    if s != [] {
      TurnsAgree(s);
      if ScanTurn(s).Chunk? {
        CompleteMeansWhole(s[ScanTurn(s).next..]);
      }
    }
  }

  // More data would be needed, says the check: the dechunker does not find a whole body.
  lemma {:induction false} NeedMoreMeansNotWhole(s: seq<Byte>)
    ensures ScanChunks(s).NeedMore? ==> Dechunk(s).Short? || Dechunk(s).Bad?
    decreases |s|
  {
    if s != [] {
      TurnsAgree(s);
      if ScanTurn(s).Chunk? {
        NeedMoreMeansNotWhole(s[ScanTurn(s).next..]);
      }
    }
  }

  // ---------------------------------------------------------------------------
  // The coding itself

  // n as it is written in base 16; capitals: the places, from the right, of capital letters.
  function Hex(n: nat, capitals: set<nat>, place: nat): (s: seq<Byte>)
    ensures s != []
    decreases n
  {
    if n < 16 then [HexDigit(n, place in capitals)]
    else Hex(n / 16, capitals, place + 1) + [HexDigit(n % 16, place in capitals)]
  }

  function Zeros(n: nat): seq<Byte> {
    seq(n, _ => 48)
  }

  // A chunk as it is written: its size in hex, the zeros in front of it and the capitals in
  // it, an extension, and the data.
  datatype Coded = Coded(zeros: nat, capitals: set<nat>, extension: seq<Byte>, data: seq<Byte>)

  function SizeText(c: Coded): seq<Byte> {
    Zeros(c.zeros) + Hex(|c.data|, c.capitals, 0)
  }

  predicate IsHexText(s: seq<Byte>) {
    s != [] && forall k :: 0 <= k < |s| ==> IsHex(s[k])
  }

  // Free of LF, and not a continuation of the size.
  predicate IsExtension(s: seq<Byte>) {
    LF !in s && (s != [] ==> !IsHex(s[0]) && !IsX(s[0]))
  }

  // As section 7.1.1 of RFC 9112 has it.
  predicate BySemicolon(s: seq<Byte>) {
    LF !in s && (s != [] ==> s[0] == SEMICOLON)
  }

  // The digits of a number, read one after the other, are the number.
  lemma {:induction false} HexSnoc(s: seq<Byte>, b: Byte, acc: nat)
    requires (forall k :: 0 <= k < |s| ==> IsHex(s[k])) && IsHex(b)
    ensures HexDigits(s + [b], acc) == 16 * HexDigits(s, acc) + HexVal(b)
  {
    if s == [] {
      assert s + [b] == [b] && [b][1..] == [];
    } else {
      assert (s + [b])[1..] == s[1..] + [b];
      HexSnoc(s[1..], b, acc * 16 + HexVal(s[0]));
    }
  }

  lemma {:induction false} HexReadsBack(n: nat, capitals: set<nat>, place: nat)
    ensures IsHexText(Hex(n, capitals, place)) && HexDigits(Hex(n, capitals, place), 0) == n
    decreases n
  {
    if n >= 16 {
      HexReadsBack(n / 16, capitals, place + 1);
      HexSnoc(Hex(n / 16, capitals, place + 1), HexDigit(n % 16, place in capitals), 0);
    } else {
      assert Hex(n, capitals, place)[1..] == [];
    }
  }

  lemma {:induction false} ZerosAddNothing(zeros: nat, s: seq<Byte>)
    ensures HexDigits(Zeros(zeros) + s, 0) == HexDigits(s, 0)
  {
    if zeros == 0 {
      assert Zeros(0) + s == s;
    } else {
      assert (Zeros(zeros) + s)[1..] == Zeros(zeros - 1) + s;
      ZerosAddNothing(zeros - 1, s);
    }
  }

  // Both readings of a size line: the number written, whatever its zeros, its letters' cases
  // and the extension behind it.
  lemma SizeReadsBack(c: Coded)
    ensures IsHexText(SizeText(c)) && HexDigits(SizeText(c), 0) == |c.data|
    ensures IsExtension(c.extension) ==>
            LF !in SizeText(c) + c.extension && Strtol16(SizeText(c) + c.extension) == |c.data|
    ensures BySemicolon(c.extension) ==>
            IsExtension(c.extension) && SizeLine(SizeText(c) + c.extension) == Some(|c.data|)
    ensures BySemicolon(c.extension) ==>
              && SizeText(c) + c.extension != []
              && (c.extension == [] ==> (SizeText(c) + c.extension)[|SizeText(c) + c.extension| - 1] != CR)
  {
    hide Hex, HexDigits, Strtol16, IndexOf;
    HexReadsBack(|c.data|, c.capitals, 0);
    ZerosAddNothing(c.zeros, Hex(|c.data|, c.capitals, 0));
    if IsExtension(c.extension) {
      SizeTextMeans(SizeText(c), c.extension);
    }
    if BySemicolon(c.extension) {
      IndexOfIs(SizeText(c) + c.extension, SEMICOLON, |SizeText(c)|);
      assert (SizeText(c) + c.extension)[..|SizeText(c)|] == SizeText(c);
    }
  }

  function Encode(chunks: seq<Coded>, last: Coded, trailing: seq<Byte>): seq<Byte> {
    if chunks == [] then (SizeText(last) + last.extension) + [CR, LF] + trailing
    else
      var c := chunks[0];
      (SizeText(c) + c.extension) + [CR, LF] + (c.data + ([CR, LF] + Encode(chunks[1..], last, trailing)))
  }

  function Data(chunks: seq<Coded>): seq<Byte> {
    if chunks == [] then [] else chunks[0].data + Data(chunks[1..])
  }

  lemma SizeTextMeans(size: seq<Byte>, ext: seq<Byte>)
    requires IsHexText(size) && IsExtension(ext)
    ensures LF !in size + ext
    ensures Strtol16(size + ext) == HexDigits(size, 0)
  {
    var line := size + ext;
    assert IsHex(line[0]);
    assert SkipSpace(line) == line;
    if |line| >= 2 {
      assert !IsX(line[1]) by {
        if |size| == 1 { assert line[1] == ext[0]; } else { assert line[1] == size[1]; }
      }
    }
    HexStops(size, ext, 0);
  }

  // A chunk whose place is known.
  lemma DechunkHere(s: seq<Byte>, len: nat, data: seq<Byte>, rest: seq<Byte>)
    requires FindCrlf(s) == Some(Line(len, len + 2)) && data != [] && Strtol16(s[..len]) == |data|
    requires s[len + 2..] == data + ([CR, LF] + rest)
    ensures Dechunk(s) == Before(data, Dechunk(rest))
  {
    hide *;
    DataHere(s[len + 2..], data, rest);
    TurnOf(s, Line(len, len + 2), |data|);
    UnfoldedChunk(s);
    var n := len + 2;
    assert s[n..n + |data|] == s[n..][..|data|];
    assert s[n + (|data| + 2)..] == s[n..][|data| + 2..];
  }

  lemma DataHere(tail: seq<Byte>, data: seq<Byte>, rest: seq<Byte>)
    requires tail == data + ([CR, LF] + rest)
    ensures |tail| >= |data| + 2 && tail[..|data|] == data && DataEnds(tail, |data|)
    ensures AfterData(tail, |data|) == |data| + 2 && tail[|data| + 2..] == rest
  {
  }

  lemma DechunkOne(line: seq<Byte>, data: seq<Byte>, rest: seq<Byte>)
    requires LF !in line && data != [] && Strtol16(line) == |data|
    ensures Dechunk(line + [CR, LF] + (data + ([CR, LF] + rest))) == Before(data, Dechunk(rest))
  {
    var tail := data + ([CR, LF] + rest);
    CrlfEnds(line, tail);
    Split(line, tail);
    DechunkHere(line + [CR, LF] + tail, |line|, data, rest);
  }

  lemma Split(line: seq<Byte>, tail: seq<Byte>)
    ensures (line + [CR, LF] + tail)[..|line|] == line && (line + [CR, LF] + tail)[|line| + 2..] == tail
  {
  }

  lemma DechunkLast(line: seq<Byte>, rest: seq<Byte>)
    requires LF !in line && Strtol16(line) == 0
    ensures Dechunk(line + [CR, LF] + rest) == Whole([])
  {
    CrlfEnds(line, rest);
    assert (line + [CR, LF] + rest)[..|line|] == line;
  }

  // Every list of non-empty chunks, whatever the sizes look like, the extensions say
  // and comes after: their data, joined.
  lemma {:induction false} DechunkUndoesEncode(chunks: seq<Coded>, last: Coded, trailing: seq<Byte>)
    requires (forall c <- chunks :: c.data != [] && IsExtension(c.extension)) && last.data == []
    requires IsExtension(last.extension)
    ensures Dechunk(Encode(chunks, last, trailing)) == Whole(Data(chunks))
  {
    hide SizeText, Dechunk, Strtol16;
    if chunks == [] {
      SizeReadsBack(last);
      DechunkLast(SizeText(last) + last.extension, trailing);
    } else {
      var c := chunks[0];
      assert c in chunks;
      SizeReadsBack(c);
      DechunkOne(SizeText(c) + c.extension, c.data, Encode(chunks[1..], last, trailing));
      DechunkUndoesEncode(chunks[1..], last, trailing);
    }
  }

  // And the check finds them complete, and counts their bytes.
  lemma {:induction false} CheckCountsEncoded(chunks: seq<Coded>, last: Coded, trailing: seq<Byte>)
    requires (forall c <- chunks :: c.data != [] && BySemicolon(c.extension)) && last.data == []
    requires BySemicolon(last.extension)
    ensures ScanChunks(Encode(chunks, last, trailing)) == Complete(|Data(chunks)|)
  {
    hide SizeText, SizeLine, ScanChunks;
    if chunks == [] {
      SizeReadsBack(last);
      ScanLast(SizeText(last) + last.extension, trailing);
    } else {
      var c := chunks[0];
      assert c in chunks;
      SizeReadsBack(c);
      ScanOne(SizeText(c) + c.extension, c.data, Encode(chunks[1..], last, trailing));
      CheckCountsEncoded(chunks[1..], last, trailing);
    }
  }

  lemma ScanLast(line: seq<Byte>, rest: seq<Byte>)
    requires LF !in line && SizeLine(line) == Some(0)
    ensures ScanChunks(line + [CR, LF] + rest) == Complete(0)
  {
    CrlfEnds(line, rest);
    assert (line + [CR, LF] + rest)[..|line|] == line;
  }

  lemma ScanTurnOf(s: seq<Byte>, line: Line, size: nat)
    requires s != [] && FindCrlf(s) == Some(line) && SizeLine(s[..line.len]) == Some(size)
    requires size > 0 && |s| - line.next >= size + 2 && DataEnds(s[line.next..], size)
    ensures ScanTurn(s) == Chunk(line.next, size, line.next + AfterData(s[line.next..], size))
  {
    hide FindCrlf, SizeLine;
  }

  lemma ScanHere(s: seq<Byte>, len: nat, data: seq<Byte>, rest: seq<Byte>)
    requires FindCrlf(s) == Some(Line(len, len + 2)) && data != [] && SizeLine(s[..len]) == Some(|data|)
    requires s[len + 2..] == data + ([CR, LF] + rest)
    ensures ScanChunks(s) == After(|data|, ScanChunks(rest))
  {
    hide *;
    DataHere(s[len + 2..], data, rest);
    ScanTurnOf(s, Line(len, len + 2), |data|);
    UnfoldedScan(s);
    assert s[len + 2 + (|data| + 2)..] == s[len + 2..][|data| + 2..];
  }

  lemma ScanOne(line: seq<Byte>, data: seq<Byte>, rest: seq<Byte>)
    requires LF !in line && data != [] && SizeLine(line) == Some(|data|)
    ensures ScanChunks(line + [CR, LF] + (data + ([CR, LF] + rest))) == After(|data|, ScanChunks(rest))
  {
    hide SizeLine, ScanChunks, FindCrlf, IndexOf;
    var tail := data + ([CR, LF] + rest);
    CrlfEnds(line, tail);
    Split(line, tail);
    ScanHere(line + [CR, LF] + tail, |line|, data, rest);
  }

  // A line and the data may end in LF alone, when anything follows at all.
  lemma BareEnds(c: Coded, rest: seq<Byte>)
    requires c.data != [] && BySemicolon(c.extension) && rest != []
    requires c.extension != [] ==> c.extension[|c.extension| - 1] != CR
    ensures var s := (SizeText(c) + c.extension) + [LF] + (c.data + ([LF] + rest));
            ScanChunks(s) == After(|c.data|, ScanChunks(rest)) && Dechunk(s) == Before(c.data, Dechunk(rest))
  {
    hide SizeText, SizeLine, Strtol16, ScanChunks, Dechunk, FindCrlf;
    SizeReadsBack(c);
    var line, tail := SizeText(c) + c.extension, c.data + ([LF] + rest);
    LfEnds(line, tail);
    BareSplit(line, tail);
    BareHere(line + [LF] + tail, |line|, c.data, rest);
  }

  lemma BareSplit(line: seq<Byte>, tail: seq<Byte>)
    ensures (line + [LF] + tail)[..|line|] == line && (line + [LF] + tail)[|line| + 1..] == tail
  {
  }

  lemma BareHere(s: seq<Byte>, len: nat, data: seq<Byte>, rest: seq<Byte>)
    requires FindCrlf(s) == Some(Line(len, len + 1)) && data != [] && rest != []
    requires SizeLine(s[..len]) == Some(|data|) && Strtol16(s[..len]) == |data| && s[len + 1..] == data + ([LF] + rest)
    ensures ScanChunks(s) == After(|data|, ScanChunks(rest)) && Dechunk(s) == Before(data, Dechunk(rest))
  {
    hide *;
    BareDataHere(s[len + 1..], data, rest);
    TurnOf(s, Line(len, len + 1), |data|);
    ScanTurnOf(s, Line(len, len + 1), |data|);
    UnfoldedScan(s);
    UnfoldedChunk(s);
    var n := len + 1;
    assert s[n..n + |data|] == s[n..][..|data|];
    assert s[n + (|data| + 1)..] == s[n..][|data| + 1..];
  }

  lemma BareDataHere(tail: seq<Byte>, data: seq<Byte>, rest: seq<Byte>)
    requires tail == data + ([LF] + rest) && rest != []
    ensures |tail| >= |data| + 2 && tail[..|data|] == data && DataEnds(tail, |data|)
    ensures AfterData(tail, |data|) == |data| + 1 && tail[|data| + 1..] == rest
  {
  }

  lemma LfEnds(line: seq<Byte>, rest: seq<Byte>)
    requires LF !in line && (line != [] ==> line[|line| - 1] != CR)
    ensures FindCrlf(line + [LF] + rest) == Some(Line(|line|, |line| + 1))
  {
    var s := line + [LF] + rest;
    assert s[..|line|] == line;
    IndexOfIs(s, LF, |line|);
  }

  // Data with something else behind it: more is asked for, and then it is malformed.
  lemma NoEnd(c: Coded, rest: seq<Byte>)
    requires c.data != [] && BySemicolon(c.extension) && |rest| >= 2
    requires rest[0] != LF && !(rest[0] == CR && rest[1] == LF)
    ensures var s := (SizeText(c) + c.extension) + [CR, LF] + (c.data + rest);
            ScanChunks(s) == NeedMore && Dechunk(s) == Bad
  {
    hide SizeText, SizeLine, FindCrlf, Strtol16;
    SizeReadsBack(c);
    var line, tail := SizeText(c) + c.extension, c.data + rest;
    CrlfEnds(line, tail);
    Split(line, tail);
    TurnOf(line + [CR, LF] + tail, Line(|line|, |line| + 2), |c.data|);
  }

  // Cut anywhere before its end, the coding is not complete: the check asks for more.
  lemma {:induction false} CutEncodingNeedsMore(chunks: seq<Coded>, last: Coded, p: nat)
    requires (forall c <- chunks :: c.data != [] && BySemicolon(c.extension)) && last.data == []
    requires BySemicolon(last.extension)
    requires p < |Encode(chunks, last, [])|
    ensures ScanChunks(Encode(chunks, last, [])[..p]) == NeedMore
  {
    hide SizeText, SizeLine, ScanChunks;
    if chunks == [] {
      SizeReadsBack(last);
      CutInLine(SizeText(last) + last.extension, [], p);
    } else {
      var c := chunks[0];
      assert c in chunks;
      var line, rest := SizeText(c) + c.extension, Encode(chunks[1..], last, []);
      SizeReadsBack(c);
      if p < |line| + 2 {
        CutInLine(line, c.data + ([CR, LF] + rest), p);
      } else if p - (|line| + 2) < |c.data| + 2 {
        CutInData(line, c.data, rest, p);
      } else {
        var q := p - (|line| + 2) - (|c.data| + 2);
        CutBehind(line, c.data, rest, q);
        CutEncodingNeedsMore(chunks[1..], last, q);
        ScanOne(line, c.data, rest[..q]);
      }
    }
  }

  lemma CutInLine(line: seq<Byte>, tail: seq<Byte>, p: nat)
    requires LF !in line && p < |line| + 2
    ensures ScanChunks((line + [CR, LF] + tail)[..p]) == NeedMore
  {
    var s := (line + [CR, LF] + tail)[..p];
    assert forall k :: 0 <= k < p ==> s[k] == if k < |line| then line[k] else CR;
    IndexOfIs(s, LF, p);
  }

  lemma CutInData(line: seq<Byte>, data: seq<Byte>, rest: seq<Byte>, p: nat)
    requires LF !in line && data != [] && SizeLine(line) == Some(|data|)
    requires |line| + 2 <= p < |line| + 2 + (|data| + 2)
    ensures ScanChunks((line + [CR, LF] + (data + ([CR, LF] + rest)))[..p]) == NeedMore
  {
    hide SizeLine, FindCrlf;
    var tail := (data + ([CR, LF] + rest))[..p - (|line| + 2)];
    assert (line + [CR, LF] + (data + ([CR, LF] + rest)))[..p] == line + [CR, LF] + tail;
    CrlfEnds(line, tail);
    Split(line, tail);
  }

  lemma CutBehind(line: seq<Byte>, data: seq<Byte>, rest: seq<Byte>, q: nat)
    requires q <= |rest|
    ensures (line + [CR, LF] + (data + ([CR, LF] + rest)))[..|line| + 2 + (|data| + 2) + q] ==
            line + [CR, LF] + (data + ([CR, LF] + rest[..q]))
  {
  }

  lemma UnfoldedScan(t: seq<Byte>)
    requires t != [] && ScanTurn(t).Chunk?
    ensures var c := ScanTurn(t); ScanChunks(t) == After(c.size, ScanChunks(t[c.next..]))
  {
  }
}
