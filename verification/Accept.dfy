// The Accept header: one pass over its entries, keeping each type's best q, picks what a
// look at all of them would - section 12.5.1 of RFC 9110, as corMimeType.c:76-245 has it.
// strtod, which reads a q, is a parameter: any function to numbers.
module Accept {
  import opened Base
  import opened CStrings

  datatype Mime = MimeNone | MimeJson | MimeLdJson | MimeGeoJson

  const SPACE: Byte := 32
  const TAB: Byte := 9
  const COMMA: Byte := 44
  const SEMI: Byte := 59

  type Strtod = seq<Byte> -> real

  // ---------------------------------------------------------------------------
  // What the header says

  predicate Blank(b: Byte) { b == SPACE || b == TAB }

  predicate Gap(b: Byte) { Blank(b) || b == SEMI }

  function SkipBlanks(s: seq<Byte>): seq<Byte> {
    if s != [] && Blank(s[0]) then SkipBlanks(s[1..]) else s
  }

  // How far it is to the first byte that ends a name, or a value.
  function ToGap(s: seq<Byte>): (k: nat)
    ensures k <= |s|
  {
    if s == [] || Gap(s[0]) then 0 else 1 + ToGap(s[1..])
  }

  function SkipGap(s: seq<Byte>): (t: seq<Byte>)
    ensures |t| <= |s|
  {
    if s != [] && Gap(s[0]) then SkipGap(s[1..]) else s
  }

  // The entries, one to a comma.
  function Entries(s: seq<Byte>): seq<seq<Byte>>
    decreases |s|
  {
    var t := SkipBlanks(s);
    SkipBlanksShorter(s);
    if t == [] then []
    else
      var k := IndexOf(t, COMMA);
      [t[..k]] + if k == |t| then [] else Entries(t[k + 1..])
  }

  lemma {:induction false} SkipBlanksShorter(s: seq<Byte>)
    ensures |SkipBlanks(s)| <= |s|
  {
    if s != [] && Blank(s[0]) {
      SkipBlanksShorter(s[1..]);
    }
  }

  predicate Is(name: seq<Byte>, full: string) {
    |name| == |full| && StartsFold(name, Ascii(full))
  }

  // The type an entry names; a wildcard names JSON.
  function Kind(entry: seq<Byte>): Mime {
    var name := entry[..ToGap(entry)];
    if Is(name, "application/geo+json") then MimeGeoJson
    else if Is(name, "application/ld+json") then MimeLdJson
    else if Is(name, "application/json") || Is(name, "application/*") || Is(name, "*/*") then MimeJson
    else MimeNone
  }

  function Clamp(q: real): real {
    if q < 0.0 then 0.0 else if q > 1.0 then 1.0 else q
  }

  // A value, as far as the 15 characters of its buffer hold it.
  function Value(s: seq<Byte>): seq<Byte> {
    var k := ToGap(s);
    s[..if k < 15 then k else 15]
  }

  // The first q of the parameters; 1 without one.
  function QOf(params: seq<Byte>, strtod: Strtod): real
    decreases |params|
  {
    var t := SkipGap(params);
    if t == [] then 1.0
    else if |t| > 2 && (t[0] == 113 || t[0] == 81) && t[1] == 61 then Clamp(strtod(Value(t[2..])))
    else
      var k := IndexOf(t, SEMI);
      if k == 0 then 1.0 else QOf(t[k..], strtod)
  }

  function Q(entry: seq<Byte>, strtod: Strtod): real {
    QOf(entry[ToGap(entry)..], strtod)
  }

  predicate Acceptable(entry: seq<Byte>, strtod: Strtod) {
    Kind(entry) != MimeNone && Q(entry, strtod) > 0.0
  }

  // ---------------------------------------------------------------------------
  // Headers as they are written

  lemma {:induction false} ToGapIs(s: seq<Byte>, k: nat)
    requires k <= |s| && (forall j :: 0 <= j < k ==> !Gap(s[j])) && (k < |s| ==> Gap(s[k]))
    ensures ToGap(s) == k
  {
    if k > 0 {
      ToGapIs(s[1..], k - 1);
    }
  }

  // What separates.
  lemma SeparatorsAre(b: Byte)
    ensures Blank(b) <==> b in Ascii(" \t")
    ensures Gap(b) <==> b in Ascii(" \t;")
  {
    assert Ascii(" \t") == [32, 9] && Ascii(" \t;") == [32, 9, 59];
  }

  // A name, in any case, and what its parameters begin with.
  lemma KindReadsBack(name: seq<Byte>, params: seq<Byte>)
    requires (forall b <- name :: !Gap(b)) && (params != [] ==> Gap(params[0]))
    ensures CaseOf(name, Ascii("application/geo+json")) ==> Kind(name + params) == MimeGeoJson
    ensures CaseOf(name, Ascii("application/ld+json")) ==> Kind(name + params) == MimeLdJson
    ensures CaseOf(name, Ascii("application/json")) || CaseOf(name, Ascii("application/*"))
            || CaseOf(name, Ascii("*/*")) ==>
              Kind(name + params) == MimeJson
    ensures !CaseOf(name, Ascii("application/geo+json")) && !CaseOf(name, Ascii("application/ld+json"))
              && !CaseOf(name, Ascii("application/json")) && !CaseOf(name, Ascii("application/*"))
              && !CaseOf(name, Ascii("*/*")) ==>
              Kind(name + params) == MimeNone
  {
    hide StartsFold, CaseOf, ToGap;
    var s := name + params;
    ToGapIs(s, |name|);
    assert s[..|name|] == name;
    forall full: string ensures Is(name, full) <==> CaseOf(name, Ascii(full)) {
      NameIs(name, full);
    }
    assert |Ascii("application/geo+json")| == 20 && |Ascii("application/ld+json")| == 19;
    assert |Ascii("application/json")| == 16 && |Ascii("application/*")| == 13 && |Ascii("*/*")| == 3;
    SameLength(name);
  }

  lemma NameIs(name: seq<Byte>, full: string)
    ensures Is(name, full) <==> CaseOf(name, Ascii(full))
  {
    FoldIsCase(name, Ascii(full));
    if |name| == |full| {
      assert name[..|full|] == name;
    }
  }

  lemma SameLength(name: seq<Byte>)
    ensures forall word :: CaseOf(name, word) ==> |name| == |word|
  {
  }

  lemma {:induction false} GapIsSkipped(gap: seq<Byte>, s: seq<Byte>)
    requires (forall b <- gap :: Gap(b)) && (s != [] ==> !Gap(s[0]))
    ensures SkipGap(gap + s) == s
  {
    if gap == [] {
      assert gap + s == s;
    } else {
      assert (gap + s)[1..] == gap[1..] + s;
      GapIsSkipped(gap[1..], s);
    }
  }

  // A q in the first parameter, its first fifteen characters: their number, or the end of
  // what a q may be when it is beyond it. None at all: one.
  lemma QReadsBack(name: seq<Byte>, gap: seq<Byte>, q: Byte, text: seq<Byte>, behind: seq<Byte>, strtod: Strtod)
    requires (forall b <- name :: !Gap(b)) && gap != [] && (forall b <- gap :: Gap(b)) && (q == 113 || q == 81)
    requires text != [] && (forall b <- text :: !Gap(b)) && (behind != [] ==> Gap(behind[0]))
    ensures var v := strtod(if |text| <= 15 then text else text[..15]);
            var r := Q(name + (gap + ([q, 61] + text + behind)), strtod);
            && 0.0 <= r <= 1.0 && (0.0 <= v <= 1.0 ==> r == v) && (v > 1.0 ==> r == 1.0) && (v < 0.0 ==> r == 0.0)
    ensures Q(name, strtod) == 1.0 && Q(name + gap, strtod) == 1.0
  {
    hide ToGap, SkipGap;
    var t := [q, 61] + text + behind;
    var params := gap + t;
    ToGapIs(name + params, |name|);
    assert (name + params)[|name|..] == params;
    GapIsSkipped(gap, t);
    assert t[2..] == text + behind;
    ToGapIs(t[2..], |text|);
    assert t[2..][..|text|] == text && (|text| > 15 ==> t[2..][..15] == text[..15]);
    ToGapIs(name, |name|);
    ToGapIs(name + gap, |name|);
    assert name[|name|..] == [] && (name + gap)[|name|..] == gap;
    GapIsSkipped(gap, []);
    assert gap + [] == gap;
    var none: seq<Byte> := [];
    GapIsSkipped(none, none);
    assert none + none == none;
  }

  // A q behind another parameter.
  lemma QBehind(param: seq<Byte>, rest: seq<Byte>, strtod: Strtod)
    requires param != [] && SEMI !in param && !Gap(param[0]) && rest != [] && rest[0] == SEMI
    requires !(|param| >= 2 && (param[0] == 113 || param[0] == 81) && param[1] == 61)
    ensures QOf(param + rest, strtod) == QOf(rest, strtod)
  {
    var s := param + rest;
    assert s[..|param|] == param;
    IndexOfIs(s, SEMI, |param|);
    assert SkipGap(s) == s;
    assert s[|param|..] == rest;
  }

  // The entries as they are written, one to a comma, blanks in front of each.
  datatype Written = Written(blanks: seq<Byte>, entry: seq<Byte>)

  function Join(ws: seq<Written>): seq<Byte> {
    if ws == [] then []
    else ws[0].blanks + (ws[0].entry + if |ws| == 1 then [] else [COMMA] + Join(ws[1..]))
  }

  function EntriesOf(ws: seq<Written>): seq<seq<Byte>> {
    seq(|ws|, i requires 0 <= i < |ws| => ws[i].entry)
  }

  predicate IsWritten(w: Written) {
    && (forall b <- w.blanks :: Blank(b)) && w.entry != [] && !Blank(w.entry[0]) && COMMA !in w.entry
  }

  lemma {:induction false} BlanksAreSkipped(blanks: seq<Byte>, s: seq<Byte>)
    requires (forall b <- blanks :: Blank(b)) && (s != [] ==> !Blank(s[0]))
    ensures SkipBlanks(blanks + s) == s
  {
    if blanks == [] {
      assert blanks + s == s;
    } else {
      assert (blanks + s)[1..] == blanks[1..] + s;
      BlanksAreSkipped(blanks[1..], s);
    }
  }

  lemma {:induction false} EntriesReadBack(ws: seq<Written>)
    requires forall w <- ws :: IsWritten(w)
    ensures Entries(Join(ws)) == EntriesOf(ws)
  {
    hide SkipBlanks;
    if ws == [] {
      var none: seq<Byte> := [];
      BlanksAreSkipped(none, none);
      assert none + none == none;
    } else {
      var w := ws[0];
      assert IsWritten(w);
      var t := w.entry + if |ws| == 1 then [] else [COMMA] + Join(ws[1..]);
      BlanksAreSkipped(w.blanks, t);
      assert t[..|w.entry|] == w.entry;
      IndexOfIs(t, COMMA, |w.entry|);
      assert EntriesOf(ws) == [w.entry] + EntriesOf(ws[1..]);
      if |ws| > 1 {
        assert t[|w.entry| + 1..] == Join(ws[1..]);
        EntriesReadBack(ws[1..]);
      }
    }
  }

  // ---------------------------------------------------------------------------
  // What it should come to

  // The first of the entries with the highest q, of those that are acceptable.
  predicate First(es: seq<seq<Byte>>, strtod: Strtod, i: int) {
    && 0 <= i < |es| && Acceptable(es[i], strtod)
    && forall j :: 0 <= j < |es| && Acceptable(es[j], strtod) ==>
         Q(es[j], strtod) < Q(es[i], strtod) || (Q(es[j], strtod) == Q(es[i], strtod) && i <= j)
  }

  // What the header should come to: JSON for none, or an empty one.
  ghost predicate Right(header: Option<seq<Byte>>, strtod: Strtod, r: Mime) {
    if header.None? || CString(header.value) == [] then r == MimeJson
    else
      var es := Entries(CString(header.value));
      && (r == MimeNone <==> forall e <- es :: !Acceptable(e, strtod))
      && (r != MimeNone ==> exists i :: First(es, strtod, i) && r == Kind(es[i]))
  }

  // It comes to one type only.
  lemma {:induction false} RightIsOne(header: Option<seq<Byte>>, strtod: Strtod, r: Mime, r': Mime)
    requires Right(header, strtod, r) && Right(header, strtod, r')
    ensures r == r'
  {
    hide Entries, Acceptable, First, Kind;
    if header.Some? && CString(header.value) != [] {
      OneFirst(Entries(CString(header.value)), strtod, r, r');
    }
  }

  lemma OneFirst(es: seq<seq<Byte>>, strtod: Strtod, r: Mime, r': Mime)
    requires r == MimeNone <==> forall e <- es :: !Acceptable(e, strtod)
    requires r' == MimeNone <==> forall e <- es :: !Acceptable(e, strtod)
    requires r != MimeNone ==> exists i :: First(es, strtod, i) && r == Kind(es[i])
    requires r' != MimeNone ==> exists i :: First(es, strtod, i) && r' == Kind(es[i])
    ensures r == r'
  {
    hide Kind, Q;
    if r != MimeNone && r' != MimeNone {
      var i :| First(es, strtod, i) && r == Kind(es[i]);
      var j :| First(es, strtod, j) && r' == Kind(es[j]);
    }
  }

  // ---------------------------------------------------------------------------
  // One entry

  method SkipTheGap(s: seq<Byte>) returns (p: nat)
    ensures p <= |s| && s[p..] == SkipGap(s) && (p < |s| ==> !Gap(s[p]))
  {
    p := 0;
    while p < |s| && Gap(s[p])
      invariant 0 <= p <= |s| && SkipGap(s[p..]) == SkipGap(s)
    {
      assert s[p..][1..] == s[p + 1..];
      p := p + 1;
    }
  }

  method FindByte(s: seq<Byte>, b: Byte) returns (p: nat)
    ensures p == IndexOf(s, b) && p <= |s| && (p == 0 ==> s == [] || s[0] == b)
  {
    p := 0;
    while p < |s| && s[p] != b
      invariant 0 <= p <= |s| && b !in s[..p]
    {
      assert s[..p + 1] == s[..p] + [s[p]];
      p := p + 1;
    }
    IndexOfIs(s, b, p);
  }

  lemma QUnfolded(params: seq<Byte>, strtod: Strtod, t: seq<Byte>)
    requires t == SkipGap(params)
    ensures QOf(params, strtod) ==
            if t == [] then 1.0
            else if |t| > 2 && (t[0] == 113 || t[0] == 81) && t[1] == 61 then Clamp(strtod(Value(t[2..])))
            else if IndexOf(t, SEMI) == 0 then 1.0 else QOf(t[IndexOf(t, SEMI)..], strtod)
  {
  }

  // extractQ
  method ExtractQ(params: seq<Byte>, strtod: Strtod) returns (q: real)
    ensures q == QOf(params, strtod)
  {
    hide QOf, SkipGap, IndexOf, Value;
    var s := params;
    while s != []
      invariant QOf(s, strtod) == QOf(params, strtod)
      decreases |s|
    {
      var p := SkipTheGap(s);
      var t := s[p..];
      QUnfolded(s, strtod, t);
      if |t| > 2 && (t[0] == 113 || t[0] == 81) && t[1] == 61 {
        var value := ReadValue(t[2..]);
        return Clamp(strtod(value));
      }
      var k := FindByte(t, SEMI);
      if t == [] {
        return 1.0;
      }
      s := t[k..];
    }
    NoGap(s);
    QUnfolded(s, strtod, s);
    return 1.0;
  }

  lemma NoGap(s: seq<Byte>)
    requires s == []
    ensures SkipGap(s) == s
  {
  }

  method ReadValue(s: seq<Byte>) returns (buf: seq<Byte>)
    ensures buf == Value(s)
  {
    var v := 0;
    while v < |s| && v < 15 && !Gap(s[v])
      invariant 0 <= v <= |s| && v <= 15 && ToGap(s) == v + ToGap(s[v..])
    {
      assert s[v..][1..] == s[v + 1..];
      v := v + 1;
    }
    return s[..v];
  }

  lemma {:induction false} QNotNegative(params: seq<Byte>, strtod: Strtod)
    ensures QOf(params, strtod) >= 0.0
    decreases |params|
  {
    var t := SkipGap(params);
    if t != [] && 0 < IndexOf(t, SEMI) <= |t| {
      QNotNegative(t[IndexOf(t, SEMI)..], strtod);
    }
  }

  method KindOf(name: seq<Byte>, entry: seq<Byte>) returns (kind: Mime)
    requires name == entry[..ToGap(entry)]
    ensures kind == Kind(entry)
  {
    hide StartsFold;
    var wildcardJson := false;
    kind := MimeNone;
    if Is(name, "application/geo+json") {
      kind := MimeGeoJson;
    } else if Is(name, "application/ld+json") {
      kind := MimeLdJson;
    } else if Is(name, "application/json") {
      kind := MimeJson;
    } else if Is(name, "application/*") || Is(name, "*/*") {
      wildcardJson := true;
    }
    if wildcardJson {
      kind := MimeJson;
    }
  }

  // ---------------------------------------------------------------------------
  // One pass

  // A type's best so far; -1 for none.
  datatype Best = Best(q: real, order: int)

  const UNSEEN := Best(-1.0, -1)

  // The best of these entries for a type is its first with its highest q.
  ghost predicate Tracks(es: seq<seq<Byte>>, strtod: Strtod, kind: Mime, b: Best) {
    if b.q < 0.0 then b == UNSEEN && forall e <- es :: Kind(e) != kind
    else
      && 0 <= b.order < |es| && Kind(es[b.order]) == kind && Q(es[b.order], strtod) == b.q
      && forall j :: 0 <= j < |es| && Kind(es[j]) == kind ==>
           Q(es[j], strtod) < b.q || (Q(es[j], strtod) == b.q && b.order <= j)
  }

  function Better(b: Best, mine: bool, q: real, order: int): Best {
    if mine && q > b.q then Best(q, order) else b
  }

  lemma TracksOn(es: seq<seq<Byte>>, strtod: Strtod, kind: Mime, b: Best, e: seq<Byte>)
    requires Tracks(es, strtod, kind, b)
    ensures Tracks(es + [e], strtod, kind, Better(b, Kind(e) == kind, Q(e, strtod), |es|))
  {
    hide Kind, QOf;
    QNotNegative(e[ToGap(e)..], strtod);
    var es', b' := es + [e], Better(b, Kind(e) == kind, Q(e, strtod), |es|);
    if b'.q < 0.0 {
      assert forall x :: x in es' <==> x in es || x == e;
    } else if b.q < 0.0 {
      assert forall j :: 0 <= j < |es| ==> es[j] in es;
    }
  }

  function Excluded(b: Best): Best {
    if b.q == 0.0 then b.(q := -1.0) else b
  }

  // The comparison at the end.
  function Pick(json: Best, ldJson: Best, geoJson: Best): Mime {
    if json.q < 0.0 && ldJson.q < 0.0 && geoJson.q < 0.0 then MimeNone
    else
      var ld := ldJson.q > json.q || (ldJson.q == json.q && ldJson.q >= 0.0
          && (json.order < 0 || ldJson.order < json.order));
      var best := if ld then ldJson else json;
      if geoJson.q > best.q || (geoJson.q == best.q && geoJson.q >= 0.0
          && (best.order < 0 || geoJson.order < best.order))
      then MimeGeoJson else if ld then MimeLdJson else MimeJson
  }

  lemma {:induction false} PickIsRight(es: seq<seq<Byte>>, strtod: Strtod, json: Best, ldJson: Best, geoJson: Best)
    requires Tracks(es, strtod, MimeJson, json) && Tracks(es, strtod, MimeLdJson, ldJson)
    requires Tracks(es, strtod, MimeGeoJson, geoJson)
    ensures var r := Pick(Excluded(json), Excluded(ldJson), Excluded(geoJson));
            && (r == MimeNone <==> forall e <- es :: !Acceptable(e, strtod))
            && (r != MimeNone ==> exists i :: First(es, strtod, i) && r == Kind(es[i]))
  {
    hide Kind, Q;
    var r := Pick(Excluded(json), Excluded(ldJson), Excluded(geoJson));
    var b := match r
             case MimeJson => json
             case MimeLdJson => ldJson
             case MimeGeoJson => geoJson
             case MimeNone => UNSEEN;
    if r == MimeNone {
      forall e | e in es ensures !Acceptable(e, strtod) {
        var j :| 0 <= j < |es| && es[j] == e;
        assert Kind(es[j]) != MimeNone ==>
            Kind(es[j]) == MimeJson || Kind(es[j]) == MimeLdJson || Kind(es[j]) == MimeGeoJson;
      }
    } else {
      assert b.q > 0.0;
      assert es[b.order] in es && Acceptable(es[b.order], strtod);
      forall j | 0 <= j < |es| && Acceptable(es[j], strtod)
        ensures Q(es[j], strtod) < b.q || (Q(es[j], strtod) == b.q && b.order <= j)
      {
        assert es[j] in es;
        assert Kind(es[j]) == MimeJson || Kind(es[j]) == MimeLdJson || Kind(es[j]) == MimeGeoJson;
      }
      assert First(es, strtod, b.order);
    }
  }

  lemma EntriesOn(s: seq<Byte>, t: seq<Byte>)
    requires t == SkipBlanks(s)
    ensures Entries(s) == if t == [] then []
                          else var k := IndexOf(t, COMMA); [t[..k]] + if k == |t| then [] else Entries(t[k + 1..])
  {
    hide IndexOf, SkipBlanks;
    SkipBlanksShorter(s);
  }

  method TrimSpaces(s: seq<Byte>) returns (p: nat)
    ensures p <= |s| && s[p..] == SkipBlanks(s)
  {
    p := 0;
    while p < |s| && Blank(s[p])
      invariant 0 <= p <= |s| && SkipBlanks(s[p..]) == SkipBlanks(s)
    {
      assert s[p..][1..] == s[p + 1..];
      p := p + 1;
    }
  }

  method NameEnd(s: seq<Byte>) returns (k: nat)
    ensures k == ToGap(s)
  {
    k := 0;
    while k < |s| && !Gap(s[k])
      invariant 0 <= k <= |s| && ToGap(s) == k + ToGap(s[k..])
    {
      assert s[k..][1..] == s[k + 1..];
      k := k + 1;
    }
  }

  // corAcceptParse
  method AcceptParse(header: Option<seq<Byte>>, strtod: Strtod) returns (r: Mime)
    ensures Right(header, strtod, r)
  {
    hide CString, SkipBlanks, Entries, Kind, QOf, ToGap, IndexOf, Tracks, Pick, Acceptable, First;
    if header.None? {
      return MimeJson;
    }
    var text := CString(header.value);
    if text == [] {
      return MimeJson;
    }
    var json, ldJson, geoJson := UNSEEN, UNSEEN, UNSEEN;
    var p, count := text, 0;
    ghost var es: seq<seq<Byte>> := [];
    NoneYet(strtod);
    while p != []
      invariant es + Entries(p) == Entries(text) && count == |es|
      invariant Tracks(es, strtod, MimeJson, json) && Tracks(es, strtod, MimeLdJson, ldJson)
      invariant Tracks(es, strtod, MimeGeoJson, geoJson)
      decreases |p|
    {
      var blanks := TrimSpaces(p);
      var t := p[blanks..];
      EntriesOn(p, t);
      p := t;
      if t == [] {
        assert es + [] == es;
        break;
      }
      var entryEnd := FindByte(t, COMMA);
      var entry := t[..entryEnd];
      var nameEnd := NameEnd(entry);
      var q := ExtractQ(entry[nameEnd..], strtod);
      var kind := KindOf(entry[..nameEnd], entry);
      TracksOn(es, strtod, MimeJson, json, entry);
      TracksOn(es, strtod, MimeLdJson, ldJson, entry);
      TracksOn(es, strtod, MimeGeoJson, geoJson, entry);
      if kind == MimeGeoJson {
        geoJson := Better(geoJson, true, q, count);
      } else if kind == MimeLdJson {
        ldJson := Better(ldJson, true, q, count);
      } else if kind == MimeJson {
        json := Better(json, true, q, count);
      }
      p := if entryEnd < |t| then t[entryEnd + 1..] else [];
      NoMore([]);
      assert [entry] + (if entryEnd == |t| then [] else Entries(t[entryEnd + 1..])) == [entry] + Entries(p);
      assert es + ([entry] + Entries(p)) == (es + [entry]) + Entries(p);
      es, count := es + [entry], count + 1;
    }
    NoMore([]);
    assert es + [] == es;
    PickIsRight(es, strtod, json, ldJson, geoJson);
    r := Pick(Excluded(json), Excluded(ldJson), Excluded(geoJson));
  }

  lemma NoneYet(strtod: Strtod)
    ensures forall kind :: Tracks([], strtod, kind, UNSEEN)
  {
  }

  lemma NoMore(p: seq<Byte>)
    requires p == []
    ensures Entries(p) == []
  {
  }
}
