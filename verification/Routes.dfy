// Routes: a pattern prepared at start-up for a lookup by character sums
// (corRestInit.c:106-228), the lookup, which cuts the path it matches
// (corRestServiceLookup.c:31-168), and what a path without a route is answered
// (corRestInit.c:533-602). Exact routes and routes with one wildcard.
module Routes {
  import opened Base
  import opened CStrings

  const STAR: Byte := 42
  const SLASH: Byte := 47
  const COLON: Byte := 58

  // ---------------------------------------------------------------------------
  // What a route means

  // "/a/b", "/a/*", "/a/*/b"; greedy: "**" in place of "*".
  datatype Pattern = Exact(text: seq<Byte>) | Wild(prefix: seq<Byte>, greedy: bool, suffix: seq<Byte>)

  function Star(greedy: bool): seq<Byte> {
    if greedy then [STAR, STAR] else [STAR]
  }

  // The pattern as it is registered.
  function Url(p: Pattern): seq<Byte> {
    match p
    case Exact(text) => text
    case Wild(prefix, greedy, suffix) => prefix + Star(greedy) + suffix
  }

  predicate Literal(s: seq<Byte>) {
    NUL !in s && STAR !in s
  }

  // The lengths the arrays of the lookup have room for.
  predicate Good(p: Pattern) {
    match p
    case Exact(text) => Literal(text) && 1 <= |text| <= 64
    case Wild(prefix, _, suffix) => Literal(prefix) && Literal(suffix) && 1 <= |prefix| <= 64 && |suffix| < 16
  }

  predicate IsLower(b: Byte) { 97 <= b <= 122 }

  predicate SchemeChar(b: Byte) {
    IsLower(b) || IsDigit(b) || b == 43 || b == 46 || b == 45
  }

  // "<scheme>://", its scheme k characters.
  predicate SchemeOf(w: seq<Byte>, k: nat) {
    && 1 <= k && k + 3 <= |w| && IsLower(w[0]) && (forall i :: 0 <= i < k ==> SchemeChar(w[i]))
    && w[k] == COLON && w[k + 1] == SLASH && w[k + 2] == SLASH
  }

  ghost predicate IsUrl(w: seq<Byte>) {
    exists k: nat :: SchemeOf(w, k)
  }

  // What a wildcard stands for: something, of one segment - a URL counts as one - unless
  // it is greedy.
  ghost predicate WildTakes(greedy: bool, w: seq<Byte>) {
    w != [] && (greedy || SLASH !in w || IsUrl(w))
  }

  predicate Between(b: Byte, from: char, to: char) {
    from as int <= b <= to as int
  }

  // A scheme of k characters: a small letter, then small letters, digits, '+', '.' and '-',
  // and "://" behind it.
  lemma SchemeMeans(w: seq<Byte>, k: nat)
    ensures SchemeOf(w, k) <==>
              && 1 <= k && k + 3 <= |w| && Between(w[0], 'a', 'z')
              && (forall i :: 0 <= i < k ==> Between(w[i], 'a', 'z') || Between(w[i], '0', '9') || w[i] in Ascii("+.-"))
              && w[k..k + 3] == Ascii("://")
  {
    Slashes();
    if k + 3 <= |w| {
      assert w[k..k + 3] == [w[k], w[k + 1], w[k + 2]];
    }
  }

  lemma Slashes()
    ensures Ascii("://") == [COLON, SLASH, SLASH] && Ascii("+.-") == [43, 46, 45]
  {
  }

  ghost predicate Matches(p: Pattern, path: seq<Byte>) {
    match p
    case Exact(text) => path == text
    case Wild(prefix, greedy, suffix) => exists w :: path == prefix + w + suffix && WildTakes(greedy, w)
  }

  // The first route of the table that matches.
  ghost predicate FirstMatch(patterns: seq<Pattern>, path: seq<Byte>, found: Option<nat>) {
    match found
    case None => forall i :: 0 <= i < |patterns| ==> !Matches(patterns[i], path)
    case Some(k) => k < |patterns| && Matches(patterns[k], path) && forall i :: 0 <= i < k ==>
        !Matches(patterns[i], path)
  }

  // The text the wildcard stands for.
  function Wildcard(p: Pattern, path: seq<Byte>): seq<Byte>
    requires p.Wild? && |p.prefix| + |p.suffix| <= |path|
  {
    path[|p.prefix|..|path| - |p.suffix|]
  }

  // There is one text at most the wildcard can stand for.
  lemma MatchesWild(p: Pattern, path: seq<Byte>)
    requires p.Wild?
    ensures Matches(p, path) <==>
              && |p.prefix| + |p.suffix| < |path| && path[..|p.prefix|] == p.prefix
              && path[|path| - |p.suffix|..] == p.suffix && WildTakes(p.greedy, Wildcard(p, path))
  {
    var n, m := |p.prefix|, |p.suffix|;
    if n + m < |path| && path[..n] == p.prefix && path[|path| - m..] == p.suffix {
      assert path == p.prefix + Wildcard(p, path) + p.suffix;
    }
    forall w | path == p.prefix + w + p.suffix && WildTakes(p.greedy, w)
      ensures n + m < |path| && path[..n] == p.prefix && path[|path| - m..] == p.suffix && w == Wildcard(p, path)
    {
    }
  }

  // ---------------------------------------------------------------------------
  // servicePrepare

  function Sum(s: seq<Byte>): int {
    if s == [] then 0 else Sum(s[..|s| - 1]) + Signed(s[|s| - 1])
  }

  lemma SumOn(s: seq<Byte>, k: nat)
    requires k < |s|
    ensures Sum(s[..k + 1]) == Sum(s[..k]) + Signed(s[k])
  {
    assert s[..k + 1][..k] == s[..k];
  }

  // A service, as far as routes of one wildcard go; `match` is matchForSecondWildcard.
  datatype Service = Service(
    url: seq<Byte>, wildcards: nat, greedy: bool, charsBeforeFirstWildcard: nat, charsBeforeFirstWildcardSum: int,
    matchForSecondWildcard: seq<Byte>, matchForSecondWildcardLen: nat)

  // What the lookup needs a prepared service to be.
  predicate PreparedFor(s: Service, p: Pattern) {
    s.url == Url(p) &&
    match p
    case Exact(text) =>
      s.wildcards == 0 && s.charsBeforeFirstWildcard == |text| && s.charsBeforeFirstWildcardSum == Sum(text)
    case Wild(prefix, greedy, suffix) =>
      && s.wildcards == 1 && s.greedy == greedy
      && s.charsBeforeFirstWildcard == |prefix| && s.charsBeforeFirstWildcardSum == Sum(prefix)
      && s.matchForSecondWildcardLen == |suffix| && s.matchForSecondWildcard == suffix
  }

  // Where the text in front of the wildcard ends, and where the text after it starts.
  function Before(p: Pattern): nat {
    if p.Exact? then |p.text| else |p.prefix|
  }

  function After(p: Pattern): nat
    requires p.Wild?
  {
    |p.prefix| + |Star(p.greedy)|
  }

  lemma UrlAt(p: Pattern)
    requires Good(p)
    ensures var url := Url(p);
            && Before(p) <= |url| && (forall k :: 0 <= k < Before(p) ==> url[k] != STAR)
            && (p.Exact? ==> Before(p) == |url| && url == p.text)
            && (p.Wild? ==>
                  && Before(p) < After(p) <= |url| && url[..Before(p)] == p.prefix && url[Before(p)] == STAR
                  && (Before(p) + 1 < |url| && url[Before(p) + 1] == STAR <==> p.greedy)
                  && (forall k :: After(p) <= k < |url| ==> url[k] != STAR) && url[After(p)..] == p.suffix)
  {
    var url := Url(p);
    if p.Wild? {
      assert forall k :: 0 <= k < |p.prefix| ==> url[k] == p.prefix[k];
      assert forall k :: After(p) <= k < |url| ==> url[k] == p.suffix[k - After(p)];
      assert !p.greedy && Before(p) + 1 < |url| ==> url[Before(p) + 1] == p.suffix[0];
    }
  }

  // servicePrepare; p: the pattern, when the URL is a good one.
  method ServicePrepare(url: seq<Byte>, ghost p: Pattern) returns (s: Service)
    ensures Good(p) && url == Url(p) ==> PreparedFor(s, p)
  {
    hide Sum, Url, Good;
    ghost var good := Good(p) && url == Url(p);
    if good {
      UrlAt(p);
      GoodSuffix(p);
    }
    EmptySum(url);
    var wildcards: nat, greedy, chars: nat, sum := 0, false, 0, 0;
    var wildCardStart: nat, wildCardEnd: Option<nat> := 0, None;
    var ix: nat := 0;
    while ix < |url|
      invariant 0 <= ix <= |url|
      invariant wildcards > 0 ==> wildCardStart <= ix
      invariant wildCardEnd.Some? ==> wildcards > 1 && wildCardStart <= wildCardEnd.value <= |url|
      invariant good ==> wildCardEnd.None?
      invariant good && ix <= Before(p) ==> wildcards == 0 && !greedy && chars == ix && sum == Sum(url[..ix])
      invariant good && ix > Before(p) ==>
                  && p.Wild? && ix >= After(p) && wildcards == 1 && greedy == p.greedy && wildCardStart == After(p)
                  && chars == Before(p) && sum == Sum(url[..Before(p)])
      decreases |url| - ix
    {
      var c := url[ix];
      if c == STAR {
        if ix + 1 < |url| && url[ix + 1] == STAR {
          greedy := true;
          ix := ix + 1;
        }
        if wildcards == 0 {
          wildCardStart := ix + 1;
        } else if wildcards == 1 {
          wildCardEnd := Some(ix);
        }
        wildcards := wildcards + 1;
        ix := ix + 1;
        continue;
      }
      SumOn(url, ix);
      if wildcards == 0 {
        chars := chars + 1;
        sum := sum + Signed(c);
      }
      ix := ix + 1;
    }
    var len: nat, matched := 0, [];
    if wildcards != 0 {
      var end := if wildCardEnd.None? then ix else wildCardEnd.value;
      len := end - wildCardStart;
      if 0 < len < 16 {
        matched := url[wildCardStart..end];
      }
    }
    assert url[..|url|] == url;
    s := Service(url, wildcards, greedy, chars, sum, matched, len);
  }

  lemma EmptySum(s: seq<Byte>)
    ensures Sum(s[..0]) == 0
  {
  }

  lemma GoodSuffix(p: Pattern)
    requires Good(p)
    ensures p.Wild? ==> |p.suffix| < 16
  {
  }

  // ---------------------------------------------------------------------------
  // The lookup

  method IsUrlForm(w: seq<Byte>) returns (r: bool)
    ensures r <==> IsUrl(w)
  {
    if |w| < 4 || !IsLower(w[0]) {
      return false;
    }
    var p: nat := 1;
    while p < |w| && SchemeChar(w[p])
      invariant 1 <= p <= |w| && forall i :: 0 <= i < p ==> SchemeChar(w[i])
    {
      p := p + 1;
    }
    assert forall k: nat :: SchemeOf(w, k) ==> k == p;
    r := p + 2 < |w| && w[p] == COLON && w[p + 1] == SLASH && w[p + 2] == SLASH;
    assert r ==> SchemeOf(w, p);
  }

  const MAX_CHARS: nat := 64

  // requestPrepare: the sums of the path's first characters, and its length.
  method RequestPrepare(url: seq<Byte>, cSumV: array<int>) returns (cSums: nat, sLen: nat)
    requires cSumV.Length == MAX_CHARS
    modifies cSumV
    ensures sLen == |url| && cSums == (if sLen < MAX_CHARS then sLen else MAX_CHARS)
    ensures forall k :: 1 <= k <= cSums ==> cSumV[k - 1] == Sum(url[..k])
  {
    hide Sum;
    if url == [] {
      return 0, 0;
    }
    EmptySum(url);
    SumOn(url, 0);
    cSumV[0] := Signed(url[0]);
    var ix := 1;
    while ix < |url| && ix < MAX_CHARS
      invariant 1 <= ix <= |url| && ix <= MAX_CHARS
      invariant forall k :: 1 <= k <= ix ==> cSumV[k - 1] == Sum(url[..k])
    {
      SumOn(url, ix);
      cSumV[ix] := cSumV[ix - 1] + Signed(url[ix]);
      ix := ix + 1;
    }
    cSums, sLen := ix, |url|;
  }

  // The wildcard's text, when it may stand for it.
  method TakesOneSegment(greedy: bool, w: seq<Byte>) returns (r: bool)
    requires w != []
    ensures r <==> WildTakes(greedy, w)
  {
    if greedy {
      return true;
    }
    var hasSlash := false;
    for j := 0 to |w|
      invariant hasSlash <==> SLASH in w[..j]
    {
      assert w[..j + 1] == w[..j] + [w[j]];
      if w[j] == SLASH {
        hasSlash := true;
      }
    }
    assert w[..|w|] == w;
    var isUrl := IsUrlForm(w);
    return !hasSlash || isUrl;
  }

  // One service against the path: its length and its sum first. The wildcard's text is at
  // path[at..end].
  method MatchOne(s: Service, path: seq<Byte>, cSumV: array<int>, ghost p: Pattern) returns (r: Option<(nat, nat)>)
    requires Good(p) && PreparedFor(s, p) && cSumV.Length == MAX_CHARS
    requires forall k :: 1 <= k <= |path| && k <= MAX_CHARS ==> cSumV[k - 1] == Sum(path[..k])
    ensures r.Some? <==> Matches(p, path)
    ensures r.Some? && p.Exact? ==> r.value == (0, |path|)
    ensures r.Some? && p.Wild? ==> r.value == (|p.prefix|, |path| - |p.suffix|)
  {
    hide Sum, WildTakes, Matches, Url;
    var sLen, n := |path|, s.charsBeforeFirstWildcard;
    if s.wildcards == 0 {
      assert path[..sLen] == path;
      ExactMatches(p, path);
      if n == sLen {
        if s.charsBeforeFirstWildcardSum == cSumV[sLen - 1] {
          if s.url == path {
            return Some((0, sLen));
          }
        }
      }
      return None;
    }
    MatchesWild(p, path);
    if n < sLen {
      if s.charsBeforeFirstWildcardSum == cSumV[n - 1] {
        UrlAt(p);
        if s.url[..n] == path[..n] {
          var m := s.matchForSecondWildcardLen;
          if m != 0 {
            var endIndex := (sLen as int) - m;
            if endIndex > n && path[endIndex..] == s.matchForSecondWildcard {
              var takes := TakesOneSegment(s.greedy, path[n..endIndex]);
              if takes {
                return Some((n, endIndex));
              }
            }
          } else {
            var takes := TakesOneSegment(s.greedy, path[n..]);
            assert path[n..sLen - m] == path[n..];
            assert path[sLen - m..] == p.suffix;
            if takes {
              return Some((n, sLen));
            }
          }
        }
      }
    }
    return None;
  }

  lemma ExactMatches(p: Pattern, path: seq<Byte>)
    requires p.Exact?
    ensures Matches(p, path) <==> path == p.text
    ensures Url(p) == p.text
  {
  }

  // A table, and what its services were prepared from.
  ghost predicate TableOf(serviceV: seq<Service>, patterns: seq<Pattern>) {
    |serviceV| == |patterns| && forall i :: 0 <= i < |patterns| ==>
        Good(patterns[i]) && PreparedFor(serviceV[i], patterns[i])
  }

  // What a match leaves of the path: whole, or cut after the wildcard, which can then be
  // read where it is.
  ghost predicate CutFor(p: Pattern, path: seq<Byte>, before: seq<Byte>, after: seq<Byte>, wildcard: Option<nat>) {
    match p
    case Exact(_) => after == before && wildcard.None?
    case Wild(prefix, _, suffix) =>
      && |prefix| + |suffix| < |path| < |before|
      && after == before[|path| - |suffix| := NUL]
      && wildcard == Some(|prefix|) && Holds(after, |prefix|, Wildcard(p, path), |after|)
  }

  // corRestServiceLookup, on a path that is a C string in its buffer.
  method ServiceLookup(urlPath: array<Byte>, ghost path: seq<Byte>, serviceV: seq<Service>,
                       ghost patterns: seq<Pattern>)
    returns (found: Option<nat>, wildcard: Option<nat>)
    requires Holds(urlPath[..], 0, path, urlPath.Length) && TableOf(serviceV, patterns)
    modifies urlPath
    ensures FirstMatch(patterns, path, found)
    ensures found.None? ==> urlPath[..] == old(urlPath[..]) && wildcard.None?
    ensures found.Some? ==> CutFor(patterns[found.value], path, old(urlPath[..]), urlPath[..], wildcard)
  {
    hide Matches, PreparedFor, Good, CString;
    var cSumV := new int[MAX_CHARS];
    HoldsString(urlPath[..], path);
    var s := CString(urlPath[..]);
    var _, sLen := RequestPrepare(s, cSumV);
    for ix := 0 to |serviceV|
      invariant forall i :: 0 <= i < ix ==> !Matches(patterns[i], path)
      invariant urlPath[..] == old(urlPath[..])
      invariant forall k :: 1 <= k <= |path| && k <= MAX_CHARS ==> cSumV[k - 1] == Sum(path[..k])
    {
      var serviceP := serviceV[ix];
      ghost var p := patterns[ix];
      var r := MatchOne(serviceP, s, cSumV, p);
      if r.Some? {
        PreparedWildcards(serviceP, p);
        if serviceP.wildcards == 0 {
          return Some(ix), None;
        }
        var (at, endIndex) := r.value;
        MatchesWild(p, path);
        WildcardHeld(p, path, urlPath[..]);
        urlPath[endIndex] := NUL;
        return Some(ix), Some(at);
      }
    }
    return None, None;
  }

  lemma HoldsString(b: seq<Byte>, s: seq<Byte>)
    requires Holds(b, 0, s, |b|)
    ensures CString(b) == s
  {
    assert b == s + [NUL] + b[|s| + 1..];
    StringEndsAtNul(s, b[|s| + 1..]);
    CStringOfPlain(s);
  }

  lemma PreparedWildcards(s: Service, p: Pattern)
    requires PreparedFor(s, p)
    ensures s.wildcards == 0 <==> p.Exact?
  {
  }

  lemma WildcardHeld(p: Pattern, path: seq<Byte>, b: seq<Byte>)
    requires p.Wild? && |p.prefix| + |p.suffix| < |path| && Holds(b, 0, path, |b|)
    ensures Holds(b[|path| - |p.suffix| := NUL], |p.prefix|, Wildcard(p, path), |b|)
  {
    var end := |path| - |p.suffix|;
    assert forall k :: 0 <= k < |path| ==> b[k] == path[k];
  }
}
