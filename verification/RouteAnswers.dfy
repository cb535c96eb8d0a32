// What a request is answered whose path has no route for its verb: 400 when a segment is
// empty, 405 with the verbs that do have one, 404 when none has: section 15.5.6 of
// RFC 9110, as corRestInit.c:533-602 does it with a path every probe may cut.
module RouteAnswers {
  import opened Base
  import opened CStrings
  import opened Routes

  const VERBS: nat := 7

  type Verb = v: nat | v < 7

  // corRestVerbToString: GET, PUT, POST, DELETE, PATCH, HEAD, OPTIONS
  function VerbString(v: Verb): (s: seq<Byte>)
    ensures 0 < |s| <= 7
  {
    if v == 0 then [71, 69, 84]
    else if v == 1 then [80, 85, 84]
    else if v == 2 then [80, 79, 83, 84]
    else if v == 3 then [68, 69, 76, 69, 84, 69]
    else if v == 4 then [80, 65, 84, 67, 72]
    else if v == 5 then [72, 69, 65, 68]
    else [79, 80, 84, 73, 79, 78, 83]
  }

  lemma VerbTexts()
    ensures VerbString(0) == Ascii("GET") && VerbString(1) == Ascii("PUT") && VerbString(2) == Ascii("POST")
    ensures VerbString(4) == Ascii("PATCH") && VerbString(5) == Ascii("HEAD")
  {
  }

  lemma LongVerbTexts()
    ensures VerbString(3) == Ascii("DELETE") && VerbString(6) == Ascii("OPTIONS")
  {
  }

  // The table has a route for this path.
  ghost predicate Serves(patterns: seq<Pattern>, path: seq<Byte>) {
    exists i :: 0 <= i < |patterns| && Matches(patterns[i], path)
  }

  // The verbs below v, in order, that would serve the path, but the request's own.
  ghost function Others(tables: seq<seq<Pattern>>, verb: Verb, path: seq<Byte>, v: nat): seq<Verb>
    requires v <= |tables| == VERBS
  {
    if v == 0 then []
    else Others(tables, verb, path, v - 1) + if v - 1 != verb && Serves(tables[v - 1], path) then [v - 1] else []
  }

  lemma {:induction false} OthersAre(tables: seq<seq<Pattern>>, verb: Verb, path: seq<Byte>, v: nat)
    requires v <= |tables| == VERBS
    ensures forall w: Verb :: w in Others(tables, verb, path, v) <==> w < v && w != verb && Serves(tables[w], path)
    ensures Distinct(Others(tables, verb, path, v))
  {
    if v > 0 {
      OthersAre(tables, verb, path, v - 1);
    }
  }

  function Named(vs: seq<Verb>): seq<Byte>
  {
    if vs == [] then []
    else if |vs| == 1 then VerbString(vs[0])
    else Named(vs[..|vs| - 1]) + [44, 32] + VerbString(vs[|vs| - 1])
  }

  // One after the other, a comma and a space between them.
  lemma {:induction false} NamedJoins(a: seq<Verb>, b: seq<Verb>)
    requires a != [] && b != []
    ensures Named(a + b) == Named(a) + Ascii(", ") + Named(b)
    decreases |b|
  {
    hide Named, VerbString, Ascii;
    var n := |b| - 1;
    var front, v := b[..n], b[n];
    CommaAndBlank();
    assert b == front + [v];
    assert a + b == (a + front) + [v];
    NamedOn(a + front, v);
    NamedOn(front, v);
    if n == 0 {
      assert a + front == a;
      assert front + [v] == [v];
      NothingNamed();
      assert Named(a) + [44, 32] + VerbString(v) == Named(a) + [44, 32] + Named(b);
    } else {
      NamedJoins(a, front);
      Regroup(Named(a), [44, 32], Named(front), VerbString(v));
    }
  }

  lemma CommaAndBlank()
    ensures Ascii(", ") == [44, 32]
  {
  }

  lemma NothingNamed()
    ensures Named([]) == []
  {
  }

  lemma Regroup(a: seq<Byte>, gap: seq<Byte>, b: seq<Byte>, c: seq<Byte>)
    ensures a + gap + b + gap + c == a + gap + (b + gap + c)
  {
  }

  // strstr(path, "//")
  predicate EmptySegment(path: seq<Byte>) {
    exists i :: 0 <= i && i + 1 < |path| && path[i] == SLASH && path[i + 1] == SLASH
  }

  lemma EmptySegmentMeans(before: seq<Byte>, after: seq<Byte>)
    ensures EmptySegment(before + Ascii("//") + after)
    ensures (forall i :: 0 <= i < |before| ==> before[i] != SLASH || i + 1 == |before| || before[i + 1] != SLASH) ==>
              !EmptySegment(before)
  {
    assert Ascii("//") == [47, 47];
    var path := before + Ascii("//") + after;
    assert path[|before|] == 47 && path[|before| + 1] == 47;
  }

  datatype Answer =
    | Route(index: nat, wildcard: Option<nat>)
    | BadPath                     // 400
    | NotAllowed(allow: seq<Byte>) // 405
    | NotFound                    // 404

  // What the request should be answered.
  ghost predicate Right(tables: seq<seq<Pattern>>, verb: Verb, path: seq<Byte>, a: Answer)
    requires |tables| == VERBS
  {
    match a
    case Route(k, _) => FirstMatch(tables[verb], path, Some(k))
    case BadPath => !Serves(tables[verb], path) && EmptySegment(path)
    case NotAllowed(allow) =>
      && !Serves(tables[verb], path) && !EmptySegment(path)
      && (exists v: Verb :: v != verb && Serves(tables[v], path))
      && allow == Named(Others(tables, verb, path, VERBS))
    case NotFound => !EmptySegment(path) && forall v: Verb :: !Serves(tables[v], path)
  }

  // ---------------------------------------------------------------------------

  method HasEmptySegment(path: seq<Byte>) returns (r: bool)
    ensures r <==> EmptySegment(path)
  {
    var i := 0;
    while i + 1 < |path|
      invariant 0 <= i && forall k :: 0 <= k < i && k + 1 < |path| ==> !(path[k] == SLASH && path[k + 1] == SLASH)
      decreases |path| - i
    {
      if path[i] == SLASH && path[i + 1] == SLASH {
        return true;
      }
      i := i + 1;
    }
    return false;
  }

  // strcpy
  method Restore(urlPath: array<Byte>, path: seq<Byte>)
    requires |path| < urlPath.Length && NUL !in path
    modifies urlPath
    ensures Holds(urlPath[..], 0, path, urlPath.Length)
  {
    forall k | 0 <= k < |path| {
      urlPath[k] := path[k];
    }
    urlPath[|path|] := NUL;
  }

  // memcpy onto the end of the list
  method Append(allow: array<Byte>, pos: nat, text: seq<Byte>)
    requires pos + |text| <= allow.Length
    modifies allow
    ensures allow[..pos + |text|] == old(allow[..pos]) + text
  {
    forall k | 0 <= k < |text| {
      allow[pos + k] := text[k];
    }
  }

  lemma NamedOn(vs: seq<Verb>, v: Verb)
    ensures Named(vs + [v]) == Named(vs) + (if vs == [] then [] else [44, 32]) + VerbString(v)
    ensures |Named(vs + [v])| <= |Named(vs)| + 9 && Named(vs + [v]) != []
  {
    assert (vs + [v])[..|vs|] == vs;
  }

  lemma FoundServes(patterns: seq<Pattern>, path: seq<Byte>, found: Option<nat>)
    requires FirstMatch(patterns, path, found)
    ensures found.Some? <==> Serves(patterns, path)
  {
  }

  // One probe: the full path back, and another verb's table asked.
  method Probe(urlPath: array<Byte>, reqPath: seq<Byte>, serviceV: seq<Service>, ghost patterns: seq<Pattern>)
    returns (serves: bool)
    requires |reqPath| < urlPath.Length && NUL !in reqPath && TableOf(serviceV, patterns)
    modifies urlPath
    ensures serves <==> Serves(patterns, reqPath)
  {
    hide Matches, CutFor;
    Restore(urlPath, reqPath);
    var found, _ := ServiceLookup(urlPath, reqPath, serviceV, patterns);
    FoundServes(patterns, reqPath, found);
    return found.Some?;
  }

  // The names of the verbs, but the request's own, that would serve the path.
  method AllowList(urlPath: array<Byte>, reqPath: seq<Byte>, verb: Verb, routes: seq<seq<Service>>,
                   ghost tables: seq<seq<Pattern>>)
    returns (allow: array<Byte>, pos: nat)
    requires |reqPath| < urlPath.Length && NUL !in reqPath
    requires |routes| == |tables| == VERBS && forall v :: 0 <= v < VERBS ==> TableOf(routes[v], tables[v])
    modifies urlPath
    ensures fresh(allow) && pos < allow.Length && allow[pos] == NUL
    ensures var vs := Others(tables, verb, reqPath, VERBS);
            (pos > 0 <==> vs != []) && allow[..pos] == Named(vs)
  {
    hide Serves, Named, VerbString;
    allow, pos := new Byte[128], 0;
    ghost var vs: seq<Verb> := [];
    NoneNamed(vs);
    for v := 0 to VERBS
      invariant vs == Others(tables, verb, reqPath, v)
      invariant pos == |Named(vs)| <= 9 * v && allow[..pos] == Named(vs) && (pos > 0 <==> vs != [])
    {
      if v == verb {
        continue;
      }
      var serves := Probe(urlPath, reqPath, routes[v], tables[v]);
      if !serves {
        continue;
      }
      NamedOn(vs, v);
      if pos > 0 {
        Append(allow, pos, [44, 32]);
        pos := pos + 2;
      }
      var name := VerbString(v);
      if pos + |name| >= 128 {
        break;
      }
      Append(allow, pos, name);
      pos := pos + |name|;
      vs := vs + [v];
    }
    allow[pos] := NUL;
  }

  lemma NoneNamed(vs: seq<Verb>)
    requires vs == []
    ensures Named(vs) == []
  {
  }

  // The routing part of corRestProcessRequest.
  method Dispatch(urlPath: array<Byte>, ghost path: seq<Byte>, verb: Verb, routes: seq<seq<Service>>,
                  ghost tables: seq<seq<Pattern>>)
    returns (a: Answer)
    requires Holds(urlPath[..], 0, path, urlPath.Length)
    requires |routes| == |tables| == VERBS && forall v :: 0 <= v < VERBS ==> TableOf(routes[v], tables[v])
    modifies urlPath
    ensures Right(tables, verb, path, a)
    ensures a.Route? ==> CutFor(tables[verb][a.index], path, old(urlPath[..]), urlPath[..], a.wildcard)
  {
    hide Matches, Others, Named, CString;
    var found, wildcard := ServiceLookup(urlPath, path, routes[verb], tables[verb]);
    FoundServes(tables[verb], path, found);
    if found.Some? {
      return Route(found.value, wildcard);
    }
    HoldsString(urlPath[..], path);
    var reqPath := CString(urlPath[..]);
    var empty := HasEmptySegment(reqPath);
    if empty {
      return BadPath;
    }
    var allow, pos := AllowList(urlPath, reqPath, verb, routes, tables);
    OthersAre(tables, verb, path, VERBS);
    if pos > 0 {
      assert Others(tables, verb, path, VERBS)[0] in Others(tables, verb, path, VERBS);
      return NotAllowed(allow[..pos]);
    }
    return NotFound;
  }
}
