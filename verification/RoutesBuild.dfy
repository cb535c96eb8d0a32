// The routes of a listener, one table per verb: HEAD for every GET, and OPTIONS for every
// path (corRestInit.c:1530-1615).
module RoutesBuild {
  import opened Base
  import opened CStrings
  import opened Routes
  import opened RouteAnswers

  const GET: Verb := 0
  const HEAD: Verb := 5
  const OPTIONS: Verb := 6

  // A service as the application declares it; a verb of 7 or more is none.
  datatype Simplified = Simplified(verb: nat, pattern: Pattern)

  predicate GoesTo(s: Simplified, v: Verb) {
    s.verb == v || (v == HEAD && s.verb == GET)
  }

  // What goes to a verb's table, in the order of declaration.
  function ForVerb(services: seq<Simplified>, v: Verb): seq<Pattern> {
    if services == [] then []
    else
      var last := services[|services| - 1];
      ForVerb(services[..|services| - 1], v) + if GoesTo(last, v) then [last.pattern] else []
  }

  // OPTIONS: its own, and then every path that is not there yet.
  function WithPaths(own: seq<Pattern>, services: seq<Simplified>): seq<Pattern> {
    if services == [] then own
    else
      var before, p := WithPaths(own, services[..|services| - 1]), services[|services| - 1].pattern;
      before + if p in before then [] else [p]
  }

  function Table(services: seq<Simplified>, v: Verb): seq<Pattern> {
    if v == OPTIONS then WithPaths(ForVerb(services, OPTIONS), services) else ForVerb(services, v)
  }

  // ---------------------------------------------------------------------------
  // What the tables mean

  lemma {:induction false} ForVerbHas(services: seq<Simplified>, v: Verb)
    ensures forall p :: p in ForVerb(services, v) <==> exists s <- services :: GoesTo(s, v) && s.pattern == p
  {
    if services != [] {
      var front, last := services[..|services| - 1], services[|services| - 1];
      ForVerbHas(front, v);
      assert forall s :: s in services <==> s in front || s == last;
    }
  }

  lemma {:induction false} WithPathsHas(own: seq<Pattern>, services: seq<Simplified>)
    ensures forall p :: p in WithPaths(own, services) <==> p in own || exists s <- services :: s.pattern == p
  {
    if services != [] {
      var front, last := services[..|services| - 1], services[|services| - 1];
      WithPathsHas(own, front);
      assert forall s :: s in services <==> s in front || s == last;
    }
  }

  // A verb serves a path when one of its declared routes matches; HEAD when one of GET's
  // does too; and OPTIONS when any route does, of whatever verb.
  lemma TablesServe(services: seq<Simplified>, path: seq<Byte>, v: Verb)
    ensures Serves(Table(services, v), path) <==>
            exists s <- services :: (v == OPTIONS || GoesTo(s, v)) && Matches(s.pattern, path)
  {
    hide Matches;
    ForVerbHas(services, v);
    WithPathsHas(ForVerb(services, OPTIONS), services);
    var t := Table(services, v);
    assert forall p :: p in t <==> exists s <- services :: (v == OPTIONS || GoesTo(s, v)) && s.pattern == p;
    if Serves(t, path) {
      var i :| 0 <= i < |t| && Matches(t[i], path);
      assert t[i] in t;
    }
    forall s | s in services && (v == OPTIONS || GoesTo(s, v)) && Matches(s.pattern, path) ensures Serves(t, path) {
      assert s.pattern in t;
      var i :| 0 <= i < |t| && t[i] == s.pattern;
    }
  }

  // The route a request is given is the first declared of its verb that matches - for HEAD,
  // of its own and GET's.
  lemma {:induction false} FirstDeclared(services: seq<Simplified>, path: seq<Byte>, v: Verb, k: nat) returns (j: nat)
    requires FirstMatch(ForVerb(services, v), path, Some(k))
    ensures j < |services| && services[j].pattern == ForVerb(services, v)[k] && Matches(services[j].pattern, path)
    ensures services[j].verb == v || (v == 5 && services[j].verb == 0)
    ensures forall i :: 0 <= i < j && (services[i].verb == v || (v == 5 && services[i].verb == 0)) ==>
              !Matches(services[i].pattern, path)
    decreases |services|
  {
    hide Matches;
    var n := |services| - 1;
    var front := ForVerb(services[..n], v);
    if k < |front| {
      assert forall i :: 0 <= i < |front| ==> ForVerb(services, v)[i] == front[i];
      j := FirstDeclared(services[..n], path, v, k);
    } else {
      j := n;
      ForVerbHas(services[..n], v);
      forall i | 0 <= i < n && GoesTo(services[i], v) ensures !Matches(services[i].pattern, path) {
        assert services[i] in services[..n];
        assert services[i].pattern in front;
        var m :| 0 <= m < |front| && front[m] == services[i].pattern;
        assert ForVerb(services, v)[m] == front[m];
      }
    }
  }

  // What a 405 answers: OPTIONS is always in its list, HEAD is when GET is; and a request
  // for OPTIONS is never answered 405.
  lemma AllowSaysOptions(services: seq<Simplified>, tables: seq<seq<Pattern>>, verb: Verb, path: seq<Byte>, a: Answer)
    requires |tables| == VERBS && forall v: Verb :: tables[v] == Table(services, v)
    requires Right(tables, verb, path, a) && a.NotAllowed?
    requires forall s <- services :: s.verb < VERBS
    ensures verb != OPTIONS && OPTIONS in Others(tables, verb, path, VERBS)
    ensures GET in Others(tables, verb, path, VERBS) && verb != HEAD ==> HEAD in Others(tables, verb, path, VERBS)
  {
    hide Matches, Serves, Named;
    OthersAre(tables, verb, path, VERBS);
    var v: Verb :| v != verb && Serves(tables[v], path);
    TablesServe(services, path, v);
    TablesServe(services, path, OPTIONS);
    TablesServe(services, path, GET);
    TablesServe(services, path, HEAD);
    TablesServe(services, path, verb);
  }

  // ---------------------------------------------------------------------------
  // The arrays

  class CorRestServiceVector {
    var serviceV: array<Service>
    var services: nat

    constructor ()
      ensures services == 0 && fresh(serviceV)
    {
      serviceV, services := new Service[0], 0;
    }

    ghost predicate Holding(patterns: seq<Pattern>)
      reads this, serviceV
    {
      services == |patterns| <= serviceV.Length && TableOf(serviceV[..services], patterns)
    }

    // One more, in room there is.
    method Push(p: Pattern, ghost patterns: seq<Pattern>)
      requires Good(p) && Holding(patterns) && services < serviceV.Length
      modifies this`services, serviceV
      ensures Holding(patterns + [p])
    {
      hide Good, PreparedFor, Url;
      var s := ServicePrepare(Url(p), p);
      serviceV[services] := s;
      services := services + 1;
      assert serviceV[..services] == old(serviceV[..services]) + [s];
    }

    // A URL is in the vector.
    method Has(p: Pattern, ghost patterns: seq<Pattern>) returns (found: bool)
      requires Good(p) && Holding(patterns)
      ensures found <==> p in patterns
    {
      hide Good, Url;
      var url := Url(p);
      for ox := 0 to services
        invariant forall k :: 0 <= k < ox ==> patterns[k] != p
      {
        assert TableOf(serviceV[..services], patterns);
        PreparedUrl(serviceV[..services][ox], patterns[ox]);
        if serviceV[ox].url == url {
          UrlTellsPattern(p, patterns[ox]);
          return true;
        }
      }
      return false;
    }
  }

  lemma PreparedUrl(s: Service, p: Pattern)
    requires PreparedFor(s, p)
    ensures s.url == Url(p)
  {
  }

  // The literal text ends at the URL's first star.
  lemma BeforeStar(p: Pattern)
    requires Good(p)
    ensures IndexOf(Url(p), STAR) == Before(p) <= |Url(p)| && (p.Exact? <==> Before(p) == |Url(p)|)
  {
    UrlAt(p);
    IndexOfIs(Url(p), STAR, Before(p));
  }

  // Two good patterns with the same URL are the same.
  lemma UrlTellsPattern(p: Pattern, q: Pattern)
    requires Good(p) && Good(q) && Url(p) == Url(q)
    ensures p == q
  {
    BeforeStar(p);
    BeforeStar(q);
    UrlAt(p);
    UrlAt(q);
  }

  lemma {:induction false} ForVerbOn(services: seq<Simplified>, ix: nat, v: Verb)
    requires ix < |services|
    ensures ForVerb(services[..ix + 1], v) ==
            ForVerb(services[..ix], v) + if GoesTo(services[ix], v) then [services[ix].pattern] else []
    ensures |ForVerb(services[..ix + 1], v)| <= |ForVerb(services, v)|
    decreases |services| - ix
  {
    assert services[..ix + 1][..ix] == services[..ix];
    if ix + 1 < |services| {
      ForVerbOn(services, ix + 1, v);
    } else {
      assert services[..ix + 1] == services;
    }
  }

  lemma {:induction false} WithPathsOn(own: seq<Pattern>, services: seq<Simplified>, ix: nat)
    requires ix < |services|
    ensures var before := WithPaths(own, services[..ix]);
            WithPaths(own, services[..ix + 1]) ==
            before + if services[ix].pattern in before then [] else [services[ix].pattern]
  {
    assert services[..ix + 1][..ix] == services[..ix];
  }

  // ---------------------------------------------------------------------------
  // routesBuild

  // The room each table needs; OPTIONS has room for every path on top of its own.
  function Room(services: seq<Simplified>, v: Verb): nat {
    |ForVerb(services, v)| + if v == OPTIONS then |services| else 0
  }

  method CountRoutes(services: seq<Simplified>) returns (counts: array<nat>)
    ensures fresh(counts) && counts.Length == VERBS
    ensures forall v: Verb :: counts[v] == Room(services, v)
  {
    hide ForVerb;
    counts := new nat[VERBS](_ => 0);
    NothingYet(services);
    for ix := 0 to |services|
      invariant forall v: Verb :: counts[v] == |ForVerb(services[..ix], v)|
    {
      forall v: Verb {
        ForVerbOn(services, ix, v);
      }
      if services[ix].verb < VERBS {
        counts[services[ix].verb] := counts[services[ix].verb] + 1;
      }
      if services[ix].verb == GET {
        counts[HEAD] := counts[HEAD] + 1;
      }
    }
    assert services[..|services|] == services;
    counts[OPTIONS] := counts[OPTIONS] + |services|;
  }

  lemma NothingYet(services: seq<Simplified>)
    ensures forall v: Verb :: ForVerb(services[..0], v) == []
    ensures forall own :: WithPaths(own, services[..0]) == own
  {
  }

  // The seven vectors are seven objects, with seven arrays.
  ghost predicate Apart(routeV: seq<CorRestServiceVector>)
    reads routeV
  {
    && |routeV| == VERBS
    && (forall v: Verb, w: Verb :: v != w ==> routeV[v] != routeV[w])
    && (forall v: Verb, w: Verb :: v != w ==> routeV[v].serviceV != routeV[w].serviceV)
  }

  function ArraysOf(routeV: seq<CorRestServiceVector>): (s: set<object>)
    reads routeV
  {
    set r <- routeV :: r.serviceV
  }

  // One service onto the vectors its verb sends it to.
  method Distribute(routeV: seq<CorRestServiceVector>, services: seq<Simplified>, ix: nat)
    requires Apart(routeV) && ix < |services| && Good(services[ix].pattern)
    requires forall v: Verb ::
               && routeV[v].Holding(ForVerb(services[..ix], v))
               && routeV[v].serviceV.Length == Room(services, v)
    modifies (set r <- routeV)`services, ArraysOf(routeV)
    ensures Apart(routeV)
    ensures forall v: Verb :: routeV[v].Holding(ForVerb(services[..ix + 1], v))
  {
    hide ForVerb, TableOf;
    var s := services[ix];
    forall v: Verb {
      ForVerbOn(services, ix, v);
    }
    if s.verb < VERBS {
      routeV[s.verb].Push(s.pattern, ForVerb(services[..ix], s.verb));
      if s.verb == GET {
        routeV[HEAD].Push(s.pattern, ForVerb(services[..ix], HEAD));
      }
    }
    forall v: Verb ensures routeV[v].Holding(ForVerb(services[..ix + 1], v)) {
      if !GoesTo(s, v) {
        assert ForVerb(services[..ix], v) + [] == ForVerb(services[..ix], v);
      }
    }
  }

  const NO_SERVICE := Service([], 0, false, 0, 0, [], 0)

  // The vectors emptied, each with an array of its own, of the room it needs.
  method Allocate(routeV: seq<CorRestServiceVector>, counts: array<nat>)
    requires |routeV| == VERBS == counts.Length && forall v: Verb, w: Verb :: v != w ==> routeV[v] != routeV[w]
    modifies routeV
    ensures Apart(routeV) && forall v: Verb :: routeV[v].services == 0 && routeV[v].serviceV.Length == counts[v]
    ensures fresh(ArraysOf(routeV))
  {
    for verb := 0 to VERBS
      invariant forall v: Verb :: v < verb ==>
                  routeV[v].services == 0 && routeV[v].serviceV.Length == counts[v] && fresh(routeV[v].serviceV)
      invariant forall v: Verb, w: Verb :: v < verb && w < verb && v != w ==> routeV[v].serviceV != routeV[w].serviceV
    {
      routeV[verb].services := 0;
      routeV[verb].serviceV := new Service[counts[verb]](_ => NO_SERVICE);
    }
  }

  // One path onto the OPTIONS vector, unless it is there.
  method AddPath(options: CorRestServiceVector, services: seq<Simplified>, ix: nat, ghost own: seq<Pattern>)
    requires ix < |services| && Good(services[ix].pattern)
    requires options.Holding(WithPaths(own, services[..ix]))
    requires |WithPaths(own, services[..ix])| <= |own| + ix && |own| + |services| == options.serviceV.Length
    modifies options`services, options.serviceV
    ensures options.Holding(WithPaths(own, services[..ix + 1]))
    ensures |WithPaths(own, services[..ix + 1])| <= |own| + (ix + 1)
  {
    hide WithPaths, TableOf, Good;
    ghost var before := WithPaths(own, services[..ix]);
    WithPathsOn(own, services, ix);
    var found := options.Has(services[ix].pattern, before);
    if !found {
      options.Push(services[ix].pattern, before);
    } else {
      assert before + [] == before;
    }
  }

  // Every service onto its verbs' vectors.
  method DistributeAll(routeV: seq<CorRestServiceVector>, services: seq<Simplified>)
    requires Apart(routeV) && forall s <- services :: Good(s.pattern)
    requires forall v: Verb :: routeV[v].services == 0 && routeV[v].serviceV.Length == Room(services, v)
    modifies (set r <- routeV)`services, ArraysOf(routeV)
    ensures Apart(routeV) && forall v: Verb :: routeV[v].Holding(ForVerb(services, v))
  {
    hide ForVerb, TableOf, Good, PreparedFor;
    NothingYet(services);
    EmptyTable();
    for ix := 0 to |services|
      invariant Apart(routeV)
      invariant forall v: Verb ::
                  && routeV[v].Holding(ForVerb(services[..ix], v))
                  && routeV[v].serviceV.Length == Room(services, v)
    {
      Distribute(routeV, services, ix);
    }
    assert services[..|services|] == services;
  }

  // Every path onto the OPTIONS vector.
  method AddPaths(options: CorRestServiceVector, services: seq<Simplified>, ghost own: seq<Pattern>)
    requires options.Holding(own) && |own| + |services| == options.serviceV.Length
    requires forall s <- services :: Good(s.pattern)
    modifies options`services, options.serviceV
    ensures options.Holding(WithPaths(own, services))
  {
    hide WithPaths, TableOf, Good, PreparedFor;
    NothingYet(services);
    for ix := 0 to |services|
      invariant options.Holding(WithPaths(own, services[..ix])) && |WithPaths(own, services[..ix])| <= |own| + ix
    {
      AddPath(options, services, ix, own);
    }
    assert services[..|services|] == services;
  }

  // routesBuild: every verb's vector holds its table, prepared.
  method Build(routeV: seq<CorRestServiceVector>, services: seq<Simplified>)
    requires |routeV| == VERBS && forall v: Verb, w: Verb :: v != w ==> routeV[v] != routeV[w]
    requires forall s <- services :: Good(s.pattern)
    modifies routeV
    ensures Apart(routeV) && forall v: Verb :: routeV[v].Holding(Table(services, v))
  {
    hide ForVerb, WithPaths, TableOf, Good, PreparedFor;
    var counts := CountRoutes(services);
    Allocate(routeV, counts);
    DistributeAll(routeV, services);
    assert routeV[OPTIONS].serviceV in ArraysOf(routeV);
    AddPaths(routeV[OPTIONS], services, ForVerb(services, OPTIONS));
  }

  lemma EmptyTable()
    ensures TableOf([], [])
  {
  }
}
