/** What the route cache's engine answers to a request, in terms of the stored routes and the characters of
    their paths: a segment that starts with a colon stands for any segment, a route with a segment that starts
    with a star is never found, and routes open to DELETE or PATCH are also found one segment further down. */
module RouteLookup {
  import opened RoutePaths
  import opened RouteTrie
  import opened RouteView
  import opened Seqs
  import opened Wrappers

  /** The pattern stands for the path. */
  predicate Serves(pattern: seq<string>, segments: seq<string>) {
    pattern != [] && |pattern| == |segments| &&
    forall k :: 0 <= k < |pattern| ==> !("*" <= pattern[k]) && (":" <= pattern[k] || pattern[k] == segments[k])
  }

  /** Where the two patterns first differ in shape, `p` has a static segment. */
  ghost predicate MoreStatic(p: seq<string>, q: seq<string>)
    requires |p| == |q|
  {
    forall k :: 0 <= k < |p| && ":" <= p[k] && !(":" <= q[k]) ==>
      exists j :: 0 <= j < k && !(":" <= p[j]) && ":" <= q[j]
  }

  /** The patterns have their parameters at the same places. */
  ghost predicate SameShape(p: seq<string>, q: seq<string>)
    requires |p| == |q|
  {
    forall k :: 0 <= k < |p| ==> (":" <= p[k] <==> ":" <= q[k])
  }

  lemma KindsOf(segment: string)
    ensures IsWildcard(segment) <==> "*" <= segment
    ensures IsParameter(segment) <==> ":" <= segment
  {
  }

  lemma ServesIff(pattern: seq<string>, segments: seq<string>)
    ensures Serves(pattern, segments) <==> Matches(pattern, segments)
  {
    forall k | 0 <= k < |pattern|
      ensures IsWildcard(pattern[k]) <==> "*" <= pattern[k]
      ensures IsParameter(pattern[k]) <==> ":" <= pattern[k]
    {
      KindsOf(pattern[k]);
    }
  }

  lemma {:induction false} PreferredIsMoreStatic(p: seq<string>, q: seq<string>, segments: seq<string>)
    requires Serves(p, segments) && Serves(q, segments) && Prefers(KeysOf(p), KeysOf(q))
    ensures MoreStatic(p, q)
  {
    forall k | 0 <= k < |p| && ":" <= p[k] && !(":" <= q[k])
      ensures exists j :: 0 <= j < k && !(":" <= p[j]) && ":" <= q[j]
    {
      KindsOf(p[k]);
      KindsOf(q[k]);
      var j := PreferredAt(KeysOf(p), KeysOf(q), k);
      KindsOf(p[j]);
      KindsOf(q[j]);
    }
  }

  /** Ahead of a place where the other shape is the more static one, this one was. */
  lemma {:induction false} PreferredAt(a: seq<Key>, b: seq<Key>, k: nat) returns (j: nat)
    requires |a| == |b| && k < |a| && Prefers(a, b) && a[k] == Parameter && b[k].Static?
    ensures j < k && a[j].Static? && b[j] == Parameter
  {
    if a[0] == b[0] && Prefers(a[1..], b[1..]) {
      j := PreferredAt(a[1..], b[1..], k - 1);
      j := j + 1;
    } else {
      j := 0;
    }
  }

  lemma SameShapeSameKeys(p: seq<string>, q: seq<string>, segments: seq<string>)
    requires Serves(p, segments) && Serves(q, segments) && SameShape(p, q)
    ensures KeysOf(p) == KeysOf(q)
  {
    forall k | 0 <= k < |p| ensures KeysOf(p)[k] == KeysOf(q)[k] {
      KindsOf(p[k]);
      KindsOf(q[k]);
    }
  }

  /** Insertion `i` is of this method and stands for the path. */
  predicate Applicable(insertions: seq<Insertion>, i: nat, httpMethod: string, segments: seq<string>)
    requires i < |insertions|
  {
    insertions[i].httpMethod == httpMethod && Serves(insertions[i].pattern, segments)
  }

  /** Insertion `i` answers the path: none that applies is more static, and none of its shape is later. */
  ghost predicate Best(insertions: seq<Insertion>, i: nat, httpMethod: string, segments: seq<string>)
    requires i < |insertions|
  {
    Applicable(insertions, i, httpMethod, segments) &&
    forall j :: 0 <= j < |insertions| && Applicable(insertions, j, httpMethod, segments) ==>
      MoreStatic(insertions[i].pattern, insertions[j].pattern) &&
      (SameShape(insertions[i].pattern, insertions[j].pattern) ==> j <= i)
  }

  lemma ApplicableIff(insertions: seq<Insertion>, i: nat, httpMethod: string, segments: seq<string>)
    requires i < |insertions|
    ensures Applicable(insertions, i, httpMethod, segments) <==> Applies(insertions, i, httpMethod, segments)
  {
    ServesIff(insertions[i].pattern, segments);
  }

  /** The insertion that FindAfterInsertions names. */
  ghost predicate Preferred(insertions: seq<Insertion>, i: nat, httpMethod: string, segments: seq<string>)
    requires i < |insertions|
  {
    Applies(insertions, i, httpMethod, segments) &&
    forall j :: 0 <= j < |insertions| && Applies(insertions, j, httpMethod, segments) ==>
      Prefers(KeysOf(insertions[i].pattern), KeysOf(insertions[j].pattern)) &&
      (KeysOf(insertions[j].pattern) == KeysOf(insertions[i].pattern) ==> j <= i)
  }

  lemma PreferredIsBest(insertions: seq<Insertion>, i: nat, httpMethod: string, segments: seq<string>)
    requires i < |insertions| && Preferred(insertions, i, httpMethod, segments)
    ensures Best(insertions, i, httpMethod, segments)
  {
    ApplicableIff(insertions, i, httpMethod, segments);
    forall j | 0 <= j < |insertions| && Applicable(insertions, j, httpMethod, segments)
      ensures MoreStatic(insertions[i].pattern, insertions[j].pattern)
      ensures SameShape(insertions[i].pattern, insertions[j].pattern) ==> j <= i
    {
      ApplicableIff(insertions, j, httpMethod, segments);
      PreferredIsMoreStatic(insertions[i].pattern, insertions[j].pattern, segments);
      if SameShape(insertions[i].pattern, insertions[j].pattern) {
        SameShapeSameKeys(insertions[i].pattern, insertions[j].pattern, segments);
      }
    }
  }

  lemma AnswerIsPreferred(insertions: seq<Insertion>, httpMethod: string, segments: seq<string>) returns (i: nat)
    requires FindRoute(Build(insertions), httpMethod, segments).Some?
    ensures i < |insertions| && Preferred(insertions, i, httpMethod, segments)
    ensures FindRoute(Build(insertions), httpMethod, segments) == Some(insertions[i].route)
  {
    FindAfterInsertions(insertions, httpMethod, segments);
    i :| 0 <= i < |insertions| && Applies(insertions, i, httpMethod, segments) &&
         FindRoute(Build(insertions), httpMethod, segments) == Some(insertions[i].route) &&
         forall j :: 0 <= j < |insertions| && Applies(insertions, j, httpMethod, segments) ==>
           Prefers(KeysOf(insertions[i].pattern), KeysOf(insertions[j].pattern)) &&
           (KeysOf(insertions[j].pattern) == KeysOf(insertions[i].pattern) ==> j <= i);
  }

  lemma NoAnswerIff(insertions: seq<Insertion>, httpMethod: string, segments: seq<string>)
    ensures FindRoute(Build(insertions), httpMethod, segments).None? <==>
            forall i :: 0 <= i < |insertions| ==> !Applicable(insertions, i, httpMethod, segments)
  {
    FindAfterInsertions(insertions, httpMethod, segments);
    forall i | 0 <= i < |insertions|
      ensures Applicable(insertions, i, httpMethod, segments) <==> Applies(insertions, i, httpMethod, segments)
    {
      ApplicableIff(insertions, i, httpMethod, segments);
    }
  }

  /** After any insertions: a path is answered exactly when one of them applies, and by the best of these. */
  lemma FindAnswersBest(insertions: seq<Insertion>, httpMethod: string, segments: seq<string>)
    ensures var answer := FindRoute(Build(insertions), httpMethod, segments);
            (answer.None? <==>
               forall i :: 0 <= i < |insertions| ==> !Applicable(insertions, i, httpMethod, segments)) &&
            (answer.Some? ==>
               exists i :: 0 <= i < |insertions| && Best(insertions, i, httpMethod, segments) &&
                           answer.value == insertions[i].route)
  {
    NoAnswerIff(insertions, httpMethod, segments);
    if FindRoute(Build(insertions), httpMethod, segments).Some? {
      var i := AnswerIsPreferred(insertions, httpMethod, segments);
      PreferredIsBest(insertions, i, httpMethod, segments);
    }
  }

  // ---------------------------------------------------------------- from the stored routes

  /** The route's path, or for DELETE and PATCH the path with an id behind it, stands for these segments. */
  predicate OffersPath(route: RouteRecord, m: string, segments: seq<string>) {
    Serves(Segments(route.path), segments) ||
    ((m == "DELETE" || m == "PATCH") && Serves(Segments(route.path) + [":id"], segments))
  }

  /** The route has a path, is open to the method, and stands for these segments. */
  predicate Offers(route: RouteRecord, m: string, segments: seq<string>) {
    route.path != "" && m in route.availableMethods && OffersPath(route, m, segments)
  }

  lemma SlashId(path: string, id: string)
    requires id == ":id"
    ensures path + "/:id" == path + "/" + id
  {
    assert "/:id" == "/" + id;
    Associative(path, "/", id);
  }

  lemma IdSegments(path: string)
    ensures Segments(path + "/:id") == Segments(path) + [":id"]
  {
    var id := ":id";
    OneSegment(id);
    SlashId(path, id);
    SegmentsAtSlash(path, id);
  }

  /** Some insertion of the list is of this route and method and stands for the path. */
  ghost predicate SomeApplies(insertions: seq<Insertion>, id: RouteId, m: string, segments: seq<string>) {
    exists i :: 0 <= i < |insertions| && insertions[i].route == id && Applicable(insertions, i, m, segments)
  }

  lemma AppliesInEither(a: seq<Insertion>, b: seq<Insertion>, id: RouteId, m: string, segments: seq<string>)
    ensures SomeApplies(a + b, id, m, segments) <==> SomeApplies(a, id, m, segments) || SomeApplies(b, id, m, segments)
  {
    var both := a + b;
    if SomeApplies(both, id, m, segments) {
      var i :| 0 <= i < |both| && both[i].route == id && Applicable(both, i, m, segments);
      if i < |a| { assert Applicable(a, i, m, segments); } else { assert Applicable(b, i - |a|, m, segments); }
    }
    if SomeApplies(a, id, m, segments) {
      var i :| 0 <= i < |a| && a[i].route == id && Applicable(a, i, m, segments);
      assert both[i] == a[i] && Applicable(both, i, m, segments);
    }
    if SomeApplies(b, id, m, segments) {
      var i :| 0 <= i < |b| && b[i].route == id && Applicable(b, i, m, segments);
      assert both[|a| + i] == b[i] && Applicable(both, |a| + i, m, segments);
    }
  }

  lemma OneMethodApplies(route: RouteRecord, name: string, id: RouteId, m: string, segments: seq<string>)
    ensures SomeApplies(MethodInsertion(route, name), id, m, segments) <==>
            id == route.id && m == name && OffersPath(route, name, segments)
  {
    var some := MethodInsertion(route, name);
    IdSegments(route.path);
    if id == route.id && m == name && OffersPath(route, name, segments) {
      if Serves(Segments(route.path), segments) {
        assert Applicable(some, 0, m, segments);
      } else {
        assert Applicable(some, 1, m, segments);
      }
    }
  }

  lemma {:induction false} MethodsApply(route: RouteRecord, n: nat, id: RouteId, m: string, segments: seq<string>)
    requires n <= |route.availableMethods|
    ensures SomeApplies(MethodInsertions(route, n), id, m, segments) <==>
            id == route.id && m in route.availableMethods[..n] && OffersPath(route, m, segments)
  {
    if n > 0 {
      var name := route.availableMethods[n - 1];
      MethodsApply(route, n - 1, id, m, segments);
      AppliesInEither(MethodInsertions(route, n - 1), MethodInsertion(route, name), id, m, segments);
      OneMethodApplies(route, name, id, m, segments);
      assert route.availableMethods[..n] == route.availableMethods[..n - 1] + [name];
    }
  }

  /** One of the routes has this id and offers the path. */
  ghost predicate SomeOffers(routes: seq<RouteRecord>, id: RouteId, m: string, segments: seq<string>) {
    exists i :: 0 <= i < |routes| && routes[i].id == id && Offers(routes[i], m, segments)
  }

  lemma SomeOffersOneMore(routes: seq<RouteRecord>, id: RouteId, m: string, segments: seq<string>)
    requires routes != []
    ensures SomeOffers(routes, id, m, segments) <==>
            SomeOffers(routes[..|routes| - 1], id, m, segments) ||
            (routes[|routes| - 1].id == id && Offers(routes[|routes| - 1], m, segments))
  {
    var before := routes[..|routes| - 1];
    if SomeOffers(before, id, m, segments) {
      var i :| 0 <= i < |before| && before[i].id == id && Offers(before[i], m, segments);
      assert routes[i] == before[i];
    }
    if SomeOffers(routes, id, m, segments) {
      var i :| 0 <= i < |routes| && routes[i].id == id && Offers(routes[i], m, segments);
      if i < |before| { assert before[i] == routes[i]; }
    }
  }

  lemma OneRouteApplies(route: RouteRecord, id: RouteId, m: string, segments: seq<string>)
    ensures SomeApplies(RouteInsertions(route), id, m, segments) <==> route.id == id && Offers(route, m, segments)
  {
    if route.path != "" {
      MethodsApply(route, |route.availableMethods|, id, m, segments);
      assert route.availableMethods[..|route.availableMethods|] == route.availableMethods;
    }
  }

  lemma {:induction false} RoutesApply(routes: seq<RouteRecord>, id: RouteId, m: string, segments: seq<string>)
    ensures SomeApplies(AllInsertions(routes), id, m, segments) <==> SomeOffers(routes, id, m, segments)
  {
    if routes != [] {
      var before, last := routes[..|routes| - 1], routes[|routes| - 1];
      RoutesApply(before, id, m, segments);
      AppliesInEither(AllInsertions(before), RouteInsertions(last), id, m, segments);
      OneRouteApplies(last, id, m, segments);
      SomeOffersOneMore(routes, id, m, segments);
    }
  }

  /** What the engine built from the stored routes finds: a route if and only if one offers the path, and then the
      id of one that does. */
  lemma EngineFindsIff(routes: seq<RouteRecord>, m: string, path: string)
    ensures var answer := FindRoute(Build(AllInsertions(routes)), m, Segments(path));
            (answer.None? <==> forall i :: 0 <= i < |routes| ==> !Offers(routes[i], m, Segments(path))) &&
            (answer.Some? ==> SomeOffers(routes, answer.value, m, Segments(path)))
  {
    var insertions, segments := AllInsertions(routes), Segments(path);
    var answer := FindRoute(Build(insertions), m, segments);
    FindAnswersBest(insertions, m, segments);
    if answer.Some? {
      assert SomeApplies(insertions, answer.value, m, segments);
      RoutesApply(routes, answer.value, m, segments);
    }
    forall i | 0 <= i < |routes| && Offers(routes[i], m, segments) ensures answer.Some? {
      assert SomeOffers(routes, routes[i].id, m, segments);
      RoutesApply(routes, routes[i].id, m, segments);
    }
  }
}
