/** What the route trie of enfyra-route-engine.ts contains, as a map from positions to nodes,
    and what `insert` and `search` mean on it. The class in RouteTrie.dfy is proved against
    these functions. */
module RouteView {
  import opened RoutePaths
  import opened Wrappers

  /** A route object, by identity. */
  type RouteId = nat

  datatype Position = Root(httpMethod: string) | Step(parent: Position, key: Key)

  datatype NodeView = NodeView(handler: Option<RouteId>, paramName: string)

  type View = map<Position, NodeView>

  function Down(pos: Position, keys: seq<Key>): Position
    decreases |keys|
  {
    if keys == [] then pos else Down(Step(pos, keys[0]), keys[1..])
  }

  lemma DownStep(pos: Position, key: Key, keys: seq<Key>)
    ensures Down(pos, [key] + keys) == Down(Step(pos, key), keys)
  {
    assert ([key] + keys)[1..] == keys;
  }

  function Handler(view: View, pos: Position): Option<RouteId> {
    if pos in view then view[pos].handler else None
  }

  // ---------------------------------------------------------------- insert

  /** Reuse the child at `pos` or create it with the given parameter name. */
  function Grow(view: View, pos: Position, paramName: string): View {
    if pos in view then view else view[pos := NodeView(None, paramName)]
  }

  function NameOf(segment: string): string {
    if IsParameter(segment) then segment[1..] else ""
  }

  function InsertBelow(view: View, pos: Position, pattern: seq<string>, route: RouteId): View
    decreases |pattern|
  {
    if pattern == [] then view else
      var child := Step(pos, KeyOf(pattern[0]));
      var grown := Grow(view, child, NameOf(pattern[0]));
      if IsWildcard(pattern[0]) then grown
      else if |pattern| == 1 then grown[child := grown[child].(handler := Some(route))]
      else InsertBelow(grown, child, pattern[1..], route)
  }

  /** One round of the loop of `insert`. */
  lemma InsertBelowUnfolds(view: View, pos: Position, pattern: seq<string>, i: nat, route: RouteId)
    requires i < |pattern|
    ensures var child := Step(pos, KeyOf(pattern[i]));
            var grown := Grow(view, child, NameOf(pattern[i]));
            InsertBelow(view, pos, pattern[i..], route) ==
              if IsWildcard(pattern[i]) then grown
              else InsertBelow(if i == |pattern| - 1 then grown[child := grown[child].(handler := Some(route))]
                               else grown,
                               child, pattern[i + 1..], route)
  {
    assert pattern[i..][1..] == pattern[i + 1..];
  }

  function Insert(view: View, httpMethod: string, pattern: seq<string>, route: RouteId): View {
    InsertBelow(Grow(view, Root(httpMethod), ""), Root(httpMethod), pattern, route)
  }

  datatype Insertion = Insertion(httpMethod: string, pattern: seq<string>, route: RouteId)

  function Build(insertions: seq<Insertion>): View {
    if insertions == [] then map[] else
      var last := insertions[|insertions| - 1];
      Insert(Build(insertions[..|insertions| - 1]), last.httpMethod, last.pattern, last.route)
  }

  /** One insertion stores its route at the position of its shape and changes no other handler;
      patterns with a wildcard, and the empty pattern, store nothing. */
  lemma {:induction false} InsertBelowStores(view: View, pos: Position, pattern: seq<string>, route: RouteId,
                                             at: Position)
    ensures Handler(InsertBelow(view, pos, pattern, route), at) ==
            if Storable(pattern) && at == Down(pos, KeysOf(pattern)) then Some(route) else Handler(view, at)
    decreases |pattern|
  {
    if pattern != [] {
      var child := Step(pos, KeyOf(pattern[0]));
      var keys := KeysOf(pattern);
      assert keys[0] == KeyOf(pattern[0]) && keys[1..] == KeysOf(pattern[1..]);
      if |pattern| == 1 {
        assert Down(child, keys[1..]) == child;
      } else if !IsWildcard(pattern[0]) {
        InsertBelowStores(Grow(view, child, NameOf(pattern[0])), child, pattern[1..], route, at);
        StorableTail(pattern);
      }
    }
  }

  lemma StorableTail(pattern: seq<string>)
    requires |pattern| > 1 && !IsWildcard(pattern[0])
    ensures Storable(pattern) <==> Storable(pattern[1..])
  {
    if Storable(pattern[1..]) {
      forall i | 0 <= i < |pattern| ensures !IsWildcard(pattern[i]) {
        if i > 0 { assert pattern[i] == pattern[1..][i - 1]; }
      }
    }
  }

  lemma {:induction false} DownIsInjective(m1: string, k1: seq<Key>, m2: string, k2: seq<Key>)
    requires Down(Root(m1), k1) == Down(Root(m2), k2)
    ensures m1 == m2 && k1 == k2
    decreases |k1|
  {
    if k1 == [] || k2 == [] {
      if k1 != [] { DownEnds(Root(m1), k1); }
      if k2 != [] { DownEnds(Root(m2), k2); }
    } else {
      DownEnds(Root(m1), k1);
      DownEnds(Root(m2), k2);
      DownIsInjective(m1, k1[..|k1| - 1], m2, k2[..|k2| - 1]);
      assert k1 == k1[..|k1| - 1] + [k1[|k1| - 1]] && k2 == k2[..|k2| - 1] + [k2[|k2| - 1]];
    }
  }

  lemma {:induction false} DownEnds(pos: Position, keys: seq<Key>)
    requires keys != []
    ensures Down(pos, keys) == Step(Down(pos, keys[..|keys| - 1]), keys[|keys| - 1])
    decreases |keys|
  {
    if |keys| == 1 {
      assert keys[1..] == [] && keys[..0] == [];
    } else {
      DownEnds(Step(pos, keys[0]), keys[1..]);
      assert keys[..|keys| - 1][1..] == keys[1..][..|keys| - 2];
    }
  }

  /** The route of the last insertion of this method and shape that stored one. */
  function LastStored(insertions: seq<Insertion>, httpMethod: string, keys: seq<Key>): Option<RouteId> {
    if insertions == [] then None else
      var last := insertions[|insertions| - 1];
      if last.httpMethod == httpMethod && Storable(last.pattern) && KeysOf(last.pattern) == keys then Some(last.route)
      else LastStored(insertions[..|insertions| - 1], httpMethod, keys)
  }

  lemma {:induction false} BuildStores(insertions: seq<Insertion>, httpMethod: string, keys: seq<Key>)
    ensures Handler(Build(insertions), Down(Root(httpMethod), keys)) == LastStored(insertions, httpMethod, keys)
  {
    if insertions != [] {
      var last := insertions[|insertions| - 1];
      var before := Build(insertions[..|insertions| - 1]);
      BuildStores(insertions[..|insertions| - 1], httpMethod, keys);
      var at := Down(Root(httpMethod), keys);
      InsertBelowStores(Grow(before, Root(last.httpMethod), ""), Root(last.httpMethod), last.pattern, last.route, at);
      if at == Down(Root(last.httpMethod), KeysOf(last.pattern)) {
        DownIsInjective(httpMethod, keys, last.httpMethod, KeysOf(last.pattern));
      }
    }
  }

  /** Every node but the roots hangs below a node. */
  ghost predicate Rooted(view: View) {
    forall p :: p in view && p.Step? ==> p.parent in view
  }

  lemma {:induction false} InsertBelowKeepsRooted(view: View, pos: Position, pattern: seq<string>, route: RouteId)
    requires Rooted(view) && pos in view
    ensures Rooted(InsertBelow(view, pos, pattern, route))
    decreases |pattern|
  {
    if |pattern| > 1 && !IsWildcard(pattern[0]) {
      var child := Step(pos, KeyOf(pattern[0]));
      InsertBelowKeepsRooted(Grow(view, child, NameOf(pattern[0])), child, pattern[1..], route);
    }
  }

  lemma {:induction false} BuildIsRooted(insertions: seq<Insertion>)
    ensures Rooted(Build(insertions))
  {
    if insertions != [] {
      var last := insertions[|insertions| - 1];
      var before := Build(insertions[..|insertions| - 1]);
      BuildIsRooted(insertions[..|insertions| - 1]);
      InsertBelowKeepsRooted(Grow(before, Root(last.httpMethod), ""), Root(last.httpMethod), last.pattern, last.route);
    }
  }

  // ---------------------------------------------------------------- search

  /** The keys below `pos` at which `search` finds a handler. A wildcard child is only looked at
      last, and no wildcard node ever has a handler (`WildcardsStoreNothing`). */
  function Found(view: View, pos: Position, segments: seq<string>): (r: Option<seq<Key>>)
    ensures r.Some? ==> |r.value| <= |segments|
    decreases |segments|
  {
    if segments == [] then
      if Handler(view, pos).Some? then Some([]) else None
    else
      var s, p, w := Step(pos, Static(segments[0])), Step(pos, Parameter), Step(pos, Wildcard);
      var viaStatic := if s in view then Found(view, s, segments[1..]) else None;
      if viaStatic.Some? then Some([s.key] + viaStatic.value) else
        var viaParam := if p in view then Found(view, p, segments[1..]) else None;
        if viaParam.Some? then Some([p.key] + viaParam.value)
        else if Handler(view, w).Some? then Some([w.key])
        else None
  }

  ghost predicate WildcardsStoreNothing(view: View) {
    forall p :: p in view && p.Step? && p.key == Wildcard ==> view[p].handler == None
  }

  lemma {:induction false} InsertBelowKeepsWildcardsEmpty(view: View, pos: Position, pattern: seq<string>,
                                                          route: RouteId)
    requires WildcardsStoreNothing(view)
    ensures WildcardsStoreNothing(InsertBelow(view, pos, pattern, route))
    decreases |pattern|
  {
    if |pattern| > 1 && !IsWildcard(pattern[0]) {
      var child := Step(pos, KeyOf(pattern[0]));
      InsertBelowKeepsWildcardsEmpty(Grow(view, child, NameOf(pattern[0])), child, pattern[1..], route);
    }
  }

  lemma {:induction false} BuildLeavesWildcardsEmpty(insertions: seq<Insertion>)
    ensures WildcardsStoreNothing(Build(insertions))
  {
    if insertions != [] {
      var last := insertions[|insertions| - 1];
      var before := Build(insertions[..|insertions| - 1]);
      BuildLeavesWildcardsEmpty(insertions[..|insertions| - 1]);
      InsertBelowKeepsWildcardsEmpty(Grow(before, Root(last.httpMethod), ""), Root(last.httpMethod), last.pattern,
                                     last.route);
    }
  }

  /** A handler below `pos` that the path reaches. */
  predicate Candidate(view: View, pos: Position, keys: seq<Key>, segments: seq<string>) {
    KeysCover(keys, segments) && Handler(view, Down(pos, keys)).Some?
  }

  lemma CandidateStep(view: View, pos: Position, keys: seq<Key>, segments: seq<string>)
    requires segments != [] && keys != []
    ensures Candidate(view, pos, keys, segments) <==>
            Covers(keys[0], segments[0]) && Candidate(view, Step(pos, keys[0]), keys[1..], segments[1..])
  {
    if Covers(keys[0], segments[0]) && Candidate(view, Step(pos, keys[0]), keys[1..], segments[1..]) {
      forall i | 0 <= i < |keys| ensures Covers(keys[i], segments[i]) {
        if i > 0 { assert keys[i] == keys[1..][i - 1] && segments[i] == segments[1..][i - 1]; }
      }
    }
  }

  /** A candidate below an absent child does not exist. */
  lemma {:induction false} NoNodeNoHandler(view: View, pos: Position, keys: seq<Key>)
    requires Rooted(view) && pos !in view
    ensures Down(pos, keys) !in view
    decreases |keys|
  {
    if keys != [] { NoNodeNoHandler(view, Step(pos, keys[0]), keys[1..]); }
  }

  /** `search` finds a candidate whenever there is one. */
  lemma {:induction false} FoundIfCandidate(view: View, pos: Position, segments: seq<string>, keys: seq<Key>)
    requires Rooted(view) && WildcardsStoreNothing(view) && pos in view
    requires Candidate(view, pos, keys, segments)
    ensures Found(view, pos, segments).Some?
    ensures |Found(view, pos, segments).value| == |keys| && Prefers(Found(view, pos, segments).value, keys)
    decreases |segments|
  {
    if segments == [] {
      assert keys == [];
    } else {
      CandidateStep(view, pos, keys, segments);
      var child := Step(pos, keys[0]);
      if child !in view { NoNodeNoHandler(view, child, keys[1..]); }
      FoundIfCandidate(view, child, segments[1..], keys[1..]);
      var found := Found(view, pos, segments).value;
      if keys[0] == Parameter && Step(pos, Static(segments[0])) in view &&
        Found(view, Step(pos, Static(segments[0])), segments[1..]).Some? {
        FoundIsCandidate(view, Step(pos, Static(segments[0])), segments[1..]);
        assert found[0].Static?;
      } else {
        assert found[0] == keys[0] && found[1..] == Found(view, child, segments[1..]).value;
      }
    }
  }

  /** What `search` finds is a candidate. */
  lemma {:induction false} FoundIsCandidate(view: View, pos: Position, segments: seq<string>)
    requires WildcardsStoreNothing(view) && Found(view, pos, segments).Some?
    ensures Candidate(view, pos, Found(view, pos, segments).value, segments)
    decreases |segments|
  {
    if segments != [] {
      var found := Found(view, pos, segments).value;
      var child := Step(pos, found[0]);
      assert found[0] != Wildcard;
      assert found[1..] == Found(view, child, segments[1..]).value;
      FoundIsCandidate(view, child, segments[1..]);
      CandidateStep(view, pos, found, segments);
    }
  }

  // ---------------------------------------------------------------- find after any inserts

  function FindRoute(view: View, httpMethod: string, segments: seq<string>): Option<RouteId> {
    if Root(httpMethod) !in view then None else
      match Found(view, Root(httpMethod), segments)
      case None => None
      case Some(keys) => Handler(view, Down(Root(httpMethod), keys))
  }

  /** Insertion `i` is of this method and its pattern matches the path. */
  predicate Applies(insertions: seq<Insertion>, i: nat, httpMethod: string, segments: seq<string>)
    requires i < |insertions|
  {
    insertions[i].httpMethod == httpMethod && Matches(insertions[i].pattern, segments)
  }

  lemma MatchesByKeys(pattern: seq<string>, segments: seq<string>)
    ensures Matches(pattern, segments) <==> Storable(pattern) && KeysCover(KeysOf(pattern), segments)
  {
    var keys := KeysOf(pattern);
    if Storable(pattern) && KeysCover(keys, segments) {
      forall i | 0 <= i < |pattern| ensures IsParameter(pattern[i]) || pattern[i] == segments[i] {
        assert Covers(keys[i], segments[i]);
      }
    }
  }

  lemma {:induction false} LastStoredIsLast(insertions: seq<Insertion>, httpMethod: string, keys: seq<Key>)
    returns (i: nat)
    requires LastStored(insertions, httpMethod, keys).Some?
    ensures i < |insertions| && insertions[i].httpMethod == httpMethod
    ensures Storable(insertions[i].pattern) && KeysOf(insertions[i].pattern) == keys
    ensures LastStored(insertions, httpMethod, keys) == Some(insertions[i].route)
    ensures forall j ::
              i < j < |insertions| && insertions[j].httpMethod == httpMethod && Storable(insertions[j].pattern) ==>
                KeysOf(insertions[j].pattern) != keys
  {
    var last := insertions[|insertions| - 1];
    if last.httpMethod == httpMethod && Storable(last.pattern) && KeysOf(last.pattern) == keys {
      i := |insertions| - 1;
    } else {
      i := LastStoredIsLast(insertions[..|insertions| - 1], httpMethod, keys);
    }
  }

  lemma {:induction false} StoredIsFoundLast(insertions: seq<Insertion>, i: nat)
    requires i < |insertions| && Storable(insertions[i].pattern)
    ensures LastStored(insertions, insertions[i].httpMethod, KeysOf(insertions[i].pattern)).Some?
  {
    if i < |insertions| - 1 { StoredIsFoundLast(insertions[..|insertions| - 1], i); }
  }

  lemma {:induction false} RootExists(insertions: seq<Insertion>, i: nat)
    requires i < |insertions|
    ensures Root(insertions[i].httpMethod) in Build(insertions)
  {
    var before := Build(insertions[..|insertions| - 1]);
    var last := insertions[|insertions| - 1];
    if i < |insertions| - 1 { RootExists(insertions[..|insertions| - 1], i); }
    InsertBelowOnlyAdds(Grow(before, Root(last.httpMethod), ""), Root(last.httpMethod), last.pattern, last.route);
  }

  lemma {:induction false} InsertBelowOnlyAdds(view: View, pos: Position, pattern: seq<string>, route: RouteId)
    ensures view.Keys <= InsertBelow(view, pos, pattern, route).Keys
    decreases |pattern|
  {
    if |pattern| > 1 && !IsWildcard(pattern[0]) {
      var child := Step(pos, KeyOf(pattern[0]));
      InsertBelowOnlyAdds(Grow(view, child, NameOf(pattern[0])), child, pattern[1..], route);
    }
  }

  /** After any sequence of insertions, a path has a route exactly when some inserted pattern of
      its method matches it; the route is that of the most static matching shape, and of the
      last insertion among those of that shape. */
  lemma FindAfterInsertions(insertions: seq<Insertion>, httpMethod: string, segments: seq<string>)
    ensures FindRoute(Build(insertions), httpMethod, segments).None? <==>
            forall i :: 0 <= i < |insertions| ==> !Applies(insertions, i, httpMethod, segments)
    ensures FindRoute(Build(insertions), httpMethod, segments).Some? ==>
            exists i :: 0 <= i < |insertions| && Applies(insertions, i, httpMethod, segments) &&
              FindRoute(Build(insertions), httpMethod, segments) == Some(insertions[i].route) &&
              forall j :: 0 <= j < |insertions| && Applies(insertions, j, httpMethod, segments) ==>
                Prefers(KeysOf(insertions[i].pattern), KeysOf(insertions[j].pattern)) &&
                (KeysOf(insertions[j].pattern) == KeysOf(insertions[i].pattern) ==> j <= i)
  {
    var view, root := Build(insertions), Root(httpMethod);
    BuildIsRooted(insertions);
    BuildLeavesWildcardsEmpty(insertions);
    forall j | 0 <= j < |insertions| && Applies(insertions, j, httpMethod, segments)
      ensures Candidate(view, root, KeysOf(insertions[j].pattern), segments) && root in view
    {
      MatchesByKeys(insertions[j].pattern, segments);
      BuildStores(insertions, httpMethod, KeysOf(insertions[j].pattern));
      StoredIsFoundLast(insertions, j);
      RootExists(insertions, j);
    }
    forall j | 0 <= j < |insertions| && Applies(insertions, j, httpMethod, segments)
      ensures Found(view, root, segments).Some? &&
              |Found(view, root, segments).value| == |insertions[j].pattern| &&
              Prefers(Found(view, root, segments).value, KeysOf(insertions[j].pattern))
    {
      FoundIfCandidate(view, root, segments, KeysOf(insertions[j].pattern));
    }
    if FindRoute(view, httpMethod, segments).Some? {
      var keys := Found(view, root, segments).value;
      FoundIsCandidate(view, root, segments);
      BuildStores(insertions, httpMethod, keys);
      var i := LastStoredIsLast(insertions, httpMethod, keys);
      MatchesByKeys(insertions[i].pattern, segments);
      assert Applies(insertions, i, httpMethod, segments);
    } else if root in view && Found(view, root, segments).Some? {
      FoundIsCandidate(view, root, segments);
    }
  }
}
