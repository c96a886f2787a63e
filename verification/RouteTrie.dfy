/** `EnfyraRouteEngine` of enfyra-route-engine.ts: the trie whose nodes are updated in place,
    proved against the functions of RouteView.dfy and RouteParams.dfy. */
module RouteTrie {
  import opened RoutePaths
  import opened RouteView
  import opened RouteParams
  import opened Wrappers

  class RouteNode {
    ghost const position: Position
    const paramName: string
    var children: map<string, RouteNode>
    var paramChild: RouteNode?
    var wildcardChild: RouteNode?
    var handler: Option<RouteId>

    constructor (ghost position: Position, paramName: string)
      ensures this.position == position && this.paramName == paramName
      ensures children == map[] && paramChild == null && wildcardChild == null && handler == None
    {
      this.position, this.paramName := position, paramName;
      children, paramChild, wildcardChild, handler := map[], null, null, None;
    }
  }

  /** The record `params` that a search fills by reference. */
  class ParamRecord {
    var entries: Params

    constructor ()
      ensures entries == map[]
    {
      entries := map[];
    }
  }

  class EnfyraRouteEngine {
    var roots: map<string, RouteNode>
    var routeCount: nat
    /** `decodeURIComponent`. */
    const decode: string -> string
    ghost var at: map<Position, RouteNode>

    /** The links of one node are the nodes at the positions one step below it. */
    ghost predicate Linked(p: Position)
      requires p in at
      reads this`at, at.Values
    {
      var n := at[p];
      n.position == p &&
      (forall s :: s in n.children <==> Step(p, Static(s)) in at) &&
      (forall s :: s in n.children ==> at[Step(p, Static(s))] == n.children[s]) &&
      (n.paramChild != null <==> Step(p, Parameter) in at) &&
      (n.paramChild != null ==> at[Step(p, Parameter)] == n.paramChild) &&
      (n.wildcardChild != null <==> Step(p, Wildcard) in at) &&
      (n.wildcardChild != null ==> at[Step(p, Wildcard)] == n.wildcardChild)
    }

    ghost predicate Valid()
      reads this`at, this`roots, at.Values
    {
      (forall m :: m in roots <==> Root(m) in at) &&
      (forall m :: m in roots ==> at[Root(m)] == roots[m]) &&
      (forall p :: p in at ==> Linked(p)) &&
      (forall p :: p in at && p.Step? ==> p.parent in at)
    }

    /** `node` is the trie's node at its position. */
    ghost predicate Holds(node: RouteNode)
      reads this`at, this`roots, at.Values
    {
      Valid() && node.position in at && at[node.position] == node
    }

    /** The abstract contents of the trie. */
    ghost function Contents(): View
      reads this`at, at.Values
    {
      map p | p in at :: NodeView(at[p].handler, at[p].paramName)
    }

    constructor (decode: string -> string)
      ensures Valid() && Contents() == map[] && routeCount == 0 && this.decode == decode
      ensures at == map[]
    {
      this.decode := decode;
      roots, routeCount, at := map[], 0, map[];
    }


    ghost predicate NothingBelow(p: Position)
      reads this`at
    {
      forall k :: Step(p, k) !in at
    }

    /** Adding a fresh empty node to the index adds its entry to the contents. */
    twostate lemma ContentsGrow(p: Position, new created: RouteNode)
      requires p !in old(at) && at == old(at)[p := created]
      requires created !in old(at.Values) && created.handler == None
      requires forall n :: n in old(at.Values) ==> n.handler == old(n.handler)
      ensures Contents() == old(Contents())[p := NodeView(None, created.paramName)]
    {
      forall q | q in old(at) ensures q in at && at[q].handler == old(at[q].handler) {
        assert old(at[q]) in old(at.Values);
      }
    }

    method CreateWildcardChild(node: RouteNode) returns (created: RouteNode)
      requires Valid() && node.position in at && at[node.position] == node
      requires node.wildcardChild == null
      modifies this`at, node
      ensures Valid() && fresh(created) && created.position == Step(node.position, Wildcard)
      ensures at == old(at)[created.position := created]
      ensures Contents() == old(Contents())[created.position := NodeView(None, "")]
    {
      ghost var pos, was := node.position, at;
      created := new RouteNode(Step(pos, Wildcard), "");
      node.wildcardChild := created;
      at := at[Step(pos, Wildcard) := created];
      ContentsGrow(created.position, created);
      assert NothingBelow(created.position);
      forall p | p in at ensures Linked(p) {
        if p != pos && p != created.position {
          assert old(Linked(p)) && at[p] == was[p];
        }
      }
    }

    method CreateParamChild(node: RouteNode, segment: string) returns (created: RouteNode)
      requires Valid() && node.position in at && at[node.position] == node
      requires node.paramChild == null && IsParameter(segment)
      modifies this`at, node
      ensures Valid() && fresh(created) && created.position == Step(node.position, Parameter)
      ensures at == old(at)[created.position := created]
      ensures Contents() == old(Contents())[created.position := NodeView(None, segment[1..])]
    {
      ghost var pos, was := node.position, at;
      created := new RouteNode(Step(pos, Parameter), segment[1..]);
      node.paramChild := created;
      at := at[Step(pos, Parameter) := created];
      ContentsGrow(created.position, created);
      assert NothingBelow(created.position);
      forall p | p in at ensures Linked(p) {
        if p != pos && p != created.position {
          assert old(Linked(p)) && at[p] == was[p];
        }
      }
    }

    method CreateStaticChild(node: RouteNode, segment: string) returns (created: RouteNode)
      requires Valid() && node.position in at && at[node.position] == node
      requires segment !in node.children
      modifies this`at, node
      ensures Valid() && fresh(created) && created.position == Step(node.position, Static(segment))
      ensures at == old(at)[created.position := created]
      ensures Contents() == old(Contents())[created.position := NodeView(None, "")]
    {
      ghost var pos, was := node.position, at;
      created := new RouteNode(Step(pos, Static(segment)), "");
      node.children := node.children[segment := created];
      at := at[Step(pos, Static(segment)) := created];
      ContentsGrow(created.position, created);
      assert NothingBelow(created.position);
      forall p | p in at ensures Linked(p) {
        if p != pos && p != created.position {
          assert old(Linked(p)) && at[p] == was[p];
        }
      }
    }

    /** The three `if (!child) child = createNode(...)` branches of `insert`. */
    method Descend(node: RouteNode, segment: string) returns (child: RouteNode)
      requires Valid() && node.position in at && at[node.position] == node
      modifies this`at, node
      ensures Valid() && child.position == Step(node.position, KeyOf(segment))
      ensures child.position in at && at[child.position] == child
      ensures Contents() == Grow(old(Contents()), child.position, NameOf(segment))
      ensures forall n :: n in at.Values ==> n in old(at.Values) || fresh(n)
    {
      assert Linked(node.position);
      if IsWildcard(segment) {
        if node.wildcardChild == null {
          child := CreateWildcardChild(node);
        } else {
          child := node.wildcardChild;
        }
      } else if IsParameter(segment) {
        if node.paramChild == null {
          child := CreateParamChild(node, segment);
        } else {
          child := node.paramChild;
        }
      } else {
        if segment !in node.children {
          child := CreateStaticChild(node, segment);
        } else {
          child := node.children[segment];
        }
      }
    }

    method CreateRoot(httpMethod: string) returns (created: RouteNode)
      requires Valid() && httpMethod !in roots
      modifies this`at, this`roots
      ensures Valid() && fresh(created) && created.position == Root(httpMethod)
      ensures at == old(at)[created.position := created]
      ensures Contents() == old(Contents())[created.position := NodeView(None, "")]
    {
      ghost var was := at;
      created := new RouteNode(Root(httpMethod), "");
      roots := roots[httpMethod := created];
      at := at[Root(httpMethod) := created];
      ContentsGrow(created.position, created);
      assert NothingBelow(created.position);
      forall p | p in at ensures Linked(p) {
        if p != created.position {
          assert old(Linked(p)) && at[p] == was[p];
        }
      }
    }

    /** `if (!this.roots.has(method)) this.roots.set(method, createNode(...))`. */
    method RootFor(httpMethod: string) returns (root: RouteNode)
      requires Valid()
      modifies this`at, this`roots
      ensures Holds(root) && root.position == Root(httpMethod)
      ensures Contents() == Grow(old(Contents()), Root(httpMethod), "")
      ensures forall n :: n in at.Values ==> n in old(at.Values) || fresh(n)
    {
      if httpMethod !in roots {
        root := CreateRoot(httpMethod);
      } else {
        root := roots[httpMethod];
        assert Linked(Root(httpMethod));
      }
    }

    /** The node `position` keeps its place when a handler is stored in it. */
    method StoreHandler(node: RouteNode, route: RouteId)
      requires Valid() && node.position in at && at[node.position] == node
      modifies node`handler
      ensures Valid()
      ensures Contents() == old(Contents())[node.position := old(Contents())[node.position].(handler := Some(route))]
    {
      node.handler := Some(route);
      forall p | p in at ensures Linked(p) {
        assert old(Linked(p));
      }
    }

    /** The body of the loop of `insert`; `stop` is its `break`. */
    method InsertSegment(node: RouteNode, segments: seq<string>, i: nat, route: RouteId)
      returns (child: RouteNode, stop: bool)
      requires Holds(node) && i < |segments|
      modifies this`at, at.Values
      ensures Holds(child) && stop == IsWildcard(segments[i])
      ensures forall n :: n in at.Values ==> n in old(at.Values) || fresh(n)
      ensures InsertBelow(old(Contents()), node.position, segments[i..], route) ==
              if stop then Contents() else InsertBelow(Contents(), child.position, segments[i + 1..], route)
    {
      InsertBelowUnfolds(Contents(), node.position, segments, i, route);
      child := Descend(node, segments[i]);
      stop := IsWildcard(segments[i]);
      if !stop && i == |segments| - 1 {
        StoreHandler(child, route);
      }
    }

    /** The loop of `insert`. */
    method InsertSegments(root: RouteNode, segments: seq<string>, route: RouteId)
      requires Holds(root)
      modifies this`at, at.Values
      ensures Valid() && Contents() == InsertBelow(old(Contents()), root.position, segments, route)
      ensures forall n :: n in at.Values ==> n in old(at.Values) || fresh(n)
    {
      assert segments[0..] == segments;
      var node, i, stop := root, 0, false;
      while i < |segments| && !stop
        invariant 0 <= i <= |segments| && Holds(node)
        invariant forall n :: n in at.Values ==> n in old(at.Values) || fresh(n)
        invariant InsertBelow(old(Contents()), root.position, segments, route) ==
                  if stop then Contents() else InsertBelow(Contents(), node.position, segments[i..], route)
      {
        node, stop := InsertSegment(node, segments, i, route);
        i := i + 1;
      }
    }

    method InsertPath(httpMethod: string, segments: seq<string>, route: RouteId)
      requires Valid()
      modifies this`at, this`roots, at.Values
      ensures Valid()
      ensures Contents() == RouteView.Insert(old(Contents()), httpMethod, segments, route)
      ensures forall n :: n in at.Values ==> n in old(at.Values) || fresh(n)
    {
      var root := RootFor(httpMethod);
      InsertSegments(root, segments, route);
    }

    method Insert(httpMethod: string, path: string, route: RouteId)
      requires Valid()
      modifies this, at.Values
      ensures Valid() && routeCount == old(routeCount) + 1
      ensures Contents() == RouteView.Insert(old(Contents()), httpMethod, Segments(path), route)
      ensures forall n :: n in at.Values ==> n in old(at.Values) || fresh(n)
    {
      InsertPath(httpMethod, Segments(path), route);
      routeCount := routeCount + 1;
    }

    /** A node's links and fields, in terms of the contents. */
    lemma NodeInContents(node: RouteNode)
      requires Holds(node)
      ensures Handler(Contents(), node.position) == node.handler
      ensures node.paramChild != null <==> Step(node.position, Parameter) in Contents()
      ensures node.paramChild != null ==>
                Holds(node.paramChild) && node.paramChild.position == Step(node.position, Parameter) &&
                Contents()[node.paramChild.position].paramName == node.paramChild.paramName
      ensures node.wildcardChild != null <==> Step(node.position, Wildcard) in Contents()
      ensures node.wildcardChild != null ==>
                Holds(node.wildcardChild) && node.wildcardChild.position == Step(node.position, Wildcard) &&
                Handler(Contents(), node.wildcardChild.position) == node.wildcardChild.handler
    {
      assert Linked(node.position);
      if node.paramChild != null { assert Linked(Step(node.position, Parameter)); }
      if node.wildcardChild != null { assert Linked(Step(node.position, Wildcard)); }
    }

    lemma StaticChildInContents(node: RouteNode, segment: string)
      requires Holds(node)
      ensures segment in node.children <==> Step(node.position, Static(segment)) in Contents()
      ensures segment in node.children ==>
                Holds(node.children[segment]) && node.children[segment].position == Step(node.position, Static(segment))
    {
      assert Linked(node.position);
      if segment in node.children { assert Linked(Step(node.position, Static(segment))); }
    }

    /** The result of a search below `pos`, as a node. */
    ghost predicate Reached(result: RouteNode?, pos: Position, found: Option<seq<Key>>)
      reads this`at, this`roots, at.Values
    {
      (result != null <==> found.Some?) &&
      (result != null ==> Holds(result) && result.position == Down(pos, found.value))
    }

    method SearchStatic(node: RouteNode, segments: seq<string>, index: nat, params: ParamRecord, ghost view: View)
      returns (result: RouteNode?)
      requires Holds(node) && view == Contents() && index < |segments|
      modifies params
      ensures var s, rest := Step(node.position, Static(segments[index])), segments[index + 1..];
              Reached(result, node.position, ViaChild(view, node.position, s.key, rest)) &&
              params.entries == AfterStatic(view, s, rest, old(params.entries), decode)
      decreases |segments| - index, 0
    {
      StaticChildInContents(node, segments[index]);
      if segments[index] in node.children {
        result := Search(node.children[segments[index]], segments, index + 1, params, view);
        if result != null {
          DownStep(node.position, Static(segments[index]),
                   Found(view, Step(node.position, Static(segments[index])), segments[index + 1..]).value);
        }
      } else {
        result := null;
      }
    }

    /** The parameter branch, with the deletion after a failure. */
    method SearchParam(node: RouteNode, segments: seq<string>, index: nat, params: ParamRecord, ghost view: View)
      returns (result: RouteNode?)
      requires Holds(node) && view == Contents() && index < |segments|
      modifies params
      ensures var p, rest := Step(node.position, Parameter), segments[index + 1..];
              var after := AfterParam(view, p, rest, decode(segments[index]), old(params.entries), decode);
              Reached(result, node.position, ViaChild(view, node.position, p.key, rest)) &&
              params.entries == if result == null && p in view then after - {view[p].paramName} else after
      decreases |segments| - index, 0
    {
      NodeInContents(node);
      if node.paramChild == null {
        return null;
      }
      params.entries := params.entries[node.paramChild.paramName := decode(segments[index])];
      result := Search(node.paramChild, segments, index + 1, params, view);
      if result != null {
        DownStep(node.position, Parameter, Found(view, Step(node.position, Parameter), segments[index + 1..]).value);
      } else {
        params.entries := params.entries - {node.paramChild.paramName};
      }
    }

    /** The wildcard branch: it sets `splat` even though no wildcard node has a handler. */
    method SearchWildcard(node: RouteNode, segments: seq<string>, index: nat, params: ParamRecord, ghost view: View)
      returns (result: RouteNode?)
      requires Holds(node) && view == Contents() && index < |segments|
      modifies params
      ensures var w := Step(node.position, Wildcard);
              Reached(result, node.position, if Handler(view, w).Some? then Some([w.key]) else None) &&
              params.entries == if w in view then old(params.entries)[SPLAT := Join(segments[index..])]
                else old(params.entries)
    {
      NodeInContents(node);
      if node.wildcardChild != null {
        params.entries := params.entries[SPLAT := Join(segments[index..])];
        DownStep(node.position, Wildcard, []);
        return if node.wildcardChild.handler.Some? then node.wildcardChild else null;
      }
      return null;
    }

    /** The branches after the static one. */
    method SearchOthers(node: RouteNode, segments: seq<string>, index: nat, params: ParamRecord, ghost view: View)
      returns (result: RouteNode?)
      requires Holds(node) && view == Contents() && index < |segments|
      modifies params
      ensures var p, w, rest := Step(node.position, Parameter), Step(node.position, Wildcard), segments[index + 1..];
              var viaParam := ViaChild(view, node.position, p.key, rest);
              var after := AfterParam(view, p, rest, decode(segments[index]), old(params.entries), decode);
              var left := if p in view then after - {view[p].paramName} else after;
              Reached(result, node.position,
                      if viaParam.Some? then viaParam
                      else if Handler(view, w).Some? then Some([w.key]) else None) &&
              params.entries == if viaParam.Some? then after
                else if w in view then left[SPLAT := Join(segments[index..])] else left
      decreases |segments| - index, 1
    {
      result := SearchParam(node, segments, index, params, view);
      if result == null {
        result := SearchWildcard(node, segments, index, params, view);
      }
    }

    /** `search`: the recursion that fills and empties `params` while it backtracks. */
    method Search(node: RouteNode, segments: seq<string>, index: nat, params: ParamRecord, ghost view: View)
      returns (result: RouteNode?)
      requires Holds(node) && view == Contents() && index <= |segments|
      modifies params
      ensures Reached(result, node.position, Found(view, node.position, segments[index..]))
      ensures params.entries == ParamsAfter(view, node.position, segments[index..], old(params.entries), decode)
      decreases |segments| - index, 2
    {
      NodeInContents(node);
      if index == |segments| {
        return if node.handler.Some? then node else null;
      }
      SearchUnfolds(view, node.position, segments, index, params.entries, decode);

      result := SearchStatic(node, segments, index, params, view);
      if result != null {
        return;
      }

      result := SearchOthers(node, segments, index, params, view);
    }

    method FindPath(httpMethod: string, segments: seq<string>) returns (route: Option<RouteId>, params: Params)
      requires Valid()
      ensures route == FindRoute(Contents(), httpMethod, segments)
      ensures route.Some? ==> params == ParamsAfter(Contents(), Root(httpMethod), segments, map[], decode)
    {
      if httpMethod !in roots {
        return None, map[];
      }
      var root := roots[httpMethod];
      assert Linked(Root(httpMethod));
      assert segments[0..] == segments;
      var record := new ParamRecord();
      var result := Search(root, segments, 0, record, Contents());
      if result == null {
        return None, map[];
      }
      return result.handler, record.entries;
    }

    method Find(httpMethod: string, path: string) returns (route: Option<RouteId>, params: Params)
      requires Valid()
      ensures route == FindRoute(Contents(), httpMethod, Segments(path))
      ensures route.Some? ==> params == ParamsAfter(Contents(), Root(httpMethod), Segments(path), map[], decode)
    {
      route, params := FindPath(httpMethod, Segments(path));
    }
  }

  // ---------------------------------------------------------------- the route cache's engine

  /** The part of a route that the route cache reads when it fills the engine. */
  datatype RouteRecord = RouteRecord(id: RouteId, path: string, availableMethods: seq<string>)

  /** What the loop over the available methods inserts for one of them. */
  function MethodInsertion(route: RouteRecord, m: string): seq<Insertion> {
    if m == "DELETE" || m == "PATCH"
    then [Insertion(m, Segments(route.path), route.id), Insertion(m, Segments(route.path + "/:id"), route.id)]
    else [Insertion(m, Segments(route.path), route.id)]
  }

  function MethodInsertions(route: RouteRecord, n: nat): seq<Insertion>
    requires n <= |route.availableMethods|
  {
    if n == 0 then [] else MethodInsertions(route, n - 1) + MethodInsertion(route, route.availableMethods[n - 1])
  }

  /** `before`, and what the first `n` rounds of the loop add for this route. */
  ghost function UpTo(before: seq<Insertion>, route: RouteRecord, n: nat): seq<Insertion>
    requires n <= |route.availableMethods|
  {
    before + MethodInsertions(route, n)
  }

  lemma UpToNext(before: seq<Insertion>, route: RouteRecord, n: nat)
    requires n < |route.availableMethods|
    ensures UpTo(before, route, n + 1) == UpTo(before, route, n) + MethodInsertion(route, route.availableMethods[n])
  {
  }

  /** `insertRouteToEngine`: a route without a path is skipped. */
  function RouteInsertions(route: RouteRecord): seq<Insertion> {
    if route.path == "" then [] else MethodInsertions(route, |route.availableMethods|)
  }

  function AllInsertions(routes: seq<RouteRecord>): seq<Insertion> {
    if routes == [] then [] else AllInsertions(routes[..|routes| - 1]) + RouteInsertions(routes[|routes| - 1])
  }

  lemma BuildTwoMore(insertions: seq<Insertion>, i: Insertion, j: Insertion)
    ensures Build(insertions + [i, j]) ==
            RouteView.Insert(RouteView.Insert(Build(insertions), i.httpMethod, i.pattern, i.route), j.httpMethod,
                             j.pattern, j.route)
    ensures Build(insertions + [i]) == RouteView.Insert(Build(insertions), i.httpMethod, i.pattern, i.route)
  {
    assert (insertions + [i, j])[..|insertions| + 1] == insertions + [i];
    assert (insertions + [i])[..|insertions|] == insertions;
  }

  ghost predicate Filled(engine: EnfyraRouteEngine, insertions: seq<Insertion>)
    reads engine, engine.at.Values
  {
    engine.Valid() && engine.Contents() == Build(insertions)
  }

  /** The body of the loop of `insertRouteToEngine`. */
  method InsertMethod(engine: EnfyraRouteEngine, route: RouteRecord, k: nat, ghost before: seq<Insertion>)
    requires k < |route.availableMethods| && Filled(engine, UpTo(before, route, k))
    modifies engine, engine.at.Values
    ensures Filled(engine, UpTo(before, route, k + 1))
    ensures forall n :: n in engine.at.Values ==> n in old(engine.at.Values) || fresh(n)
  {
    var m := route.availableMethods[k];
    ghost var path, byId := Segments(route.path), Segments(route.path + "/:id");
    UpToNext(before, route, k);
    BuildTwoMore(UpTo(before, route, k), Insertion(m, path, route.id), Insertion(m, byId, route.id));
    engine.Insert(m, route.path, route.id);
    if m == "DELETE" || m == "PATCH" {
      engine.Insert(m, route.path + "/:id", route.id);
    }
  }

  method InsertMethods(engine: EnfyraRouteEngine, route: RouteRecord, ghost before: seq<Insertion>)
    requires Filled(engine, UpTo(before, route, 0))
    modifies engine, engine.at.Values
    ensures Filled(engine, UpTo(before, route, |route.availableMethods|))
    ensures forall n :: n in engine.at.Values ==> n in old(engine.at.Values) || fresh(n)
  {
    for k := 0 to |route.availableMethods|
      invariant Filled(engine, UpTo(before, route, k))
      invariant forall n :: n in engine.at.Values ==> n in old(engine.at.Values) || fresh(n)
    {
      InsertMethod(engine, route, k, before);
    }
  }

  method InsertRouteToEngine(engine: EnfyraRouteEngine, route: RouteRecord, ghost before: seq<Insertion>)
    requires Filled(engine, before)
    modifies engine, engine.at.Values
    ensures Filled(engine, before + RouteInsertions(route))
    ensures forall n :: n in engine.at.Values ==> n in old(engine.at.Values) || fresh(n)
  {
    assert before + [] == before;
    if route.path != "" {
      InsertMethods(engine, route, before);
    }
  }

  /** `buildRouteEngine`: a new engine with every route inserted in order. */
  method BuildRouteEngine(routes: seq<RouteRecord>, decode: string -> string) returns (engine: EnfyraRouteEngine)
    ensures fresh(engine) && engine.decode == decode && Filled(engine, AllInsertions(routes))
  {
    engine := new EnfyraRouteEngine(decode);
    for i := 0 to |routes|
      invariant fresh(engine) && engine.decode == decode && Filled(engine, AllInsertions(routes[..i]))
      invariant forall n :: n in engine.at.Values ==> fresh(n)
    {
      InsertRouteToEngine(engine, routes[i], AllInsertions(routes[..i]));
      assert routes[..i + 1][..i] == routes[..i];
    }
    assert routes[..|routes|] == routes;
  }
}
