/** The parameter map that `search` of enfyra-route-engine.ts fills in place while it
    backtracks: what it holds after a failed and after a successful search. */
module RouteParams {
  import opened RoutePaths
  import opened RouteView
  import opened Wrappers

  type Params = map<string, string>

  const SPLAT := "splat"

  /** The map after `search`, successful or not. `decode` is `decodeURIComponent`. */
  function ParamsAfter(view: View, pos: Position, segments: seq<string>, params: Params,
                       decode: string -> string): Params
    decreases |segments|
  {
    if segments == [] then params else
      var s, p, w := Step(pos, Static(segments[0])), Step(pos, Parameter), Step(pos, Wildcard);
      var afterStatic := if s in view then ParamsAfter(view, s, segments[1..], params, decode) else params;
      if s in view && Found(view, s, segments[1..]).Some? then afterStatic
      else if p in view && Found(view, p, segments[1..]).Some? then
        ParamsAfter(view, p, segments[1..], afterStatic[view[p].paramName := decode(segments[0])], decode)
      else
        var afterParam := if p in view
          then ParamsAfter(view, p, segments[1..], afterStatic[view[p].paramName := decode(segments[0])],
                           decode) - {view[p].paramName}
          else afterStatic;
        if w in view then afterParam[SPLAT := Join(segments)] else afterParam
  }

  /** What is found through the child of `pos` with this key, as keys below `pos`. */
  function ViaChild(view: View, pos: Position, key: Key, rest: seq<string>): Option<seq<Key>> {
    var found := if Step(pos, key) in view then Found(view, Step(pos, key), rest) else None;
    if found.Some? then Some([key] + found.value) else None
  }

  function AfterStatic(view: View, child: Position, rest: seq<string>, params: Params,
                       decode: string -> string): Params {
    if child in view then ParamsAfter(view, child, rest, params, decode) else params
  }

  function AfterParam(view: View, child: Position, rest: seq<string>, value: string, params: Params,
                      decode: string -> string): Params {
    if child in view then ParamsAfter(view, child, rest, params[view[child].paramName := value], decode) else params
  }

  /** One level of `search`, in the order in which it tries the children. */
  lemma SearchUnfolds(view: View, pos: Position, segments: seq<string>, i: nat, params: Params,
                      decode: string -> string)
    requires i < |segments|
    ensures var rest := segments[i + 1..];
            var s, p, w := Step(pos, Static(segments[i])), Step(pos, Parameter), Step(pos, Wildcard);
            var viaStatic, viaParam := ViaChild(view, pos, s.key, rest), ViaChild(view, pos, p.key, rest);
            var afterStatic := AfterStatic(view, s, rest, params, decode);
            var afterParam := AfterParam(view, p, rest, decode(segments[i]), afterStatic, decode);
            Found(view, pos, segments[i..]) ==
              (if viaStatic.Some? then viaStatic
               else if viaParam.Some? then viaParam
               else if Handler(view, w).Some? then Some([w.key]) else None) &&
            ParamsAfter(view, pos, segments[i..], params, decode) ==
              (if viaStatic.Some? then afterStatic
               else if viaParam.Some? then afterParam
               else
                 var left := if p in view then afterParam - {view[p].paramName} else afterParam;
                 if w in view then left[SPLAT := Join(segments[i..])] else left)
  {
    assert segments[i..][1..] == segments[i + 1..];
  }

  /** The names of the parameter nodes that an exhaustive search visits. */
  function VisitedNames(view: View, pos: Position, segments: seq<string>): set<string>
    decreases |segments|
  {
    if segments == [] then {} else
      var s, p := Step(pos, Static(segments[0])), Step(pos, Parameter);
      (if s in view then VisitedNames(view, s, segments[1..]) else {}) +
      (if p in view then {view[p].paramName} + VisitedNames(view, p, segments[1..]) else {})
  }

  ghost predicate NoWildcards(view: View) {
    forall p :: p in view && p.Step? ==> p.key != Wildcard
  }

  /** Binding a name, losing the names `v2` and then the name itself. */
  lemma EraseAfterBinding(params: Params, before: Params, v1: set<string>, name: string, value: string,
                          after: Params, v2: set<string>, except: set<string>)
    requires before - except == params - v1 - except
    requires after - except == before[name := value] - v2 - except
    ensures after - {name} - except == params - (v1 + ({name} + v2)) - except
  {
    forall k | k !in except && k != name
      ensures k in after <==> k in params && k !in v1 && k !in v2
      ensures k in after ==> after[k] == params[k]
    {
      assert k in after <==> k in after - except;
      assert k in before <==> k in before - except;
      if k in after {
        assert after[k] == (after - except)[k] && before[k] == (before - except)[k];
      }
    }
  }

  /** A failed search removes from the map exactly the names it visited, and otherwise can only
      have touched the `splat` entry, which it leaves alone when there is no wildcard node. */
  lemma {:induction false} FailedSearchRemovesVisited(view: View, pos: Position, segments: seq<string>, params: Params,
                                                      decode: string -> string, except: set<string>)
    requires Found(view, pos, segments).None?
    requires NoWildcards(view) || except == {SPLAT}
    ensures ParamsAfter(view, pos, segments, params, decode) - except
            == params - VisitedNames(view, pos, segments) - except
    decreases |segments|
  {
    if segments != [] {
      var s, p, w := Step(pos, Static(segments[0])), Step(pos, Parameter), Step(pos, Wildcard);
      var afterStatic := if s in view then ParamsAfter(view, s, segments[1..], params, decode) else params;
      var v1 := if s in view then VisitedNames(view, s, segments[1..]) else {};
      if s in view {
        FailedSearchRemovesVisited(view, s, segments[1..], params, decode, except);
      }
      assert afterStatic - except == params - v1 - except;
      var afterParam := afterStatic;
      if p in view {
        var name, value := view[p].paramName, decode(segments[0]);
        var bound := afterStatic[name := value];
        var after := ParamsAfter(view, p, segments[1..], bound, decode);
        var v2 := VisitedNames(view, p, segments[1..]);
        FailedSearchRemovesVisited(view, p, segments[1..], bound, decode, except);
        EraseAfterBinding(params, afterStatic, v1, name, value, after, v2, except);
        afterParam := after - {name};
      }
      assert afterParam - except == params - VisitedNames(view, pos, segments) - except;
      if w in view {
        SetOnlySplat(afterParam, Join(segments));
      }
    }
  }

  lemma SetOnlySplat(params: Params, value: string)
    ensures params[SPLAT := value] - {SPLAT} == params - {SPLAT}
  {
  }

  predicate IsParamNode(view: View, p: Position) { p in view && p.Step? && p.key == Parameter }

  /** `q` hangs somewhere below `p`. */
  predicate Above(p: Position, q: Position)
    decreases q
  {
    q.Step? && (q.parent == p || Above(p, q.parent))
  }

  /** The parameter names along every path from a root down are distinct. */
  ghost predicate DistinctNames(view: View) {
    forall p, q :: IsParamNode(view, p) && IsParamNode(view, q) && Above(p, q) ==>
      view[p].paramName != view[q].paramName
  }

  lemma AboveIsTransitive(p: Position, q: Position, r: Position)
    requires Above(p, q) && Above(q, r)
    ensures Above(p, r)
    decreases r
  {
    if r.parent != q { AboveIsTransitive(p, q, r.parent); }
  }

  lemma {:induction false} VisitedAreBelow(view: View, pos: Position, segments: seq<string>, name: string)
    returns (q: Position)
    requires name in VisitedNames(view, pos, segments)
    ensures IsParamNode(view, q) && Above(pos, q) && view[q].paramName == name
    decreases |segments|
  {
    var s, p := Step(pos, Static(segments[0])), Step(pos, Parameter);
    if s in view && name in VisitedNames(view, s, segments[1..]) {
      q := VisitedAreBelow(view, s, segments[1..], name);
      AboveIsTransitive(pos, s, q);
    } else if name == view[p].paramName {
      q := p;
    } else {
      q := VisitedAreBelow(view, p, segments[1..], name);
      AboveIsTransitive(pos, p, q);
    }
  }

  // ---------------------------------------------------------------- when names are distinct

  function Depth(p: Position): nat {
    if p.Root? then 0 else 1 + Depth(p.parent)
  }

  lemma AboveIsShallower(p: Position, q: Position)
    requires Above(p, q)
    ensures Depth(p) < Depth(q)
    decreases q
  {
    if q.parent != p { AboveIsShallower(p, q.parent); }
  }

  /** Every parameter name is used in the inserted patterns at one segment index only. */
  ghost predicate NamesAtOneIndex(insertions: seq<Insertion>) {
    forall i, a, j, b ::
      (0 <= i < |insertions| && 0 <= a < |insertions[i].pattern| && IsParameter(insertions[i].pattern[a]) &&
       0 <= j < |insertions| && 0 <= b < |insertions[j].pattern| &&
         insertions[i].pattern[a] == insertions[j].pattern[b])
      ==> a == b
  }

  /** Segment `a` of insertion `i` gave the node at `p` its name. */
  ghost predicate NamedBy(insertions: seq<Insertion>, view: View, p: Position, i: nat, a: nat)
    requires p in view
  {
    i < |insertions| && a < |insertions[i].pattern| && Depth(p) == a + 1 &&
    IsParameter(insertions[i].pattern[a]) && view[p].paramName == insertions[i].pattern[a][1..]
  }

  ghost predicate NamesComeFrom(insertions: seq<Insertion>, view: View) {
    forall p :: IsParamNode(view, p) ==> exists i: nat, a: nat :: NamedBy(insertions, view, p, i, a)
  }

  lemma {:induction false} InsertBelowNames(insertions: seq<Insertion>, view: View, pos: Position, i: nat, a: nat)
    requires i < |insertions| && a <= |insertions[i].pattern| && Depth(pos) == a
    requires NamesComeFrom(insertions, view)
    ensures NamesComeFrom(insertions, InsertBelow(view, pos, insertions[i].pattern[a..], insertions[i].route))
    decreases |insertions[i].pattern| - a
  {
    var pattern, route := insertions[i].pattern, insertions[i].route;
    if a < |pattern| {
      InsertBelowUnfolds(view, pos, pattern, a, route);
      var child := Step(pos, KeyOf(pattern[a]));
      var grown := Grow(view, child, NameOf(pattern[a]));
      var stored := grown[child := grown[child].(handler := Some(route))];
      if IsParamNode(grown, child) && child !in view {
        assert NamedBy(insertions, grown, child, i, a) && NamedBy(insertions, stored, child, i, a);
      }
      forall p | IsParamNode(grown, p)
        ensures exists j: nat, b: nat :: NamedBy(insertions, grown, p, j, b)
        ensures exists j: nat, b: nat :: NamedBy(insertions, stored, p, j, b)
      {
        if p in view {
          assert IsParamNode(view, p);
          var j: nat, b: nat :| NamedBy(insertions, view, p, j, b);
          assert NamedBy(insertions, grown, p, j, b) && NamedBy(insertions, stored, p, j, b);
        }
      }
      assert NamesComeFrom(insertions, grown);
      forall p | IsParamNode(stored, p) ensures exists j: nat, b: nat :: NamedBy(insertions, stored, p, j, b) {
        assert IsParamNode(grown, p);
      }
      if !IsWildcard(pattern[a]) {
        InsertBelowNames(insertions, if a == |pattern| - 1 then stored else grown, child, i, a + 1);
      }
    }
  }

  lemma {:induction false} BuildNames(insertions: seq<Insertion>, n: nat)
    requires n <= |insertions|
    ensures NamesComeFrom(insertions, Build(insertions[..n]))
    decreases n
  {
    if n > 0 {
      BuildNames(insertions, n - 1);
      var before, last := Build(insertions[..n - 1]), insertions[n - 1];
      assert insertions[..n][..n - 1] == insertions[..n - 1];
      var rooted := Grow(before, Root(last.httpMethod), "");
      forall p | IsParamNode(rooted, p) ensures exists j: nat, b: nat :: NamedBy(insertions, rooted, p, j, b) {
        assert IsParamNode(before, p);
        var j: nat, b: nat :| NamedBy(insertions, before, p, j, b);
        assert NamedBy(insertions, rooted, p, j, b);
      }
      InsertBelowNames(insertions, rooted, Root(last.httpMethod), n - 1, 0);
      assert last.pattern[0..] == last.pattern;
    }
  }

  /** A condition on the inserted patterns alone under which the names along every path of the
      trie are distinct. Distinct names within each pattern are not enough
      (`RouteExamples.BoundParameterIsLost`). */
  lemma NamesAtOneIndexAreDistinct(insertions: seq<Insertion>)
    requires NamesAtOneIndex(insertions)
    ensures DistinctNames(Build(insertions))
  {
    var view := Build(insertions);
    BuildNames(insertions, |insertions|);
    assert insertions[..|insertions|] == insertions;
    forall p, q | IsParamNode(view, p) && IsParamNode(view, q) && Above(p, q)
      ensures view[p].paramName != view[q].paramName
    {
      AboveIsShallower(p, q);
      var i: nat, a: nat :| NamedBy(insertions, view, p, i, a);
      var j: nat, b: nat :| NamedBy(insertions, view, q, j, b);
      var s, t := insertions[i].pattern[a], insertions[j].pattern[b];
      assert s == [':'] + s[1..] && t == [':'] + t[1..];
    }
  }

  lemma {:induction false} InsertBelowKeepsNoWildcards(view: View, pos: Position, pattern: seq<string>, route: RouteId)
    requires NoWildcards(view) && forall k :: 0 <= k < |pattern| ==> !IsWildcard(pattern[k])
    ensures NoWildcards(InsertBelow(view, pos, pattern, route))
    decreases |pattern|
  {
    if |pattern| > 1 {
      var child := Step(pos, KeyOf(pattern[0]));
      InsertBelowKeepsNoWildcards(Grow(view, child, NameOf(pattern[0])), child, pattern[1..], route);
    }
  }

  lemma {:induction false} NoWildcardsInserted(insertions: seq<Insertion>)
    requires forall i, k :: 0 <= i < |insertions| && 0 <= k < |insertions[i].pattern| ==>
             !IsWildcard(insertions[i].pattern[k])
    ensures NoWildcards(Build(insertions))
  {
    if insertions != [] {
      var last := insertions[|insertions| - 1];
      var before := Build(insertions[..|insertions| - 1]);
      NoWildcardsInserted(insertions[..|insertions| - 1]);
      InsertBelowKeepsNoWildcards(Grow(before, Root(last.httpMethod), ""), Root(last.httpMethod), last.pattern,
                                  last.route);
    }
  }
}
