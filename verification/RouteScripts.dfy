/** The route cache's use of the script rewriter (`loadFromDb` of route-cache.service.ts).
    Hook objects are shared: a global hook is rewritten once when it is loaded and again for
    every route it is merged into. */
module RouteScripts {
  import opened CodeTransformer
  import opened Wrappers

  /** A hook (field `code`) or a handler (field `logic`). */
  class Script {
    const id: Option<string>
    const isEnabled: Option<bool>
    const isGlobal: Option<bool>
    var code: Option<string>

    constructor (id: Option<string>, isEnabled: Option<bool>, isGlobal: Option<bool>, code: Option<string>)
      ensures this.id == id && this.isEnabled == isEnabled && this.isGlobal == isGlobal && this.code == code
    {
      this.id, this.isEnabled, this.isGlobal, this.code := id, isEnabled, isGlobal, code;
    }
  }

  class Route {
    var handlers: seq<Script>
    var preHooks: seq<Script>
    var postHooks: seq<Script>

    constructor (handlers: seq<Script>, preHooks: seq<Script>, postHooks: seq<Script>)
      ensures this.handlers == handlers && this.preHooks == preHooks && this.postHooks == postHooks
    {
      this.handlers, this.preHooks, this.postHooks := handlers, preHooks, postHooks;
    }
  }

  function RewrittenCode(c: Option<string>): Option<string> {
    if c.Some? && c.value != "" then Some(Transformed(c.value)) else c
  }

  lemma RewrittenCodeIsIdempotent(c: Option<string>)
    ensures RewrittenCode(RewrittenCode(c)) == RewrittenCode(c)
  {
    if c.Some? { TransformIsIdempotent(c.value); }
  }

  // ---------------------------------------------------------------- merging hooks

  /** The route's own hooks that take part: enabled and explicitly not global. */
  function OwnHooks(hooks: seq<Script>): seq<Script> {
    if hooks == [] then [] else
      (if hooks[0].isEnabled == Some(true) && hooks[0].isGlobal == Some(false) then [hooks[0]] else [])
      + OwnHooks(hooks[1..])
  }

  lemma {:induction false} OwnHooksAreOwn(hooks: seq<Script>)
    ensures forall h :: h in OwnHooks(hooks) <==>
              h in hooks && h.isEnabled == Some(true) && h.isGlobal == Some(false)
  {
    if hooks != [] { OwnHooksAreOwn(hooks[1..]); }
  }

  /** They stay in order, each as often as it is listed. */
  lemma {:induction false} OwnHooksKeepOrder(hooks: seq<Script>, h: Script)
    ensures OwnHooks(hooks + [h]) ==
            OwnHooks(hooks) + if h.isEnabled == Some(true) && h.isGlobal == Some(false) then [h] else []
  {
    if hooks == [] {
      assert hooks + [h] == [h];
    } else {
      OwnHooksKeepOrder(hooks[1..], h);
      assert (hooks + [h])[1..] == hooks[1..] + [h];
    }
  }

  predicate FirstOfItsId(hooks: seq<Script>, i: nat)
    requires i < |hooks|
  {
    forall j :: 0 <= j < i ==> hooks[j].id != hooks[i].id
  }

  /** `uniqueHooks`: the hooks at an index that is the first one with their id. */
  function UniqueUpTo(hooks: seq<Script>, n: nat): seq<Script>
    requires n <= |hooks|
  {
    if n == 0 then [] else
      UniqueUpTo(hooks, n - 1) + (if FirstOfItsId(hooks, n - 1) then [hooks[n - 1]] else [])
  }

  function UniqueHooks(hooks: seq<Script>): seq<Script> { UniqueUpTo(hooks, |hooks|) }

  function MergedHooks(globals: seq<Script>, own: seq<Script>): seq<Script> {
    UniqueHooks(globals + OwnHooks(own))
  }

  /** Hook `h` is the first one of its id among the first `n`. */
  ghost predicate KeptAmong(hooks: seq<Script>, n: nat, h: Script)
    requires n <= |hooks|
  {
    exists i :: 0 <= i < n && hooks[i] == h && FirstOfItsId(hooks, i)
  }

  lemma {:induction false} UniqueAreFirst(hooks: seq<Script>, n: nat)
    requires n <= |hooks|
    ensures forall j :: 0 <= j < |UniqueUpTo(hooks, n)| ==> KeptAmong(hooks, n, UniqueUpTo(hooks, n)[j])
  {
    if n > 0 {
      UniqueAreFirst(hooks, n - 1);
      forall j | 0 <= j < |UniqueUpTo(hooks, n)| ensures KeptAmong(hooks, n, UniqueUpTo(hooks, n)[j]) {
        if j < |UniqueUpTo(hooks, n - 1)| {
          assert KeptAmong(hooks, n - 1, UniqueUpTo(hooks, n - 1)[j]);
        }
      }
    }
  }

  lemma {:induction false} UniqueIdsDiffer(hooks: seq<Script>, n: nat)
    requires n <= |hooks|
    ensures forall i, j :: 0 <= i < j < |UniqueUpTo(hooks, n)| ==>
              UniqueUpTo(hooks, n)[i].id != UniqueUpTo(hooks, n)[j].id
  {
    if n > 0 {
      UniqueIdsDiffer(hooks, n - 1);
      UniqueAreFirst(hooks, n - 1);
      var v := UniqueUpTo(hooks, n - 1);
      if FirstOfItsId(hooks, n - 1) {
        forall i | 0 <= i < |v| ensures v[i].id != hooks[n - 1].id {
          assert KeptAmong(hooks, n - 1, v[i]);
        }
      }
    }
  }

  /** No id is lost: the first hook of any id is kept. */
  lemma {:induction false} FirstIsKept(hooks: seq<Script>, n: nat, i: nat)
    requires i < n <= |hooks| && FirstOfItsId(hooks, i)
    ensures hooks[i] in UniqueUpTo(hooks, n)
  {
    if i < n - 1 { FirstIsKept(hooks, n - 1, i); }
  }

  lemma {:induction false} FirstExists(hooks: seq<Script>, i: nat) returns (k: nat)
    requires i < |hooks|
    ensures k <= i && hooks[k].id == hooks[i].id && FirstOfItsId(hooks, k)
  {
    if FirstOfItsId(hooks, i) {
      k := i;
    } else {
      var j :| 0 <= j < i && hooks[j].id == hooks[i].id;
      k := FirstExists(hooks, j);
    }
  }

  /** `uniqueHooks` keeps no id twice, keeps for every id the first hook that has it (so a
      global hook wins over a route's own), and adds nothing. */
  lemma UniqueHooksKeepsFirst(hooks: seq<Script>)
    ensures var u := UniqueHooks(hooks);
            (forall j :: 0 <= j < |u| ==> KeptAmong(hooks, |hooks|, u[j])) &&
            (forall i, j :: 0 <= i < j < |u| ==> u[i].id != u[j].id) &&
            (forall i :: 0 <= i < |hooks| ==>
               exists k :: 0 <= k <= i && hooks[k].id == hooks[i].id && hooks[k] in u && FirstOfItsId(hooks, k))
  {
    UniqueAreFirst(hooks, |hooks|);
    UniqueIdsDiffer(hooks, |hooks|);
    forall i | 0 <= i < |hooks|
      ensures exists k ::
                0 <= k <= i && hooks[k].id == hooks[i].id && hooks[k] in UniqueHooks(hooks) && FirstOfItsId(hooks, k)
    {
      var k := FirstExists(hooks, i);
      FirstIsKept(hooks, |hooks|, k);
    }
  }

  lemma FirstIsUnique(hooks: seq<Script>, a: nat, b: nat)
    requires a < |hooks| && b < |hooks| && hooks[a].id == hooks[b].id
    requires FirstOfItsId(hooks, a) && FirstOfItsId(hooks, b)
    ensures a == b
  {
  }

  /** The kept hooks stay in order. */
  lemma {:induction false} UniqueKeepsOrder(hooks: seq<Script>, n: nat, i: nat, j: nat, a: nat, b: nat)
    requires n <= |hooks| && i < j < |UniqueUpTo(hooks, n)| && a < |hooks| && b < |hooks|
    requires hooks[a] == UniqueUpTo(hooks, n)[i] && FirstOfItsId(hooks, a)
    requires hooks[b] == UniqueUpTo(hooks, n)[j] && FirstOfItsId(hooks, b)
    ensures a < b
  {
    var kept := UniqueUpTo(hooks, n - 1);
    if j < |kept| {
      UniqueKeepsOrder(hooks, n - 1, i, j, a, b);
    } else {
      UniqueAreFirst(hooks, n - 1);
      assert KeptAmong(hooks, n - 1, kept[i]);
      var k :| 0 <= k < n - 1 && hooks[k] == kept[i] && FirstOfItsId(hooks, k);
      FirstIsUnique(hooks, k, a);
      FirstIsUnique(hooks, n - 1, b);
    }
  }

  lemma {:induction false} UniqueUpToPrefix(a: seq<Script>, b: seq<Script>, n: nat)
    requires n <= |a|
    ensures UniqueUpTo(a + b, n) == UniqueUpTo(a, n)
  {
    if n > 0 {
      UniqueUpToPrefix(a, b, n - 1);
      assert FirstOfItsId(a + b, n - 1) <==> FirstOfItsId(a, n - 1) by {
        assert forall k :: 0 <= k < n ==> (a + b)[k] == a[k];
      }
    }
  }

  lemma {:induction false} UniqueGrows(hooks: seq<Script>, m: nat, n: nat)
    requires m <= n <= |hooks|
    ensures UniqueUpTo(hooks, m) <= UniqueUpTo(hooks, n)
    decreases n
  {
    if m < n { UniqueGrows(hooks, m, n - 1); }
  }

  /** The global hooks come first and win over a route's own ones of the same id. */
  lemma GlobalHooksComeFirst(globals: seq<Script>, own: seq<Script>, h: Script)
    ensures UniqueHooks(globals) <= MergedHooks(globals, own)
    ensures h in MergedHooks(globals, own) && h !in globals ==>
              h in own && h.isEnabled == Some(true) && h.isGlobal == Some(false) && NotAmong(globals, h)
  {
    var hooks := globals + OwnHooks(own);
    UniqueUpToPrefix(globals, OwnHooks(own), |globals|);
    UniqueGrows(hooks, |globals|, |hooks|);
    OwnHooksAreOwn(own);
    if h in MergedHooks(globals, own) && h !in globals {
      UniqueAreFirst(hooks, |hooks|);
      var j :| 0 <= j < |UniqueHooks(hooks)| && UniqueHooks(hooks)[j] == h;
      assert KeptAmong(hooks, |hooks|, UniqueHooks(hooks)[j]);
      var i :| 0 <= i < |hooks| && hooks[i] == h && FirstOfItsId(hooks, i);
      assert h == OwnHooks(own)[i - |globals|];
      forall k | 0 <= k < |globals| ensures globals[k].id != h.id {
        assert hooks[k] == globals[k];
      }
    }
  }

  predicate NotAmong(hooks: seq<Script>, h: Script) {
    forall k :: 0 <= k < |hooks| ==> hooks[k].id != h.id
  }

  // ---------------------------------------------------------------- rewriting in place

  /** One of the loops over scripts: `if (hook.code) hook.code = transformCode(hook.code)`.
      The list may name an object more than once. */
  method TransformScripts(scripts: seq<Script>)
    modifies scripts
    ensures forall s :: s in scripts ==> s.code == RewrittenCode(old(s.code))
    ensures forall s :: s in scripts && old(s.code).Some? && old(s.code).value != "" ==>
              s.code == Some(Transformed(old(s.code).value))
  {
    for i := 0 to |scripts|
      invariant forall s :: s in scripts[..i] ==> s.code == RewrittenCode(old(s.code))
      invariant forall s :: s in scripts && s !in scripts[..i] ==> s.code == old(s.code)
    {
      var script := scripts[i];
      RewrittenCodeIsIdempotent(old(script.code));
      if script.code.Some? && script.code.value != "" {
        var rewritten := TransformCode(script.code.value);
        script.code := Some(rewritten);
      }
      assert scripts[..i + 1] == scripts[..i] + [script];
    }
  }

  /** The scripts of one route. */
  ghost function ScriptsOf(route: Route): set<Script>
    reads route
  {
    (set s | s in route.handlers) + (set s | s in route.preHooks) + (set s | s in route.postHooks)
  }

  method TransformRouteCode(route: Route)
    modifies ScriptsOf(route)
    ensures forall s :: s in ScriptsOf(route) ==> s.code == RewrittenCode(old(s.code))
  {
    TransformScripts(route.handlers);
    TransformScripts(route.preHooks);
    TransformScripts(route.postHooks);
    forall s | s in ScriptsOf(route) ensures s.code == RewrittenCode(old(s.code)) {
      RewrittenCodeIsIdempotent(old(s.code));
    }
  }

  /** What the load promises about one route. */
  twostate predicate HooksMerged(route: Route, globalPreHooks: seq<Script>, globalPostHooks: seq<Script>)
    reads route
  {
    route.handlers == old(route.handlers) &&
    route.preHooks == MergedHooks(globalPreHooks, old(route.preHooks)) &&
    route.postHooks == MergedHooks(globalPostHooks, old(route.postHooks))
  }

  /** What the load promises about one script. */
  twostate predicate RewrittenIf(s: Script, reached: bool)
    reads s
  {
    s.code == if reached then RewrittenCode(old(s.code)) else old(s.code)
  }

  /** The same, spelled out: a script that has code ends with its code transformed. */
  twostate predicate CodeTransformedIf(s: Script, reached: bool)
    reads s
  {
    s.code == if reached && old(s.code).Some? && old(s.code).value != "" then Some(Transformed(old(s.code).value))
              else old(s.code)
  }

  /** The scripts reached so far hold their rewritten code, the others the code they were stored with. */
  ghost predicate RewrittenOnce(stored: map<Script, Option<string>>, reached: set<Script>)
    reads stored.Keys
  {
    forall s :: s in stored ==> s.code == if s in reached then RewrittenCode(stored[s]) else stored[s]
  }

  method MergeHooks(route: Route, globalPreHooks: seq<Script>, globalPostHooks: seq<Script>)
    modifies route
    ensures HooksMerged(route, globalPreHooks, globalPostHooks)
  {
    route.preHooks := UniqueHooks(globalPreHooks + OwnHooks(route.preHooks));
    route.postHooks := UniqueHooks(globalPostHooks + OwnHooks(route.postHooks));
  }

  /** The scripts of all routes. */
  ghost function AllScripts(routes: seq<Route>): set<Script>
    reads routes
  {
    if routes == [] then {} else AllScripts(routes[..|routes| - 1]) + ScriptsOf(routes[|routes| - 1])
  }

  /** They are the handlers, pre-hooks and post-hooks of the routes. */
  lemma {:induction false} AllScriptsAre(routes: seq<Route>, s: Script)
    ensures s in AllScripts(routes) <==>
            exists r :: r in routes && (s in r.handlers || s in r.preHooks || s in r.postHooks)
  {
    if routes != [] {
      var before, last := routes[..|routes| - 1], routes[|routes| - 1];
      AllScriptsAre(before, s);
      assert routes == before + [last];
    }
  }

  /** The body of the loop over routes: merge, then rewrite in place. */
  method LoadRoute(route: Route, globalPreHooks: seq<Script>, globalPostHooks: seq<Script>,
                   ghost scripts: set<Script>)
    requires ScriptsOf(route) <= scripts
    requires forall s :: s in globalPreHooks || s in globalPostHooks ==> s in scripts
    modifies route, scripts
    ensures HooksMerged(route, globalPreHooks, globalPostHooks)
    ensures ScriptsOf(route) <= scripts
    ensures forall s :: s in scripts ==>
              s.code == if s in ScriptsOf(route) then RewrittenCode(old(s.code)) else old(s.code)
  {
    MergedHooksComeFrom(globalPreHooks, route.preHooks);
    MergedHooksComeFrom(globalPostHooks, route.postHooks);
    MergeHooks(route, globalPreHooks, globalPostHooks);
    TransformRouteCode(route);
  }

  method LoadGlobalHooks(globalPreHooks: seq<Script>, globalPostHooks: seq<Script>, ghost scripts: set<Script>)
    requires forall s :: s in globalPreHooks || s in globalPostHooks ==> s in scripts
    modifies scripts
    ensures forall s :: s in scripts ==> RewrittenIf(s, s in globalPreHooks || s in globalPostHooks)
  {
    TransformScripts(globalPreHooks);
    TransformScripts(globalPostHooks);
    forall s | s in scripts
      ensures RewrittenIf(s, s in globalPreHooks || s in globalPostHooks)
    {
      RewrittenCodeIsIdempotent(old(s.code));
    }
  }

  method LoadRouteAt(routes: seq<Route>, i: nat, globalPreHooks: seq<Script>, globalPostHooks: seq<Script>,
                     ghost stored: map<Script, Option<string>>, ghost reached: set<Script>)
    requires i < |routes| && forall k, l :: 0 <= k < l < |routes| ==> routes[k] != routes[l]
    requires forall s :: s in globalPreHooks || s in globalPostHooks ==> s in stored
    requires ScriptsOf(routes[i]) <= stored.Keys
    requires RewrittenOnce(stored, reached)
    modifies routes[i], stored.Keys
    ensures HooksMerged(routes[i], globalPreHooks, globalPostHooks)
    ensures AllScripts(routes[..i + 1]) == old(AllScripts(routes[..i])) + ScriptsOf(routes[i])
    ensures RewrittenOnce(stored, reached + ScriptsOf(routes[i]))
  {
    LoadRoute(routes[i], globalPreHooks, globalPostHooks, stored.Keys);
    assert routes[..i + 1][..i] == routes[..i];
    forall s | s in stored
      ensures s.code == if s in reached + ScriptsOf(routes[i]) then RewrittenCode(stored[s]) else stored[s]
    {
      RewrittenCodeIsIdempotent(stored[s]);
    }
  }

  /** The loop over routes. */
  method MergeIntoRoutes(routes: seq<Route>, globalPreHooks: seq<Script>, globalPostHooks: seq<Script>,
                         ghost scripts: set<Script>)
    requires forall i, j :: 0 <= i < j < |routes| ==> routes[i] != routes[j]
    requires forall s :: s in globalPreHooks || s in globalPostHooks ==> s in scripts
    requires forall i :: 0 <= i < |routes| ==> ScriptsOf(routes[i]) <= scripts
    modifies routes, scripts
    ensures forall i :: 0 <= i < |routes| ==> HooksMerged(routes[i], globalPreHooks, globalPostHooks)
    ensures forall s :: s in scripts ==> RewrittenIf(s, s in AllScripts(routes))
  {
    ghost var reached: set<Script> := {};
    ghost var stored := map s | s in scripts :: s.code;
    assert stored.Keys == scripts;
    for i := 0 to |routes|
      invariant forall k :: i <= k < |routes| ==> unchanged(routes[k])
      invariant forall k :: 0 <= k < i ==> HooksMerged(routes[k], globalPreHooks, globalPostHooks)
      invariant reached == AllScripts(routes[..i])
      invariant RewrittenOnce(stored, reached)
    {
      LoadRouteAt(routes, i, globalPreHooks, globalPostHooks, stored, reached);
      reached := reached + ScriptsOf(routes[i]);
    }
    assert routes[..|routes|] == routes;
  }

  /** `loadFromDb` after its queries: rewrite the global hooks, then merge and rewrite route by
      route. Every script a route or a global list names in the end is rewritten exactly once,
      however many routes share it, and every other script (a disabled hook, a hook dropped as
      a duplicate) is untouched. */
  method LoadRoutes(routes: seq<Route>, globalPreHooks: seq<Script>, globalPostHooks: seq<Script>,
                    ghost scripts: set<Script>)
    requires forall i, j :: 0 <= i < j < |routes| ==> routes[i] != routes[j]
    requires forall s :: s in globalPreHooks || s in globalPostHooks ==> s in scripts
    requires forall i :: 0 <= i < |routes| ==> ScriptsOf(routes[i]) <= scripts
    modifies routes, scripts
    ensures forall i :: 0 <= i < |routes| ==> HooksMerged(routes[i], globalPreHooks, globalPostHooks)
    ensures forall s :: s in scripts ==>
              CodeTransformedIf(s, s in globalPreHooks || s in globalPostHooks || s in AllScripts(routes))
  {
    LoadGlobalHooks(globalPreHooks, globalPostHooks, scripts);
    MergeIntoRoutes(routes, globalPreHooks, globalPostHooks, scripts);
    forall s | s in scripts
      ensures CodeTransformedIf(s, s in globalPreHooks || s in globalPostHooks || s in AllScripts(routes))
    {
      RewrittenCodeIsIdempotent(old(s.code));
    }
  }

  lemma MergedHooksComeFrom(globals: seq<Script>, own: seq<Script>)
    ensures forall h :: h in MergedHooks(globals, own) ==> h in globals || h in own
  {
    var hooks := globals + OwnHooks(own);
    OwnHooksAreOwn(own);
    UniqueHooksKeepsFirst(hooks);
    forall h | h in MergedHooks(globals, own) ensures h in globals || h in own {
      var j :| 0 <= j < |UniqueHooks(hooks)| && UniqueHooks(hooks)[j] == h;
      assert KeptAmong(hooks, |hooks|, h);
      assert h in globals || h in OwnHooks(own);
    }
  }
}
