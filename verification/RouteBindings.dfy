/** What the parameter map of enfyra-route-engine.ts holds after a successful search, on every trie: which
    step of the search decides each entry, when the bindings of the matched path are all that is left, and
    when `splat` is. */
module RouteBindings {
  import opened RoutePaths
  import opened RouteView
  import opened RouteParams
  import opened Wrappers

  function Lookup(params: Params, name: string): Option<string> {
    if name in params then Some(params[name]) else None
  }

  // ---------------------------------------------------------------- one name, through a failed search

  /** What a search does to the entry of one name in the end: its last assignment or deletion. */
  datatype Touch = Untouched | Erased | Left(value: string)

  function Applied(touch: Touch, before: Option<string>): Option<string> {
    match touch
    case Untouched => before
    case Erased => None
    case Left(value) => Some(value)
  }

  /** The last touch of a failed search. A wildcard child is tried last and sets `splat`; a parameter node
      deletes its name after what lies below it; what lies below a static child comes first. */
  function Touched(view: View, pos: Position, segments: seq<string>, name: string): Touch
    decreases |segments|
  {
    if segments == [] then Untouched else
      var s, p, w := Step(pos, Static(segments[0])), Step(pos, Parameter), Step(pos, Wildcard);
      if w in view && name == SPLAT then Left(Join(segments))
      else if p in view && view[p].paramName == name then Erased
      else
        var viaParam := if p in view then Touched(view, p, segments[1..], name) else Untouched;
        if viaParam != Untouched then viaParam
        else if s in view then Touched(view, s, segments[1..], name) else Untouched
  }

  lemma {:induction false} FailedSearchTouches(view: View, pos: Position, segments: seq<string>, params: Params,
                                               decode: string -> string, name: string)
    requires Found(view, pos, segments).None?
    ensures Lookup(ParamsAfter(view, pos, segments, params, decode), name)
         == Applied(Touched(view, pos, segments, name), Lookup(params, name))
    decreases |segments|
  {
    if segments != [] {
      var s, p := Step(pos, Static(segments[0])), Step(pos, Parameter);
      var afterStatic := AfterStatic(view, s, segments[1..], params, decode);
      if s in view {
        FailedSearchTouches(view, s, segments[1..], params, decode, name);
      }
      if p in view {
        FailedSearchTouches(view, p, segments[1..], afterStatic[view[p].paramName := decode(segments[0])], decode,
                            name);
      }
    }
  }

  /** Names other than `splat`, and all names in a trie without wildcards, can only be erased, namely those
      visited. */
  lemma {:induction false} TouchedIsErased(view: View, pos: Position, segments: seq<string>, name: string)
    requires NoWildcards(view) || name != SPLAT
    ensures Touched(view, pos, segments, name) == if name in VisitedNames(view, pos, segments) then Erased
            else Untouched
    decreases |segments|
  {
    if segments != [] {
      TouchedIsErased(view, Step(pos, Static(segments[0])), segments[1..], name);
      TouchedIsErased(view, Step(pos, Parameter), segments[1..], name);
    }
  }

  lemma SameLookups(a: Params, b: Params)
    requires forall name :: Lookup(a, name) == Lookup(b, name)
    ensures a == b
  {
    forall name ensures (name in a <==> name in b) && (name in a ==> a[name] == b[name]) {
      assert Lookup(a, name) == Lookup(b, name);
    }
  }

  /** On every trie a failed search leaves the map as it found it if and only if it visited no name bound there and
      did to `splat` nothing that shows. */
  lemma FailedSearchKeepsIff(view: View, pos: Position, segments: seq<string>, params: Params, decode: string -> string)
    requires Found(view, pos, segments).None?
    ensures ParamsAfter(view, pos, segments, params, decode) == params <==>
            (forall name :: name in VisitedNames(view, pos, segments) && name != SPLAT ==> name !in params) &&
            Applied(Touched(view, pos, segments, SPLAT), Lookup(params, SPLAT)) == Lookup(params, SPLAT)
  {
    var after := ParamsAfter(view, pos, segments, params, decode);
    forall name
      ensures Lookup(after, name) == Applied(Touched(view, pos, segments, name), Lookup(params, name))
      ensures name != SPLAT ==>
                (Lookup(after, name) == Lookup(params, name) <==>
                 (name in VisitedNames(view, pos, segments) ==> name !in params))
    {
      FailedSearchTouches(view, pos, segments, params, decode, name);
      if name != SPLAT { TouchedIsErased(view, pos, segments, name); }
    }
    if forall name :: Lookup(after, name) == Lookup(params, name) { SameLookups(after, params); }
  }

  /** A failed search reaches a node that has a wildcard child. */
  predicate ReachesWildcard(view: View, pos: Position, segments: seq<string>)
    decreases |segments|
  {
    segments != [] &&
    var s, p := Step(pos, Static(segments[0])), Step(pos, Parameter);
    Step(pos, Wildcard) in view ||
    (s in view && ReachesWildcard(view, s, segments[1..])) ||
    (p in view && ReachesWildcard(view, p, segments[1..]))
  }

  ghost predicate NoParameterIsSplat(view: View) {
    forall p :: IsParamNode(view, p) ==> view[p].paramName != SPLAT
  }

  lemma {:induction false} SplatIsLeftByWildcards(view: View, pos: Position, segments: seq<string>)
    requires NoParameterIsSplat(view)
    ensures Touched(view, pos, segments, SPLAT) != Erased
    ensures Touched(view, pos, segments, SPLAT).Left? <==> ReachesWildcard(view, pos, segments)
    decreases |segments|
  {
    if segments != [] {
      var s, p := Step(pos, Static(segments[0])), Step(pos, Parameter);
      assert p in view ==> IsParamNode(view, p);
      SplatIsLeftByWildcards(view, s, segments[1..]);
      SplatIsLeftByWildcards(view, p, segments[1..]);
    }
  }

  // ---------------------------------------------------------------- one name, along the matched path

  /** The node that the first `i + 1` keys lead to. */
  function PathNode(pos: Position, keys: seq<Key>, i: nat): Position
    requires i < |keys|
  {
    Down(pos, keys[..i + 1])
  }

  /** Step `j` of the path binds the name. */
  predicate BindsAt(view: View, pos: Position, keys: seq<Key>, j: nat, name: string) {
    j < |keys| && IsParamNode(view, PathNode(pos, keys, j)) && view[PathNode(pos, keys, j)].paramName == name
  }

  /** The static child that step `j` gave up before it took the parameter child. */
  function Sibling(pos: Position, segments: seq<string>, keys: seq<Key>, j: nat): Position
    requires j < |keys| <= |segments|
  {
    Step(Down(pos, keys[..j]), Static(segments[j]))
  }

  predicate GivesUp(view: View, pos: Position, segments: seq<string>, keys: seq<Key>, j: nat)
    requires |keys| <= |segments|
  {
    j < |keys| && keys[j] == Parameter && Sibling(pos, segments, keys, j) in view
  }

  /** What step `j` does to the entry: first the sibling it gives up, if `siblings` are looked at, then its own
      binding. */
  function StepTouch(view: View, pos: Position, segments: seq<string>, keys: seq<Key>, decode: string -> string,
                     siblings: bool, j: nat, name: string): Touch
    requires j < |keys| <= |segments|
  {
    if BindsAt(view, pos, keys, j, name) then Left(decode(segments[j]))
    else if siblings && GivesUp(view, pos, segments, keys, j)
    then Touched(view, Sibling(pos, segments, keys, j), segments[j + 1..], name)
    else Untouched
  }

  /** The last touch of the first `n` steps. */
  function LastTouch(view: View, pos: Position, segments: seq<string>, keys: seq<Key>, decode: string -> string,
                     siblings: bool, n: nat, name: string): Touch
    requires n <= |keys| <= |segments|
  {
    if n == 0 then Untouched else
      var last := StepTouch(view, pos, segments, keys, decode, siblings, n - 1, name);
      if last != Untouched then last else LastTouch(view, pos, segments, keys, decode, siblings, n - 1, name)
  }

  lemma {:induction false} LastTouchIs(view: View, pos: Position, segments: seq<string>, keys: seq<Key>,
                                       decode: string -> string,
                                       siblings: bool, n: nat, name: string) returns (j: nat)
    requires n <= |keys| <= |segments|
    ensures var last := LastTouch(view, pos, segments, keys, decode, siblings, n, name);
            j <= n && (j == n <==> last == Untouched) &&
            (j < n ==> StepTouch(view, pos, segments, keys, decode, siblings, j, name) == last)
    ensures forall l: nat :: l < n && (j == n || j < l) ==>
              StepTouch(view, pos, segments, keys, decode, siblings, l, name) == Untouched
  {
    if n == 0 {
      j := 0;
    } else if StepTouch(view, pos, segments, keys, decode, siblings, n - 1, name) != Untouched {
      j := n - 1;
    } else {
      j := LastTouchIs(view, pos, segments, keys, decode, siblings, n - 1, name);
      if j == n - 1 { j := n; }
    }
  }

  /** Step `j + 1` of a path is step `j` of the path below its first key. */
  lemma StepTouchShifts(view: View, pos: Position, segments: seq<string>, keys: seq<Key>, decode: string -> string,
                        siblings: bool, j: nat, name: string)
    requires j + 1 < |keys| <= |segments|
    ensures StepTouch(view, pos, segments, keys, decode, siblings, j + 1, name)
         == StepTouch(view, Step(pos, keys[0]), segments[1..], keys[1..], decode, siblings, j, name)
  {
    assert keys[..j + 2][1..] == keys[1..][..j + 1] && keys[..j + 1][1..] == keys[1..][..j];
    assert segments[1..][j + 1..] == segments[j + 2..];
  }

  lemma {:induction false} LastTouchShifts(view: View, pos: Position, segments: seq<string>, keys: seq<Key>,
                                           decode: string -> string,
                                           siblings: bool, n: nat, name: string)
    requires n + 1 <= |keys| <= |segments|
    ensures LastTouch(view, pos, segments, keys, decode, siblings, n + 1, name)
         == var later := LastTouch(view, Step(pos, keys[0]), segments[1..], keys[1..], decode, siblings, n, name);
            if later != Untouched then later else StepTouch(view, pos, segments, keys, decode, siblings, 0, name)
  {
    if n > 0 {
      LastTouchShifts(view, pos, segments, keys, decode, siblings, n - 1, name);
      StepTouchShifts(view, pos, segments, keys, decode, siblings, n - 1, name);
    }
  }

  lemma FirstTouch(view: View, pos: Position, segments: seq<string>, keys: seq<Key>, decode: string -> string,
                   siblings: bool, name: string)
    requires 1 <= |keys| <= |segments|
    ensures var child, s := Step(pos, keys[0]), Step(pos, Static(segments[0]));
            StepTouch(view, pos, segments, keys, decode, siblings, 0, name) ==
              if IsParamNode(view, child) && view[child].paramName == name then Left(decode(segments[0]))
              else if siblings && keys[0] == Parameter && s in view then Touched(view, s, segments[1..], name)
              else Untouched
  {
    assert Down(pos, keys[..1]) == Step(pos, keys[0]) by { assert keys[..1][1..] == []; }
    assert Down(pos, keys[..0]) == pos by { assert keys[..0] == []; }
  }

  /** The map that the search goes on with below the first key of its path. */
  function AfterFirst(view: View, pos: Position, segments: seq<string>, key: Key, params: Params,
                      decode: string -> string): Params
    requires segments != [] && (key == Parameter ==> Step(pos, Parameter) in view)
  {
    if key == Parameter
    then AfterStatic(view, Step(pos, Static(segments[0])), segments[1..], params, decode)
           [view[Step(pos, Parameter)].paramName := decode(segments[0])]
    else params
  }

  lemma SearchGoesOn(view: View, pos: Position, segments: seq<string>, params: Params, decode: string -> string)
    requires WildcardsStoreNothing(view) && Found(view, pos, segments).Some? && segments != []
    ensures var keys := Found(view, pos, segments).value;
            keys != [] && (keys[0] == Parameter ==> Step(pos, Parameter) in view) &&
            Found(view, Step(pos, keys[0]), segments[1..]) == Some(keys[1..]) &&
            ParamsAfter(view, pos, segments, params, decode) ==
              ParamsAfter(view, Step(pos, keys[0]), segments[1..],
                          AfterFirst(view, pos, segments, keys[0], params, decode), decode)
  {
  }

  lemma AfterFirstTouches(view: View, pos: Position, segments: seq<string>, params: Params, decode: string -> string,
                          name: string)
    requires WildcardsStoreNothing(view) && Found(view, pos, segments).Some? && segments != []
    requires var keys := Found(view, pos, segments).value;
             1 <= |keys| <= |segments| && (keys[0] == Parameter ==> Step(pos, Parameter) in view)
    ensures var keys := Found(view, pos, segments).value;
            Lookup(AfterFirst(view, pos, segments, keys[0], params, decode), name)
            == Applied(StepTouch(view, pos, segments, keys, decode, true, 0, name), Lookup(params, name))
  {
    var keys, s := Found(view, pos, segments).value, Step(pos, Static(segments[0]));
    FirstTouch(view, pos, segments, keys, decode, true, name);
    if keys[0] == Parameter && s in view {
      FailedSearchTouches(view, s, segments[1..], params, decode, name);
    }
  }

  /** On every trie: after a successful search the entry of a name is what the last step of the matched path
      that touched it left there, by its own binding or through the branch it gave up. */
  lemma {:induction false} LastTouchDecides(view: View, pos: Position, segments: seq<string>, params: Params,
                                            decode: string -> string, name: string)
    requires WildcardsStoreNothing(view) && Found(view, pos, segments).Some?
    ensures var keys := Found(view, pos, segments).value;
            Lookup(ParamsAfter(view, pos, segments, params, decode), name)
            == Applied(LastTouch(view, pos, segments, keys, decode, true, |keys|, name), Lookup(params, name))
    decreases |segments|
  {
    if segments != [] {
      var keys := Found(view, pos, segments).value;
      SearchGoesOn(view, pos, segments, params, decode);
      var next := AfterFirst(view, pos, segments, keys[0], params, decode);
      AfterFirstTouches(view, pos, segments, params, decode, name);
      LastTouchShifts(view, pos, segments, keys, decode, true, |keys| - 1, name);
      LastTouchDecides(view, Step(pos, keys[0]), segments[1..], next, decode, name);
    }
  }

  /** The bindings of the parameter nodes along `keys`, added to `params`. */
  function Bind(view: View, pos: Position, segments: seq<string>, keys: seq<Key>, params: Params,
                decode: string -> string): Params
    requires |keys| <= |segments|
    decreases |keys|
  {
    if keys == [] then params else
      var child := Step(pos, keys[0]);
      Bind(view, child, segments[1..], keys[1..],
           if IsParamNode(view, child) then params[view[child].paramName := decode(segments[0])] else params, decode)
  }

  lemma {:induction false} BindLooksUp(view: View, pos: Position, segments: seq<string>, keys: seq<Key>, params: Params,
                                       decode: string -> string, name: string)
    requires |keys| <= |segments|
    ensures Lookup(Bind(view, pos, segments, keys, params, decode), name)
         == Applied(LastTouch(view, pos, segments, keys, decode, false, |keys|, name), Lookup(params, name))
    decreases |keys|
  {
    if keys != [] {
      var child := Step(pos, keys[0]);
      LastTouchShifts(view, pos, segments, keys, decode, false, |keys| - 1, name);
      FirstTouch(view, pos, segments, keys, decode, false, name);
      BindLooksUp(view, child, segments[1..], keys[1..],
                  if IsParamNode(view, child) then params[view[child].paramName := decode(segments[0])]
                    else params, decode, name);
    }
  }

  // ---------------------------------------------------------------- when nothing is lost

  /** Step `j` gives up a branch in which a parameter node of this name was visited. */
  predicate Erases(view: View, pos: Position, segments: seq<string>, keys: seq<Key>, j: nat, name: string)
    requires |keys| <= |segments|
  {
    GivesUp(view, pos, segments, keys, j) &&
    name in VisitedNames(view, Sibling(pos, segments, keys, j), segments[j + 1..])
  }

  /** The name is bound, erased at a later step, and not bound again at that step or after it. */
  ghost predicate Lost(view: View, pos: Position, segments: seq<string>, keys: seq<Key>, params: Params, name: string)
    requires |keys| <= |segments|
  {
    exists l: nat :: Erases(view, pos, segments, keys, l, name) &&
      (name in params || exists i: nat :: i < l && BindsAt(view, pos, keys, i, name)) &&
      forall m: nat :: l <= m ==> !BindsAt(view, pos, keys, m, name)
  }

  /** A name has the entry that the matched path binds exactly when it is not lost. */
  lemma KeptUnlessLost(view: View, pos: Position, segments: seq<string>, params: Params, decode: string -> string,
                       name: string)
    requires WildcardsStoreNothing(view) && Found(view, pos, segments).Some?
    requires NoWildcards(view) || name != SPLAT
    ensures var keys := Found(view, pos, segments).value;
            Lookup(ParamsAfter(view, pos, segments, params, decode), name)
              == Lookup(Bind(view, pos, segments, keys, params, decode), name)
            <==> !Lost(view, pos, segments, keys, params, name)
  {
    var keys := Found(view, pos, segments).value;
    LastTouchDecides(view, pos, segments, params, decode, name);
    BindLooksUp(view, pos, segments, keys, params, decode, name);
    TouchesAgreeUnlessLost(view, pos, segments, keys, params, decode, name);
  }

  lemma StepTouchIs(view: View, pos: Position, segments: seq<string>, keys: seq<Key>, decode: string -> string,
                    l: nat, name: string)
    requires l < |keys| <= |segments| && (NoWildcards(view) || name != SPLAT)
    ensures StepTouch(view, pos, segments, keys, decode, true, l, name) ==
              if BindsAt(view, pos, keys, l, name) then Left(decode(segments[l]))
              else if Erases(view, pos, segments, keys, l, name) then Erased else Untouched
  {
    if GivesUp(view, pos, segments, keys, l) {
      TouchedIsErased(view, Sibling(pos, segments, keys, l), segments[l + 1..], name);
    }
  }

  lemma TouchesAgreeUnlessLost(view: View, pos: Position, segments: seq<string>, keys: seq<Key>, params: Params,
                               decode: string -> string, name: string)
    requires |keys| <= |segments| && (NoWildcards(view) || name != SPLAT)
    ensures Applied(LastTouch(view, pos, segments, keys, decode, true, |keys|, name), Lookup(params, name))
              == Applied(LastTouch(view, pos, segments, keys, decode, false, |keys|, name), Lookup(params, name))
            <==> !Lost(view, pos, segments, keys, params, name)
  {
    var j := LastTouchIs(view, pos, segments, keys, decode, true, |keys|, name);
    var k := LastTouchIs(view, pos, segments, keys, decode, false, |keys|, name);
    if j < |keys| { StepTouchIs(view, pos, segments, keys, decode, j, name); }
    if j == |keys| || BindsAt(view, pos, keys, j, name) {
      if j < |keys| { assert StepTouch(view, pos, segments, keys, decode, false, j, name) != Untouched; }
      if k < |keys| { assert StepTouch(view, pos, segments, keys, decode, true, k, name) != Untouched; }
      assert j == k;
      NotLost(view, pos, segments, keys, params, decode, j, name);
    } else {
      LostIffBefore(view, pos, segments, keys, params, decode, j, k, name);
    }
  }

  /** No step after the last binding erases the name. */
  lemma NotLost(view: View, pos: Position, segments: seq<string>, keys: seq<Key>, params: Params,
                decode: string -> string,
                j: nat, name: string)
    requires j <= |keys| <= |segments| && (NoWildcards(view) || name != SPLAT)
    requires j < |keys| ==> BindsAt(view, pos, keys, j, name)
    requires forall l: nat :: l < |keys| && (j == |keys| || j < l) ==>
               StepTouch(view, pos, segments, keys, decode, true, l, name) == Untouched
    ensures !Lost(view, pos, segments, keys, params, name)
  {
    forall l: nat | l < |keys| && (j == |keys| || j < l) ensures !Erases(view, pos, segments, keys, l, name) {
      StepTouchIs(view, pos, segments, keys, decode, l, name);
    }
  }

  /** The last touch, at step `j`, erases the name: it is lost exactly when there was something to erase. */
  lemma LostIffBefore(view: View, pos: Position, segments: seq<string>, keys: seq<Key>, params: Params,
                      decode: string -> string,
                      j: nat, k: nat, name: string)
    requires j < |keys| <= |segments| && (NoWildcards(view) || name != SPLAT)
    requires Erases(view, pos, segments, keys, j, name) && !BindsAt(view, pos, keys, j, name)
    requires forall l: nat :: j < l < |keys| ==>
             StepTouch(view, pos, segments, keys, decode, true, l, name) == Untouched
    requires k <= |keys| && (k < |keys| ==> BindsAt(view, pos, keys, k, name))
    requires k == |keys| ==> forall l: nat :: l < |keys| ==>
               StepTouch(view, pos, segments, keys, decode, false, l, name) == Untouched
    ensures Lost(view, pos, segments, keys, params, name) <==> name in params || k < |keys|
  {
    forall m: nat | j <= m ensures !BindsAt(view, pos, keys, m, name) {
      if j < m < |keys| { StepTouchIs(view, pos, segments, keys, decode, m, name); }
    }
    if k == |keys| {
      forall i: nat ensures !BindsAt(view, pos, keys, i, name) {
        if i < |keys| { assert StepTouch(view, pos, segments, keys, decode, false, i, name) == Untouched; }
      }
    }
  }

  ghost predicate NoLoss(view: View, pos: Position, segments: seq<string>, keys: seq<Key>, params: Params)
    requires |keys| <= |segments|
  {
    forall name :: !Lost(view, pos, segments, keys, params, name)
  }

  /** Without wildcards a successful search leaves exactly the bindings of the path it found if and only if no
      name is lost to a branch given up later on that path. */
  lemma SearchBindsIffNoLoss(view: View, pos: Position, segments: seq<string>, params: Params, decode: string -> string)
    requires NoWildcards(view) && Found(view, pos, segments).Some?
    ensures var keys := Found(view, pos, segments).value;
            ParamsAfter(view, pos, segments, params, decode) == Bind(view, pos, segments, keys, params, decode)
            <==> NoLoss(view, pos, segments, keys, params)
  {
    var keys := Found(view, pos, segments).value;
    var after, bound := ParamsAfter(view, pos, segments, params, decode),
      Bind(view, pos, segments, keys, params, decode);
    forall name ensures Lookup(after, name) == Lookup(bound, name) <==> !Lost(view, pos, segments, keys, params, name) {
      KeptUnlessLost(view, pos, segments, params, decode, name);
    }
    if NoLoss(view, pos, segments, keys, params) {
      SameLookups(after, bound);
    }
  }

  /** The last step that touched `splat` gave up a branch, and that left another entry than the path binds. */
  ghost predicate SplatSpoilt(view: View, pos: Position, segments: seq<string>, keys: seq<Key>, params: Params,
                              decode: string -> string)
    requires |keys| <= |segments|
  {
    exists l: nat :: SplatTouchedLast(view, pos, segments, keys, decode, l) &&
      Applied(StepTouch(view, pos, segments, keys, decode, true, l, SPLAT), Lookup(params, SPLAT))
        != Lookup(Bind(view, pos, segments, keys, params, decode), SPLAT)
  }

  ghost predicate SplatTouchedLast(view: View, pos: Position, segments: seq<string>, keys: seq<Key>,
                                   decode: string -> string, l: nat)
    requires |keys| <= |segments|
  {
    GivesUp(view, pos, segments, keys, l) && !BindsAt(view, pos, keys, l, SPLAT) &&
    StepTouch(view, pos, segments, keys, decode, true, l, SPLAT) != Untouched &&
    forall m: nat :: l < m < |keys| ==> StepTouch(view, pos, segments, keys, decode, true, m, SPLAT) == Untouched
  }

  lemma SplatKeptUnlessSpoilt(view: View, pos: Position, segments: seq<string>, params: Params,
                              decode: string -> string)
    requires WildcardsStoreNothing(view) && Found(view, pos, segments).Some?
    ensures var keys := Found(view, pos, segments).value;
            Lookup(ParamsAfter(view, pos, segments, params, decode), SPLAT)
              == Lookup(Bind(view, pos, segments, keys, params, decode), SPLAT)
            <==> !SplatSpoilt(view, pos, segments, keys, params, decode)
  {
    var keys := Found(view, pos, segments).value;
    LastTouchDecides(view, pos, segments, params, decode, SPLAT);
    BindLooksUp(view, pos, segments, keys, params, decode, SPLAT);
    var j := LastTouchIs(view, pos, segments, keys, decode, true, |keys|, SPLAT);
    var k := LastTouchIs(view, pos, segments, keys, decode, false, |keys|, SPLAT);
    if k < |keys| { assert StepTouch(view, pos, segments, keys, decode, true, k, SPLAT) != Untouched; }
    if j < |keys| && !BindsAt(view, pos, keys, j, SPLAT) {
      assert SplatTouchedLast(view, pos, segments, keys, decode, j);
    } else if j < |keys| {
      assert StepTouch(view, pos, segments, keys, decode, false, j, SPLAT) != Untouched;
    }
  }

  /** Nothing that the path binds is lost, and `splat` is not spoilt. */
  ghost predicate Intact(view: View, pos: Position, segments: seq<string>, keys: seq<Key>, params: Params,
                         decode: string -> string)
    requires |keys| <= |segments|
  {
    (forall name :: name != SPLAT ==> !Lost(view, pos, segments, keys, params, name)) &&
    !SplatSpoilt(view, pos, segments, keys, params, decode)
  }

  /** On every trie a successful search leaves exactly the bindings of the path it found if and only if these stay
      intact. */
  lemma SearchBindsIff(view: View, pos: Position, segments: seq<string>, params: Params, decode: string -> string)
    requires WildcardsStoreNothing(view) && Found(view, pos, segments).Some?
    ensures var keys := Found(view, pos, segments).value;
            ParamsAfter(view, pos, segments, params, decode) == Bind(view, pos, segments, keys, params, decode)
            <==> Intact(view, pos, segments, keys, params, decode)
  {
    var keys := Found(view, pos, segments).value;
    var after, bound := ParamsAfter(view, pos, segments, params, decode),
      Bind(view, pos, segments, keys, params, decode);
    SplatKeptUnlessSpoilt(view, pos, segments, params, decode);
    forall name
      ensures name != SPLAT ==>
                (Lookup(after, name) == Lookup(bound, name) <==> !Lost(view, pos, segments, keys, params, name))
    {
      if name != SPLAT { KeptUnlessLost(view, pos, segments, params, decode, name); }
    }
    if Intact(view, pos, segments, keys, params, decode) {
      SameLookups(after, bound);
    }
  }

  /** No step from `from` on erases the name. */
  ghost predicate NotErasedFrom(view: View, pos: Position, segments: seq<string>, keys: seq<Key>,
                                decode: string -> string,
                                from: nat, name: string)
    requires |keys| <= |segments|
  {
    forall l: nat :: from <= l < |keys| ==> StepTouch(view, pos, segments, keys, decode, true, l, name) != Erased
  }

  /** On every trie a name is in the result if and only if it was there before, or a step of the path left it there,
      and no later step erased it. */
  lemma NameIsInResultIff(view: View, pos: Position, segments: seq<string>, params: Params, decode: string -> string,
                          name: string)
    requires WildcardsStoreNothing(view) && Found(view, pos, segments).Some?
    ensures var keys := Found(view, pos, segments).value;
            name in ParamsAfter(view, pos, segments, params, decode) <==>
            (name in params && NotErasedFrom(view, pos, segments, keys, decode, 0, name)) ||
            exists j: nat :: j < |keys| && StepTouch(view, pos, segments, keys, decode, true, j, name).Left? &&
                             NotErasedFrom(view, pos, segments, keys, decode, j + 1, name)
  {
    var keys := Found(view, pos, segments).value;
    LastTouchDecides(view, pos, segments, params, decode, name);
    var j := LastTouchIs(view, pos, segments, keys, decode, true, |keys|, name);
    if j < |keys| && StepTouch(view, pos, segments, keys, decode, true, j, name).Left? {
      assert NotErasedFrom(view, pos, segments, keys, decode, j + 1, name);
    }
  }

  /** When no parameter is called `splat`, that entry is in the result exactly when it was there before or a
      branch given up along the path reached a node with a wildcard child. */
  lemma SplatIsInResultIff(view: View, pos: Position, segments: seq<string>, params: Params, decode: string -> string)
    requires WildcardsStoreNothing(view) && NoParameterIsSplat(view) && Found(view, pos, segments).Some?
    ensures var keys := Found(view, pos, segments).value;
            SPLAT in ParamsAfter(view, pos, segments, params, decode) <==>
            SPLAT in params ||
            exists j: nat :: GivesUp(view, pos, segments, keys, j) &&
                             ReachesWildcard(view, Sibling(pos, segments, keys, j), segments[j + 1..])
  {
    var keys := Found(view, pos, segments).value;
    LastTouchDecides(view, pos, segments, params, decode, SPLAT);
    forall l: nat | l < |keys|
      ensures var touch := StepTouch(view, pos, segments, keys, decode, true, l, SPLAT);
              touch != Erased &&
              (touch.Left? <==> GivesUp(view, pos, segments, keys, l) &&
                                ReachesWildcard(view, Sibling(pos, segments, keys, l), segments[l + 1..]))
    {
      assert !BindsAt(view, pos, keys, l, SPLAT);
      if GivesUp(view, pos, segments, keys, l) {
        SplatIsLeftByWildcards(view, Sibling(pos, segments, keys, l), segments[l + 1..]);
      }
    }
    var j := LastTouchIs(view, pos, segments, keys, decode, true, |keys|, SPLAT);
  }

  // ---------------------------------------------------------------- what find returns

  /** The parameters of an answer: every parameter node on the path is bound to its own decoded segment, and
      nothing else is bound. */
  ghost predicate AnswersPath(view: View, pos: Position, segments: seq<string>, keys: seq<Key>,
                              decode: string -> string, after: Params)
    requires |keys| <= |segments|
  {
    (forall i: nat, name :: BindsAt(view, pos, keys, i, name) ==> Lookup(after, name) == Some(decode(segments[i]))) &&
    (forall name :: name in after ==> exists i: nat :: BindsAt(view, pos, keys, i, name))
  }

  /** Nodes of one name on the path stand for equal segments. */
  ghost predicate RepeatsAgree(view: View, pos: Position, segments: seq<string>, keys: seq<Key>,
                               decode: string -> string)
    requires |keys| <= |segments|
  {
    forall i: nat, j: nat, name ::
      BindsAt(view, pos, keys, i, name) && BindsAt(view, pos, keys, j, name) ==>
        decode(segments[i]) == decode(segments[j])
  }

  /** What the path itself binds: its last node of each name. */
  lemma BindingsOfPath(view: View, pos: Position, segments: seq<string>, keys: seq<Key>, decode: string -> string,
                       name: string)
    returns (j: nat)
    requires |keys| <= |segments|
    ensures var entry := Lookup(Bind(view, pos, segments, keys, map[], decode), name);
            j <= |keys| && (j < |keys| <==> entry.Some?) &&
            (j < |keys| ==> BindsAt(view, pos, keys, j, name) && entry == Some(decode(segments[j])))
    ensures forall l: nat :: BindsAt(view, pos, keys, l, name) ==> j < |keys| && l <= j
  {
    BindLooksUp(view, pos, segments, keys, map[], decode, name);
    j := LastTouchIs(view, pos, segments, keys, decode, false, |keys|, name);
    forall l: nat | BindsAt(view, pos, keys, l, name) ensures j < |keys| && l <= j {
      assert StepTouch(view, pos, segments, keys, decode, false, l, name) != Untouched;
    }
  }

  /** Every parameter key of a found path is a node with a name to bind. */
  lemma {:induction false} FoundNodesExist(view: View, pos: Position, segments: seq<string>, i: nat)
    requires WildcardsStoreNothing(view) && Found(view, pos, segments).Some? && i < |Found(view, pos, segments).value|
    ensures var keys := Found(view, pos, segments).value;
            PathNode(pos, keys, i) in view && (keys[i] == Parameter ==> IsParamNode(view, PathNode(pos, keys, i)))
    decreases |segments|
  {
    var keys := Found(view, pos, segments).value;
    var child := Step(pos, keys[0]);
    assert keys[1..] == Found(view, child, segments[1..]).value;
    if i == 0 {
      assert Down(pos, keys[..1]) == child by { assert keys[..1][1..] == []; }
    } else {
      FoundNodesExist(view, child, segments[1..], i - 1);
      assert keys[..i + 1][1..] == keys[1..][..i];
      DownEnds(pos, keys[..i + 1]);
    }
  }

  /** On every trie `find` answers with the parameters of the matched path if and only if they stay intact and nodes
      that share a name stand for equal segments. */
  lemma FindAnswersPathIff(view: View, httpMethod: string, segments: seq<string>, decode: string -> string)
    requires WildcardsStoreNothing(view) && FindRoute(view, httpMethod, segments).Some?
    ensures var root := Root(httpMethod);
            var keys, after := Found(view, root, segments).value, ParamsAfter(view, root, segments, map[], decode);
            AnswersPath(view, root, segments, keys, decode, after) <==>
            Intact(view, root, segments, keys, map[], decode) && RepeatsAgree(view, root, segments, keys, decode)
    ensures var root := Root(httpMethod);
            var keys := Found(view, root, segments).value;
            forall i: nat :: i < |keys| && keys[i] == Parameter ==> IsParamNode(view, PathNode(root, keys, i))
  {
    var root := Root(httpMethod);
    var keys, after := Found(view, root, segments).value, ParamsAfter(view, root, segments, map[], decode);
    forall i: nat | i < |keys| && keys[i] == Parameter ensures IsParamNode(view, PathNode(root, keys, i)) {
      FoundNodesExist(view, root, segments, i);
    }
    SearchBindsIff(view, root, segments, map[], decode);
    if Intact(view, root, segments, keys, map[], decode) && RepeatsAgree(view, root, segments, keys, decode) {
      PathAnswers(view, root, segments, keys, decode);
    }
    if AnswersPath(view, root, segments, keys, decode, after) {
      AnswersAreBindings(view, root, segments, keys, decode, after);
    }
  }

  lemma PathAnswers(view: View, pos: Position, segments: seq<string>, keys: seq<Key>, decode: string -> string)
    requires |keys| <= |segments| && RepeatsAgree(view, pos, segments, keys, decode)
    ensures AnswersPath(view, pos, segments, keys, decode, Bind(view, pos, segments, keys, map[], decode))
  {
    var bound := Bind(view, pos, segments, keys, map[], decode);
    forall i: nat, name | BindsAt(view, pos, keys, i, name) ensures Lookup(bound, name) == Some(decode(segments[i])) {
      var j := BindingsOfPath(view, pos, segments, keys, decode, name);
    }
    forall name | name in bound ensures exists i: nat :: BindsAt(view, pos, keys, i, name) {
      var j := BindingsOfPath(view, pos, segments, keys, decode, name);
      assert Lookup(bound, name).Some?;
    }
  }

  lemma AnswersAreBindings(view: View, pos: Position, segments: seq<string>, keys: seq<Key>, decode: string -> string,
                           after: Params)
    requires |keys| <= |segments| && AnswersPath(view, pos, segments, keys, decode, after)
    ensures after == Bind(view, pos, segments, keys, map[], decode)
    ensures RepeatsAgree(view, pos, segments, keys, decode)
  {
    var bound := Bind(view, pos, segments, keys, map[], decode);
    forall name ensures Lookup(after, name) == Lookup(bound, name) {
      var j := BindingsOfPath(view, pos, segments, keys, decode, name);
      assert name in after ==> exists i: nat :: BindsAt(view, pos, keys, i, name);
    }
    SameLookups(after, bound);
  }

  // ---------------------------------------------------------------- distinct names

  /** No parameter node below `pos` has a name that is already bound. */
  ghost predicate FreshBelow(view: View, pos: Position, params: Params) {
    forall q :: IsParamNode(view, q) && Above(pos, q) ==> view[q].paramName !in params
  }

  lemma {:induction false} DownSplits(pos: Position, a: seq<Key>, b: seq<Key>)
    ensures Down(pos, a + b) == Down(Down(pos, a), b)
    decreases |a|
  {
    if a == [] {
      assert a + b == b;
    } else {
      assert (a + b)[1..] == a[1..] + b;
      DownSplits(Step(pos, a[0]), a[1..], b);
    }
  }

  lemma {:induction false} AboveDown(pos: Position, keys: seq<Key>, key: Key)
    ensures Above(pos, Step(Down(pos, keys), key))
  {
    if keys != [] {
      var before := keys[..|keys| - 1];
      DownEnds(pos, keys);
      AboveDown(pos, before, keys[|keys| - 1]);
      AboveIsTransitive(pos, Down(pos, keys), Step(Down(pos, keys), key));
    }
  }

  /** A node of the path is above every sibling given up later. */
  lemma PathNodeIsAbove(pos: Position, segments: seq<string>, keys: seq<Key>, i: nat, l: nat)
    requires i < l < |keys| <= |segments|
    ensures Above(PathNode(pos, keys, i), Sibling(pos, segments, keys, l))
  {
    assert keys[..l] == keys[..i + 1] + keys[i + 1..l];
    DownSplits(pos, keys[..i + 1], keys[i + 1..l]);
    AboveDown(PathNode(pos, keys, i), keys[i + 1..l], Static(segments[l]));
  }

  /** Distinct names along the trie's paths are never lost. */
  lemma DistinctNamesAreNotLost(view: View, pos: Position, segments: seq<string>, keys: seq<Key>, params: Params)
    requires |keys| <= |segments| && DistinctNames(view) && FreshBelow(view, pos, params)
    ensures NoLoss(view, pos, segments, keys, params)
  {
    forall l: nat, name | Erases(view, pos, segments, keys, l, name)
      ensures name !in params && forall i: nat :: i < l ==> !BindsAt(view, pos, keys, i, name)
    {
      var sibling := Sibling(pos, segments, keys, l);
      var q := VisitedAreBelow(view, sibling, segments[l + 1..], name);
      AboveDown(pos, keys[..l], Static(segments[l]));
      AboveIsTransitive(pos, sibling, q);
      forall i: nat | i < l ensures !BindsAt(view, pos, keys, i, name) {
        PathNodeIsAbove(pos, segments, keys, i, l);
        AboveIsTransitive(PathNode(pos, keys, i), sibling, q);
      }
    }
  }

  /** So with distinct names and no wildcards, a successful search adds exactly the bindings of the nodes on the
      path it found, whatever branches it gave up before. */
  lemma SuccessfulSearchBinds(view: View, pos: Position, segments: seq<string>, params: Params,
                              decode: string -> string)
    requires NoWildcards(view) && DistinctNames(view) && FreshBelow(view, pos, params)
    requires Found(view, pos, segments).Some?
    ensures ParamsAfter(view, pos, segments, params, decode)
            == Bind(view, pos, segments, Found(view, pos, segments).value, params, decode)
  {
    DistinctNamesAreNotLost(view, pos, segments, Found(view, pos, segments).value, params);
    SearchBindsIffNoLoss(view, pos, segments, params, decode);
  }

  /** And `find` answers with exactly the parameters of the matched path. */
  lemma FindBindsMatchedPath(view: View, httpMethod: string, segments: seq<string>, decode: string -> string)
    requires NoWildcards(view) && DistinctNames(view) && FindRoute(view, httpMethod, segments).Some?
    ensures var root := Root(httpMethod);
            AnswersPath(view, root, segments, Found(view, root, segments).value, decode,
                        ParamsAfter(view, root, segments, map[], decode))
  {
    var root := Root(httpMethod);
    var keys := Found(view, root, segments).value;
    DistinctNamesAreNotLost(view, root, segments, keys, map[]);
    forall i: nat, j: nat, name | BindsAt(view, root, keys, i, name) && BindsAt(view, root, keys, j, name)
      ensures i == j {
      if i < j { PathNodesAreAbove(root, keys, i, j); }
      if j < i { PathNodesAreAbove(root, keys, j, i); }
    }
    SearchBindsIffNoLoss(view, root, segments, map[], decode);
    SearchBindsIff(view, root, segments, map[], decode);
    FindAnswersPathIff(view, httpMethod, segments, decode);
  }

  lemma PathNodesAreAbove(pos: Position, keys: seq<Key>, i: nat, j: nat)
    requires i < j < |keys|
    ensures Above(PathNode(pos, keys, i), PathNode(pos, keys, j))
  {
    assert keys[..j + 1][..j] == keys[..j] && keys[..j] == keys[..i + 1] + keys[i + 1..j];
    DownEnds(pos, keys[..j + 1]);
    DownSplits(pos, keys[..i + 1], keys[i + 1..j]);
    AboveDown(PathNode(pos, keys, i), keys[i + 1..j], keys[j]);
  }
}
