/** Where the parameter map of the route engine goes wrong: concrete tries for the two ways that
    RouteBindings.dfy describes, a name lost to an abandoned branch and a `splat` left behind. */
module RouteExamples {
  import opened RoutePaths
  import opened RouteView
  import opened RouteParams
  import opened Wrappers

  /** Patterns `:x/:y/:z` and `:a/k/:x/end`: the names within each pattern are distinct, but the
      first segment of both shares the node named `x`. */
  function SharedNameTrie(): View {
    var root := Step(Root("GET"), Parameter);
    map[Root("GET") := NodeView(None, ""),
        root := NodeView(None, "x"),
        Step(root, Parameter) := NodeView(None, "y"),
        Step(Step(root, Parameter), Parameter) := NodeView(Some(1), "z"),
        Step(root, Static("k")) := NodeView(None, ""),
        Step(Step(root, Static("k")), Parameter) := NodeView(None, "x"),
        Step(Step(Step(root, Static("k")), Parameter), Static("end")) := NodeView(Some(2), "")]
  }

  lemma BuildsSharedNameTrie()
    ensures Build([Insertion("GET", [":x", ":y", ":z"], 1), Insertion("GET", [":a", "k", ":x", "end"], 2)])
            == SharedNameTrie()
  {
    var i1, i2 := Insertion("GET", [":x", ":y", ":z"], 1), Insertion("GET", [":a", "k", ":x", "end"], 2);
    var v0: View := map[];
    assert Build([]) == v0;
    var p1, p2 := i1.pattern, i2.pattern;
    assert p1[1..] == [":y", ":z"] && p1[1..][1..] == [":z"];
    assert p2[1..] == ["k", ":x", "end"] && p2[1..][1..] == [":x", "end"] && p2[1..][1..][1..] == ["end"];
    assert [i1][..0] == [] && [i1, i2][..1] == [i1];
    var v1 := Build([i1]);
    assert v1 == RouteView.Insert(v0, "GET", p1, 1);
  }

  /** The path `/1/k/3` is answered with the first pattern's route, but its parameter `x` is gone:
      giving up the branch of the second pattern deleted it. */
  lemma BoundParameterIsLost(decode: string -> string)
    ensures var view, path := SharedNameTrie(), ["1", "k", "3"];
            FindRoute(view, "GET", path) == Some(1) &&
            ParamsAfter(view, Root("GET"), path, map[], decode) == map["y" := decode("k"), "z" := decode("3")]
  {
    var view, path := SharedNameTrie(), ["1", "k", "3"];
    var x := Step(Root("GET"), Parameter);
    var k, y := Step(x, Static("k")), Step(x, Parameter);
    var kx, z := Step(k, Parameter), Step(y, Parameter);
    assert path[1..] == ["k", "3"] && path[1..][1..] == ["3"] && path[1..][1..][1..] == [];
    assert ["3"][1..] == [] && ["k", "3"][1..] == ["3"];
    assert [Parameter] + [] == [Parameter] && [Parameter] + [Parameter] == [Parameter, Parameter];
    assert [Parameter] + [Parameter, Parameter] == [Parameter, Parameter, Parameter];
    assert Found(view, kx, []) == None && Found(view, z, []) == Some([]);
    assert Found(view, k, ["3"]) == None;
    assert Found(view, y, ["3"]) == Some([Parameter]);
    assert Found(view, x, ["k", "3"]) == Some([Parameter, Parameter]);
    assert Found(view, Root("GET"), path) == Some([Parameter, Parameter, Parameter]);
    DownStep(Root("GET"), Parameter, [Parameter, Parameter]);
    DownStep(x, Parameter, [Parameter]);
    DownStep(y, Parameter, []);
    var p1 := map["x" := decode("1")];
    assert ParamsAfter(view, k, ["3"], p1, decode) == map[];
    assert ParamsAfter(view, y, ["3"], map["y" := decode("k")], decode) == map["y" := decode("k"), "z" := decode("3")];
    assert ParamsAfter(view, x, ["k", "3"], p1, decode) == map["y" := decode("k"), "z" := decode("3")];
  }

  // Patterns "files", then a wildcard, and ":dir", ":name".
  function WildcardTrie(): View {
    var files, dir := Step(Root("GET"), Static("files")), Step(Root("GET"), Parameter);
    map[Root("GET") := NodeView(None, ""),
        files := NodeView(None, ""),
        Step(files, Wildcard) := NodeView(None, ""),
        dir := NodeView(None, "dir"),
        Step(dir, Parameter) := NodeView(Some(2), "name")]
  }

  lemma BuildsWildcardTrie()
    ensures Build([Insertion("GET", ["files", "*"], 1), Insertion("GET", [":dir", ":name"], 2)]) == WildcardTrie()
  {
    var i1, i2 := Insertion("GET", ["files", "*"], 1), Insertion("GET", [":dir", ":name"], 2);
    var v0: View := map[];
    assert Build([]) == v0;
    assert i1.pattern[1..] == ["*"] && i2.pattern[1..] == [":name"];
    assert [i1][..0] == [] && [i1, i2][..1] == [i1];
    assert Build([i1]) == RouteView.Insert(v0, "GET", i1.pattern, 1);
  }

  /** The path `/files/x` is answered with the second pattern's route, and the wildcard that could
      not answer it leaves its `splat` entry behind. */
  lemma SplatIsLeftBehind(decode: string -> string)
    ensures var view, path := WildcardTrie(), ["files", "x"];
            FindRoute(view, "GET", path) == Some(2) &&
            ParamsAfter(view, Root("GET"), path, map[], decode) ==
              map["splat" := "x", "dir" := decode("files"), "name" := decode("x")]
  {
    var view, path := WildcardTrie(), ["files", "x"];
    var files, dir := Step(Root("GET"), Static("files")), Step(Root("GET"), Parameter);
    assert path[1..] == ["x"] && ["x"][1..] == [];
    assert [Parameter] + [] == [Parameter] && [Parameter] + [Parameter] == [Parameter, Parameter];
    assert Found(view, files, ["x"]) == None;
    assert Found(view, dir, ["x"]) == Some([Parameter]);
    assert Found(view, Root("GET"), path) == Some([Parameter, Parameter]);
    DownStep(Root("GET"), Parameter, [Parameter]);
    DownStep(dir, Parameter, []);
    assert ParamsAfter(view, files, ["x"], map[], decode) == map[SPLAT := "x"];
    var p1 := map["splat" := "x", "dir" := decode("files")];
    assert ParamsAfter(view, dir, ["x"], p1, decode) == p1["name" := decode("x")];
  }
}
