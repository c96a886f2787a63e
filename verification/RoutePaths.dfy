/** Path segments of the route engine: `normalizePath` and `splitPath` of
    enfyra-route-engine.ts, and the classification of pattern segments. */
module RoutePaths {

  /** `path.split('/')`. */
  function Split(s: string): (r: seq<string>)
    ensures r != []
  {
    if s == "" then [""]
    else if s[0] == '/' then [""] + Split(s[1..])
    else
      var r := Split(s[1..]);
      [[s[0]] + r[0]] + r[1..]
  }

  /** `pieces.join('/')`. */
  function Join(pieces: seq<string>): string {
    if pieces == [] then "" else if |pieces| == 1 then pieces[0] else pieces[0] + "/" + Join(pieces[1..])
  }

  function NonEmpty(ss: seq<string>): seq<string> {
    if ss == [] then [] else (if ss[0] != "" then [ss[0]] else []) + NonEmpty(ss[1..])
  }

  function NormalizePath(path: string): string {
    if path == "" then "/" else
      var normalized := if path[0] == '/' then path else "/" + path;
      if |normalized| > 1 && normalized[|normalized| - 1] == '/' then normalized[..|normalized| - 1]
      else normalized
  }

  function SplitPath(path: string): seq<string> {
    if path == "/" then [] else NonEmpty(Split(path))
  }

  function Segments(path: string): seq<string> { SplitPath(NormalizePath(path)) }

  lemma {:induction false} NonEmptyAdds(a: seq<string>, b: seq<string>)
    ensures NonEmpty(a + b) == NonEmpty(a) + NonEmpty(b)
  {
    if a == [] {
      assert a + b == b;
    } else {
      assert (a + b)[1..] == a[1..] + b;
      NonEmptyAdds(a[1..], b);
    }
  }

  lemma {:induction false} SplitTrailingSlash(s: string)
    ensures Split(s + "/") == Split(s) + [""]
  {
    if s == "" {
      assert Split("/") == [""] + Split("");
    } else {
      assert (s + "/")[1..] == s[1..] + "/";
      SplitTrailingSlash(s[1..]);
    }
  }

  lemma LeadingSlashIsIgnored(s: string)
    ensures NonEmpty(Split("/" + s)) == NonEmpty(Split(s))
  {
    assert ("/" + s)[1..] == s;
    NonEmptyAdds([""], Split(s));
  }

  lemma TrailingSlashIsIgnored(s: string)
    ensures NonEmpty(Split(s + "/")) == NonEmpty(Split(s))
  {
    SplitTrailingSlash(s);
    NonEmptyAdds(Split(s), [""]);
  }

  /** Normalising a path does not change its segments: they are the non-empty pieces between
      slashes, so leading, trailing and doubled slashes do not matter. */
  lemma SegmentsAreNonEmptyPieces(path: string)
    ensures Segments(path) == NonEmpty(Split(path))
  {
    if path == "" {
      RootHasNoSegments();
    } else {
      var rooted := if path[0] == '/' then path else "/" + path;
      LeadingSlashIsIgnored(path);
      if |rooted| > 1 && rooted[|rooted| - 1] == '/' {
        var cut := rooted[..|rooted| - 1];
        assert rooted == cut + "/";
        TrailingSlashIsIgnored(cut);
        SplitPathSplits(cut);
      } else {
        SplitPathSplits(rooted);
      }
    }
  }

  lemma RootHasNoSegments()
    ensures NonEmpty(Split("/")) == [] && NonEmpty(Split("")) == []
  {
    LeadingSlashIsIgnored("");
    assert "/" + "" == "/";
  }

  lemma SplitPathSplits(path: string)
    ensures SplitPath(path) == NonEmpty(Split(path))
  {
    RootHasNoSegments();
  }

  // ---------------------------------------------------------------- what splitting means

  ghost predicate NoSlashInside(pieces: seq<string>) {
    forall i :: 0 <= i < |pieces| ==> '/' !in pieces[i]
  }

  lemma JoinFirst(pieces: seq<string>)
    requires pieces != []
    ensures Join(pieces) == if |pieces| == 1 then pieces[0] else pieces[0] + ("/" + Join(pieces[1..]))
  {
  }

  /** A text ahead of the first piece joins it. */
  lemma JoinAfter(c: char, pieces: seq<string>)
    requires pieces != []
    ensures Join([[c] + pieces[0]] + pieces[1..]) == [c] + Join(pieces)
  {
    var longer := [[c] + pieces[0]] + pieces[1..];
    assert longer[1..] == pieces[1..];
  }

  lemma {:induction false} SplitJoins(s: string)
    ensures Join(Split(s)) == s && NoSlashInside(Split(s))
  {
    if s == "" {
    } else if s[0] == '/' {
      SplitJoins(s[1..]);
      assert Split(s)[1..] == Split(s[1..]);
      assert s == "" + "/" + s[1..];
    } else {
      SplitJoins(s[1..]);
      JoinAfter(s[0], Split(s[1..]));
      assert s == [s[0]] + s[1..];
    }
  }

  lemma {:induction false} SplitBeforeSlash(first: string, rest: string)
    requires '/' !in first
    ensures Split(first) == [first]
    ensures Split(first + "/" + rest) == [first] + Split(rest)
  {
    var s := first + "/" + rest;
    if first == "" {
      assert s == "/" + rest && s[1..] == rest;
    } else {
      assert s[1..] == first[1..] + "/" + rest;
      SplitBeforeSlash(first[1..], rest);
      assert first == [first[0]] + first[1..];
    }
  }

  lemma {:induction false} JoinSplits(pieces: seq<string>)
    requires pieces != [] && NoSlashInside(pieces)
    ensures Split(Join(pieces)) == pieces
  {
    if |pieces| == 1 {
      SplitBeforeSlash(pieces[0], "");
      assert pieces == [pieces[0]];
    } else {
      JoinSplits(pieces[1..]);
      SplitBeforeSlash(pieces[0], Join(pieces[1..]));
      assert pieces == [pieces[0]] + pieces[1..];
    }
  }

  /** The pieces of a text are the only ones without a slash that give it back when joined by
      slashes. */
  lemma SplitIff(s: string, pieces: seq<string>)
    requires pieces != []
    ensures pieces == Split(s) <==> Join(pieces) == s && NoSlashInside(pieces)
  {
    SplitJoins(s);
    if Join(pieces) == s && NoSlashInside(pieces) { JoinSplits(pieces); }
  }

  lemma {:induction false} SplitAtSlash(a: string, b: string)
    ensures Split(a + "/" + b) == Split(a) + Split(b)
  {
    var s := a + "/" + b;
    if a == "" {
      assert s == "/" + b && s[1..] == b;
    } else {
      assert s[1..] == a[1..] + "/" + b;
      SplitAtSlash(a[1..], b);
      if a[0] == '/' {
        assert [""] + (Split(a[1..]) + Split(b)) == ([""] + Split(a[1..])) + Split(b);
      }
    }
  }

  lemma {:induction false} NonEmptyKeeps(pieces: seq<string>)
    requires forall i :: 0 <= i < |pieces| ==> pieces[i] != ""
    ensures NonEmpty(pieces) == pieces
  {
    if pieces != [] {
      NonEmptyKeeps(pieces[1..]);
      assert pieces == [pieces[0]] + pieces[1..];
    }
  }

  /** The segments of a path cut at one of its slashes are those of the parts; so slashes at
      either end, and all but one of several in a row, do not matter. */
  lemma SegmentsAtSlash(a: string, b: string)
    ensures Segments(a + "/" + b) == Segments(a) + Segments(b)
    ensures Segments("") == []
  {
    SegmentsAreNonEmptyPieces(a);
    SegmentsAreNonEmptyPieces(b);
    SegmentsAreNonEmptyPieces(a + "/" + b);
    SegmentsAreNonEmptyPieces("");
    SplitAtSlash(a, b);
    NonEmptyAdds(Split(a), Split(b));
    RootHasNoSegments();
  }

  /** A path without a slash is its one segment, whatever else is in it. */
  lemma OneSegment(s: string)
    requires s != "" && '/' !in s
    ensures Segments(s) == [s]
  {
    SegmentsAreNonEmptyPieces(s);
    SplitBeforeSlash(s, "");
    NonEmptyKeeps([s]);
  }

  ghost predicate AreSegments(segments: seq<string>) {
    forall i :: 0 <= i < |segments| ==> segments[i] != "" && '/' !in segments[i]
  }

  /** Segments joined by slashes are read back, and there are no others. */
  lemma SegmentsReadBack(path: string, segments: seq<string>)
    ensures AreSegments(segments) ==> Segments(Join(segments)) == segments && Segments("/" + Join(segments)) == segments
    ensures AreSegments(Segments(path))
  {
    if AreSegments(segments) {
      JoinedSegments(segments);
      assert "" + "/" + Join(segments) == "/" + Join(segments);
      SegmentsAtSlash("", Join(segments));
    }
    SegmentsAreNonEmptyPieces(path);
    SplitJoins(path);
    NonEmptyAreSegments(Split(path));
  }

  lemma {:induction false} JoinedSegments(segments: seq<string>)
    requires AreSegments(segments)
    ensures Segments(Join(segments)) == segments
  {
    if segments == [] {
      SegmentsAtSlash("", "");
    } else {
      OneSegment(segments[0]);
      if |segments| > 1 {
        JoinedSegments(segments[1..]);
        SegmentsAtSlash(segments[0], Join(segments[1..]));
      }
    }
  }

  lemma {:induction false} NonEmptyAreSegments(pieces: seq<string>)
    requires NoSlashInside(pieces)
    ensures AreSegments(NonEmpty(pieces))
  {
    if pieces != [] { NonEmptyAreSegments(pieces[1..]); }
  }

  // ---------------------------------------------------------------- pattern segments

  predicate IsWildcard(segment: string) { segment != "" && segment[0] == '*' }

  predicate IsParameter(segment: string) { segment != "" && segment[0] == ':' }

  datatype Key = Static(segment: string) | Parameter | Wildcard

  function KeyOf(segment: string): Key {
    if IsWildcard(segment) then Wildcard
    else if IsParameter(segment) then Parameter
    else Static(segment)
  }

  function KeysOf(pattern: seq<string>): (keys: seq<Key>)
    ensures |keys| == |pattern|
    ensures forall i :: 0 <= i < |pattern| ==> keys[i] == KeyOf(pattern[i])
  {
    if pattern == [] then [] else [KeyOf(pattern[0])] + KeysOf(pattern[1..])
  }

  /** A pattern whose insertion stores a handler. */
  predicate Storable(pattern: seq<string>)
  {
    pattern != [] && forall i :: 0 <= i < |pattern| ==> !IsWildcard(pattern[i])
  }

  /** Pattern segment `p` covers path segment `s`. */
  predicate Covers(key: Key, s: string) { key == Parameter || key == Static(s) }

  predicate KeysCover(keys: seq<Key>, segments: seq<string>)
  {
    |keys| == |segments| && forall i :: 0 <= i < |keys| ==> Covers(keys[i], segments[i])
  }

  /** The path matches the pattern segment by segment. */
  predicate Matches(pattern: seq<string>, segments: seq<string>)
  {
    Storable(pattern) && |pattern| == |segments| &&
    forall i :: 0 <= i < |pattern| ==> IsParameter(pattern[i]) || pattern[i] == segments[i]
  }

  /** Same shape, or static against parameter where the shapes first differ. */
  predicate Prefers(a: seq<Key>, b: seq<Key>)
    requires |a| == |b|
  {
    a == [] || (a[0] == b[0] && Prefers(a[1..], b[1..])) || (a[0].Static? && b[0] == Parameter)
  }
}
