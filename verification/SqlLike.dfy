/** The LIKE predicate of SQL-92 (ISO/IEC 9075:1992) section 8.5 without an escape character, and when a search
    for a text by such a pattern finds that text and nothing else. */
module SqlLike {

  /** A percent sign stands for any run of characters, an underscore for any one character. */
  predicate Matches(same: (char, char) -> bool, pattern: string, s: string)
    decreases |pattern| + |s|
  {
    if pattern == "" then s == ""
    else if pattern[0] == '%' then Matches(same, pattern[1..], s) || (s != "" && Matches(same, pattern, s[1..]))
    else s != "" && (pattern[0] == '_' || same(pattern[0], s[0])) && Matches(same, pattern[1..], s[1..])
  }

  /** Where a text is looked for. */
  datatype Place = Anywhere | AtStart | AtEnd

  function SearchPattern(place: Place, t: string): string {
    match place
    case Anywhere => "%" + t + "%"
    case AtStart => t + "%"
    case AtEnd => "%" + t
  }

  predicate Alike(same: (char, char) -> bool, t: string, s: string) {
    |t| == |s| && forall i :: 0 <= i < |t| ==> same(t[i], s[i])
  }

  predicate IsAt(same: (char, char) -> bool, t: string, s: string, i: int) {
    0 <= i <= |s| - |t| && Alike(same, t, s[i..i + |t|])
  }

  /** The text is found in `s` at that place. */
  predicate Found(place: Place, same: (char, char) -> bool, t: string, s: string) {
    match place
    case Anywhere => exists i :: 0 <= i <= |s| && IsAt(same, t, s, i)
    case AtStart => IsAt(same, t, s, 0)
    case AtEnd => IsAt(same, t, s, |s| - |t|)
  }

  predicate Plain(t: string) { '%' !in t && '_' !in t }

  lemma {:induction false} PercentMatches(same: (char, char) -> bool, p: string, s: string)
    ensures Matches(same, "%" + p, s) <==> exists i :: 0 <= i <= |s| && Matches(same, p, s[i..])
    decreases |s|
  {
    assert ("%" + p)[1..] == p && s[0..] == s;
    if s != "" {
      PercentMatches(same, p, s[1..]);
      forall i | 0 <= i <= |s[1..]| ensures s[1..][i..] == s[i + 1..] { }
      if exists i :: 0 <= i <= |s[1..]| && Matches(same, p, s[1..][i..]) {
        var i :| 0 <= i <= |s[1..]| && Matches(same, p, s[1..][i..]);
        assert Matches(same, p, s[i + 1..]);
      }
      if exists i :: 0 <= i <= |s| && Matches(same, p, s[i..]) {
        var i :| 0 <= i <= |s| && Matches(same, p, s[i..]);
        if i > 0 { assert s[1..][i - 1..] == s[i..]; }
      }
    }
  }

  lemma {:induction false} PlainMatches(same: (char, char) -> bool, t: string, p: string, s: string)
    requires Plain(t)
    ensures Matches(same, t + p, s) <==> IsAt(same, t, s, 0) && Matches(same, p, s[|t|..])
  {
    if t == "" {
      assert t + p == p && s[0..] == s;
    } else {
      var later := t[1..];
      assert (t + p)[1..] == later + p;
      if s != "" {
        PlainMatches(same, later, p, s[1..]);
        if |t| <= |s| {
          assert s[1..][|later|..] == s[|t|..];
          assert s[..|t|] == [s[0]] + s[1..][..|later|];
          assert t == [t[0]] + later;
        }
      }
    }
  }

  lemma OnlyPercent(same: (char, char) -> bool, s: string)
    ensures Matches(same, "%", s)
  {
    PercentMatches(same, "", s);
    assert "%" + "" == "%";
    assert Matches(same, "", s[|s|..]);
  }

  /** A text without wildcards is found wherever its pattern matches, and nowhere else. */
  lemma PlainIsFound(place: Place, same: (char, char) -> bool, t: string, s: string)
    requires Plain(t)
    ensures Matches(same, SearchPattern(place, t), s) <==> Found(place, same, t, s)
  {
    match place
    case AtStart =>
      PlainMatches(same, t, "%", s);
      if |t| <= |s| { OnlyPercent(same, s[|t|..]); }
    case AtEnd =>
      PercentMatches(same, t, s);
      forall i | 0 <= i <= |s| ensures Matches(same, t, s[i..]) <==> i == |s| - |t| && IsAt(same, t, s, i) {
        PlainMatches(same, t, "", s[i..]);
        assert t + "" == t;
        if i + |t| <= |s| { assert s[i..][..|t|] == s[i..i + |t|]; }
      }
    case Anywhere =>
      PercentMatches(same, t + "%", s);
      assert "%" + t + "%" == "%" + (t + "%");
      forall i | 0 <= i <= |s| ensures Matches(same, t + "%", s[i..]) <==> IsAt(same, t, s, i) {
        PlainMatches(same, t, "%", s[i..]);
        if i + |t| <= |s| {
          OnlyPercent(same, s[i..][|t|..]);
          assert s[i..][..|t|] == s[i..i + |t|];
        }
      }
  }

  // ---------------------------------------------------------------- texts with wildcards

  /** A string that the wildcards of a text match, although it does not hold the text. */
  function Imitation(t: string): string {
    if t == "" then "" else (if t[0] == '%' then "" else if t[0] == '_' then "a" else [t[0]]) + Imitation(t[1..])
  }

  lemma {:induction false} ImitationMatches(same: (char, char) -> bool, t: string, p: string)
    requires (forall c :: same(c, c)) && Matches(same, p, "")
    ensures Matches(same, t + p, Imitation(t))
  {
    if t == "" {
      assert t + p == p;
    } else {
      ImitationMatches(same, t[1..], p);
      assert (t + p)[1..] == t[1..] + p;
      if t[0] == '%' {
        assert Imitation(t) == Imitation(t[1..]);
      } else {
        assert Imitation(t)[1..] == Imitation(t[1..]);
      }
    }
  }

  lemma {:induction false} ImitationDiffers(t: string)
    ensures |Imitation(t)| <= |t|
    ensures |Imitation(t)| == |t| ==> '%' !in t && forall i :: 0 <= i < |t| && t[i] == '_' ==> Imitation(t)[i] == 'a'
  {
    if t != "" {
      ImitationDiffers(t[1..]);
      if |Imitation(t)| == |t| {
        assert t == [t[0]] + t[1..];
        forall i | 0 <= i < |t| && t[i] == '_' ensures Imitation(t)[i] == 'a' {
          if i > 0 { assert t[i] == t[1..][i - 1] && Imitation(t)[i] == Imitation(t[1..])[i - 1]; }
        }
      }
    }
  }

  lemma ImitationIsNotFound(same: (char, char) -> bool, t: string, i: int)
    requires !Plain(t) && !same('_', 'a')
    ensures !IsAt(same, t, Imitation(t), i)
  {
    ImitationDiffers(t);
    var s := Imitation(t);
    if 0 <= i <= |s| - |t| {
      assert s[i..i + |t|] == s;
      var k :| 0 <= k < |t| && t[k] == '_';
      assert !same(t[k], s[k]);
    }
  }

  lemma ImitationIsNoFind(place: Place, same: (char, char) -> bool, t: string)
    requires (forall c :: same(c, c)) && !same('_', 'a') && !Plain(t)
    ensures Matches(same, SearchPattern(place, t), Imitation(t)) && !Found(place, same, t, Imitation(t))
  {
    ImitationMatches(same, t, "");
    OnlyPercent(same, "");
    ImitationMatches(same, t, "%");
    assert t + "" == t;
    assert "%" + t + "%" == "%" + (t + "%") && ("%" + (t + "%"))[1..] == t + "%" && ("%" + t)[1..] == t;
    forall i ensures !IsAt(same, t, Imitation(t), i) { ImitationIsNotFound(same, t, i); }
  }

  /** The search finds exactly what its pattern matches. */
  ghost predicate SearchIsExact(place: Place, same: (char, char) -> bool, t: string) {
    forall s :: Matches(same, SearchPattern(place, t), s) <==> Found(place, same, t, s)
  }

  /** That is so if and only if the text has no wildcard in it. */
  lemma SearchIsExactIff(place: Place, same: (char, char) -> bool, t: string)
    requires (forall c :: same(c, c)) && !same('_', 'a')
    ensures SearchIsExact(place, same, t) <==> Plain(t)
  {
    if Plain(t) {
      forall s ensures Matches(same, SearchPattern(place, t), s) <==> Found(place, same, t, s) {
        PlainIsFound(place, same, t, s);
      }
    } else {
      ImitationIsNoFind(place, same, t);
    }
  }
}
