/** What the parser of SqlCondition accepts: a text is parsed as a condition if and only if the condition is well-formed
    and the text is scanned as its tokens; and these never have an empty pair of parentheses. */
module SqlParsed {
  import opened SqlText
  import opened SqlCondition
  import opened Wrappers
  import opened Seqs

  // ---------------------------------------------------------------- no empty parentheses

  predicate HasEmptyParens(ts: seq<Token>) {
    exists i :: 0 <= i < |ts| - 1 && ts[i] == LeftParen && ts[i + 1] == RightParen
  }

  lemma EmptyParensInside(a: seq<Token>, ts: seq<Token>, b: seq<Token>)
    ensures HasEmptyParens(ts) ==> HasEmptyParens(a + ts + b)
  {
    if HasEmptyParens(ts) {
      var i :| 0 <= i < |ts| - 1 && ts[i] == LeftParen && ts[i + 1] == RightParen;
      var all := a + ts + b;
      assert all[|a| + i] == ts[i] && all[|a| + i + 1] == ts[i + 1];
    }
  }

  /** A run of tokens that has no `( )` and gives none with a neighbour. */
  predicate Solid(ts: seq<Token>) {
    ts != [] && ts[0] != RightParen && ts[|ts| - 1] != LeftParen && !HasEmptyParens(ts)
  }

  lemma SolidJoin(a: seq<Token>, b: seq<Token>)
    requires Solid(a) && Solid(b)
    ensures Solid(a + b)
  {
    var all := a + b;
    forall i | 0 <= i < |all| - 1 ensures !(all[i] == LeftParen && all[i + 1] == RightParen) {
      if i >= |a| { assert all[i] == b[i - |a|] && all[i + 1] == b[i - |a| + 1]; }
    }
  }

  lemma SolidParens(a: seq<Token>)
    requires Solid(a)
    ensures Solid([LeftParen] + a + [RightParen])
  {
    var all := [LeftParen] + a + [RightParen];
    forall i | 0 <= i < |all| - 1 ensures !(all[i] == LeftParen && all[i + 1] == RightParen) {
      if 1 <= i <= |a| { assert all[i] == a[i - 1]; }
      if i + 1 <= |a| { assert all[i + 1] == a[i]; }
    }
  }

  // ---------------------------------------------------------------- what was parsed was printed

  /** The parser consumed these tokens, which are a solid run. */
  ghost predicate Consumes(ts: seq<Token>, printed: seq<Token>, rest: seq<Token>) {
    Solid(printed) && ts == printed + rest
  }

  /** A run, one token that is no parenthesis, and another run. */
  lemma Chained(ts: seq<Token>, a: seq<Token>, rest: seq<Token>, b: seq<Token>, last: seq<Token>)
    requires Consumes(ts, a, rest) && rest != [] && rest[0] != LeftParen && rest[0] != RightParen
    requires Consumes(rest[1..], b, last)
    ensures Consumes(ts, a + [rest[0]] + b, last)
  {
    SolidJoin(a, [rest[0]]);
    SolidJoin(a + [rest[0]], b);
    assert rest == [rest[0]] + rest[1..];
  }

  lemma Prefixed(ts: seq<Token>, t: Token, printed: seq<Token>, rest: seq<Token>)
    requires StartsWith(ts, t) && t != LeftParen && t != RightParen && Consumes(ts[1..], printed, rest)
    ensures Consumes(ts, [t] + printed, rest)
  {
    SolidJoin([t], printed);
    assert ts == [t] + ts[1..];
  }

  lemma Enclosed(ts: seq<Token>, a: seq<Token>, rest: seq<Token>)
    requires StartsWith(ts, LeftParen) && Consumes(ts[1..], a, rest) && StartsWith(rest, RightParen)
    ensures Consumes(ts, [LeftParen] + a + [RightParen], rest[1..])
  {
    SolidParens(a);
    assert ts == [LeftParen] + ts[1..] && rest == [RightParen] + rest[1..];
  }

  lemma OperandParsed(ts: seq<Token>)
    requires ParseOperand(ts).Success?
    ensures Consumes(ts, OperandTokens(ParseOperand(ts).value), ParseOperand(ts).rest)
  {
  }

  lemma {:induction false} ListParsed(ts: seq<Token>)
    requires ParseList(ts).Success?
    ensures var r := ParseList(ts); r.value != [] && Consumes(ts, ListTokens(r.value), r.rest)
    decreases |ts|
  {
    OperandParsed(ts);
    var o := ParseOperand(ts);
    if StartsWith(o.rest, Comma) {
      ListParsed(o.rest[1..]);
      var later := ParseList(o.rest[1..]);
      Chained(ts, OperandTokens(o.value), o.rest, ListTokens(later.value), later.rest);
      assert ([o.value] + later.value)[1..] == later.value;
    }
  }

  lemma InParsed(column: Column, negated: bool, ts: seq<Token>)
    requires ParseIn(column, negated, ts).Success?
    ensures var r := ParseIn(column, negated, ts);
            r.value.InList? && r.value == InList(column, negated, r.value.operands) && r.value.operands != [] &&
            Consumes(ts, [LeftParen] + ListTokens(r.value.operands) + [RightParen], r.rest)
  {
    ListParsed(ts[1..]);
    var list := ParseList(ts[1..]);
    Enclosed(ts, ListTokens(list.value), list.rest);
  }

  /** The parts of a predicate after its column. */
  ghost predicate IsTest(column: Column, head: Token, ts: seq<Token>, p: Pred, rest: seq<Token>) {
    p.column == column && TestHead(p) == head && Consumes(ts, TestTail(p), rest) && (p.InList? ==> p.operands != [])
  }

  lemma TestParsed(column: Column, head: Token, ts: seq<Token>)
    requires ParseTest(column, head, ts).Success?
    ensures var r := ParseTest(column, head, ts); IsTest(column, head, ts, r.value, r.rest)
  {
    if head.Relation? {
      OperandParsed(ts);
    } else if head == Word("IN") {
      InParsed(column, false, ts);
      var os := ParseIn(column, false, ts).value.operands;
      assert [] + [LeftParen] + ListTokens(os) + [RightParen] == [LeftParen] + ListTokens(os) + [RightParen];
    } else if head == Word("NOT") {
      NotInParsed(column, ts);
    } else if head == Word("BETWEEN") {
      BetweenParsed(column, ts);
    } else if StartsWith(ts, Word("NULL")) {
      assert ts == [Word("NULL")] + ts[1..];
    } else {
      assert ts == [Word("NOT"), Word("NULL")] + ts[2..];
    }
  }

  lemma NotInParsed(column: Column, ts: seq<Token>)
    requires StartsWith(ts, Word("IN")) && ParseIn(column, true, ts[1..]).Success?
    ensures var r := ParseIn(column, true, ts[1..]); IsTest(column, Word("NOT"), ts, r.value, r.rest)
  {
    InParsed(column, true, ts[1..]);
    var r := ParseIn(column, true, ts[1..]);
    var list := ListTokens(r.value.operands);
    Prefixed(ts, Word("IN"), [LeftParen] + list + [RightParen], r.rest);
    assert [Word("IN")] + ([LeftParen] + list + [RightParen]) == [Word("IN")] + [LeftParen] + list + [RightParen];
  }

  lemma BetweenParsed(column: Column, ts: seq<Token>)
    requires ParseTest(column, Word("BETWEEN"), ts).Success?
    ensures var r := ParseTest(column, Word("BETWEEN"), ts); IsTest(column, Word("BETWEEN"), ts, r.value, r.rest)
  {
    OperandParsed(ts);
    var low := ParseOperand(ts);
    OperandParsed(low.rest[1..]);
    var high := ParseOperand(low.rest[1..]);
    Chained(ts, OperandTokens(low.value), low.rest, OperandTokens(high.value), high.rest);
  }

  lemma PredParsed(ts: seq<Token>)
    requires ParsePred(ts).Success?
    ensures var r := ParsePred(ts);
            Consumes(ts, PredTokens(r.value), r.rest) && (r.value.InList? ==> r.value.operands != [])
  {
    var column := Column(ts[0].name, ts[2].name);
    TestParsed(column, ts[3], ts[4..]);
    var r := ParseTest(column, ts[3], ts[4..]);
    var start := [Identifier(column.table), Period, Identifier(column.name), ts[3]];
    assert ts[..4] == start && ts == ts[..4] + ts[4..];
    SolidTest(start, TestTail(r.value));
    Associative(start, TestTail(r.value), r.rest);
  }

  lemma SolidTest(start: seq<Token>, tail: seq<Token>)
    requires |start| == 4 && start[0].Identifier? && start[1] == Period && start[2].Identifier? && Solid(tail)
    requires start[3].Relation? || start[3].Word?
    ensures Solid(start + tail)
  {
    assert Solid(start);
    SolidJoin(start, tail);
  }

  lemma {:induction false} CharsParsed(ts: seq<Token>)
    requires ParseChars(ts).Success?
    ensures var r := ParseChars(ts); WellFormedChars(r.value) && Consumes(ts, CharsTokens(r.value), r.rest)
    decreases |ts|
  {
    if ts[0].Word? {
      assert ts[1..][1..] == ts[2..];
      CharsParsed(ts[2..]);
      var arg := ParseChars(ts[2..]);
      Enclosed(ts[1..], CharsTokens(arg.value), arg.rest);
      Prefixed(ts, ts[0], [LeftParen] + CharsTokens(arg.value) + [RightParen], arg.rest[1..]);
      CallTokens(ts[0], CharsTokens(arg.value));
    } else if ts[0].Identifier? {
      assert ts == [ts[0], ts[1], ts[2]] + ts[3..];
    } else {
      assert ts == [ts[0]] + ts[1..];
    }
  }

  lemma CallTokens(fn: Token, arg: seq<Token>)
    ensures [fn] + ([LeftParen] + arg + [RightParen]) == [fn, LeftParen] + arg + [RightParen]
  {
  }

  lemma {:induction false} PatternParsed(ts: seq<Token>)
    requires ParsePattern(ts).Success?
    ensures var r := ParsePattern(ts);
            r.value != [] && (forall p :: p in r.value ==> WellFormedChars(p)) &&
              Consumes(ts, PatternTokens(r.value), r.rest)
    decreases |ts|
  {
    CharsParsed(ts);
    var c := ParseChars(ts);
    if StartsWith(c.rest, Concat) {
      PatternParsed(c.rest[1..]);
      var later := ParsePattern(c.rest[1..]);
      Chained(ts, CharsTokens(c.value), c.rest, PatternTokens(later.value), later.rest);
      assert ([c.value] + later.value)[1..] == later.value;
    }
  }

  lemma LikeParsed(ts: seq<Token>)
    requires ParseLike(ts).Success? && ts[0].Word?
    ensures var r := ParseLike(ts); WellFormedLike(r.value) && Consumes(ts, LikeTokens(r.value), r.rest)
  {
    CharsParsed(ts);
    var c := ParseChars(ts);
    PatternParsed(c.rest[1..]);
    var pattern := ParsePattern(c.rest[1..]);
    Chained(ts, CharsTokens(c.value), c.rest, PatternTokens(pattern.value), pattern.rest);
  }

  lemma {:induction false} PrimaryParsed(ts: seq<Token>)
    requires ParsePrimary(ts).Success?
    ensures var r := ParsePrimary(ts);
            WellFormedFactor(Factor(false, r.value)) && Consumes(ts, PrimaryTokens(r.value), r.rest)
    decreases |ts|, 0
  {
    if StartsWith(ts, LeftParen) {
      TermsParsed(ts[1..]);
      var inner := ParseTerms(ts[1..]);
      Enclosed(ts, TermsTokens(inner.value), inner.rest);
    } else if ts != [] && ts[0].Word? {
      LikeParsed(ts);
    } else {
      PredParsed(ts);
    }
  }

  lemma {:induction false} FactorParsed(ts: seq<Token>)
    requires ParseFactor(ts).Success?
    ensures var r := ParseFactor(ts); WellFormedFactor(r.value) && Consumes(ts, FactorTokens(r.value), r.rest)
    decreases |ts|, 1
  {
    if StartsWith(ts, Word("NOT")) {
      PrimaryParsed(ts[1..]);
      var p := ParsePrimary(ts[1..]);
      Prefixed(ts, Word("NOT"), PrimaryTokens(p.value), p.rest);
    } else {
      PrimaryParsed(ts);
      var p := ParsePrimary(ts);
      assert [] + PrimaryTokens(p.value) == PrimaryTokens(p.value);
    }
  }

  lemma {:induction false} FactorsParsed(ts: seq<Token>)
    requires ParseFactors(ts).Success?
    ensures var r := ParseFactors(ts); WellFormedFactors(r.value) && Consumes(ts, FactorsTokens(r.value), r.rest)
    decreases |ts|, 2
  {
    FactorParsed(ts);
    var f := ParseFactor(ts);
    if StartsWith(f.rest, Word("AND")) {
      FactorsParsed(f.rest[1..]);
      var later := ParseFactors(f.rest[1..]);
      Chained(ts, FactorTokens(f.value), f.rest, FactorsTokens(later.value), later.rest);
      assert ([f.value] + later.value)[1..] == later.value;
    }
  }

  lemma {:induction false} TermsParsed(ts: seq<Token>)
    requires ParseTerms(ts).Success?
    ensures var r := ParseTerms(ts); WellFormedTerms(r.value) && Consumes(ts, TermsTokens(r.value), r.rest)
    decreases |ts|, 3
  {
    FactorsParsed(ts);
    var fs := ParseFactors(ts);
    if StartsWith(fs.rest, Word("OR")) {
      TermsParsed(fs.rest[1..]);
      var later := ParseTerms(fs.rest[1..]);
      Chained(ts, FactorsTokens(fs.value), fs.rest, TermsTokens(later.value), later.rest);
      assert ([Conjunction(fs.value)] + later.value)[1..] == later.value;
    }
  }

  // ---------------------------------------------------------------- the parser, exactly

  /** A text is parsed as a condition if and only if that is well-formed and its tokens are those of the text. */
  lemma ParseIff(text: string, q: char, c: SearchCondition)
    ensures Parse(text, q) == Some(c) <==> WellFormedTerms(c.terms) && Lex(text, q) == Some(TermsTokens(c.terms))
  {
    if WellFormedTerms(c.terms) && Lex(text, q) == Some(TermsTokens(c.terms)) { ParseReadsBack(text, q, c); }
    if Parse(text, q) == Some(c) {
      TermsParsed(Lex(text, q).value);
      assert TermsTokens(c.terms) + [] == TermsTokens(c.terms);
    }
  }

  /** A text that is a search condition has no empty parentheses. */
  lemma ParsedHasNoEmptyParens(text: string, q: char)
    ensures Parse(text, q).Some? ==> Lex(text, q).Some? && !HasEmptyParens(Lex(text, q).value)
  {
    if Parse(text, q).Some? {
      TermsParsed(Lex(text, q).value);
      var printed := TermsTokens(Parse(text, q).value.terms);
      assert printed + [] == printed;
    }
  }
}
