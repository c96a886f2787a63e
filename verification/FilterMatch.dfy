/** The text operators `_contains`, `_starts_with` and `_ends_with`: the LIKE predicate each is written as, scanned
    back, and the search that it performs. */
module FilterMatch {
  import opened SqlLike
  import opened SqlText
  import opened FilterCompiler
  import opened FilterScan
  import C = SqlCondition

  function PlaceOf(op: Operator): Place
    requires IsSearch(op)
  {
    match op
    case Contains => Anywhere
    case StartsWith => AtStart
    case EndsWith => AtEnd
  }

  function Folding(c: C.Chars): C.Chars { C.Fold("LOWER", C.Fold("UNACCENT", c)) }

  /** The pattern of a search on PostgreSQL: a concatenation around the folded text. */
  function PiecesOf(op: Operator, text: string): seq<C.Chars>
    requires IsSearch(op)
  {
    var percent, t := C.Literal("%"), Folding(C.Literal(text));
    match op
    case Contains => [percent] + ([t] + [percent])
    case StartsWith => [t] + [percent]
    case EndsWith => [percent] + [t]
  }

  /** The LIKE predicate of a search; elsewhere the pattern is one literal. */
  function MatchOf(ctx: Context, field: string, op: Operator, text: string): C.LikePredicate
    requires IsSearch(op)
  {
    var column := C.Ref(C.Column(ctx.table, field));
    if ctx.postgres then C.LikePredicate(Folding(column), true, PiecesOf(op, text))
    else C.LikePredicate(C.Fold("LOWER", column), false, [C.Literal(SearchPattern(PlaceOf(op), ctx.toLowerCase(text)))])
  }

  lemma MatchIsWellFormed(ctx: Context, field: string, op: Operator, text: string)
    requires IsSearch(op)
    ensures C.WellFormedLike(MatchOf(ctx, field, op, text))
  {
    var column := C.Ref(C.Column(ctx.table, field));
    assert C.WellFormedChars(C.Fold("UNACCENT", column)) && C.WellFormedChars(C.Fold("UNACCENT", C.Literal(text)));
    assert C.WellFormedChars(Folding(C.Literal(text)));
  }

  // ---------------------------------------------------------------- scanning

  ghost predicate CharsReadAs(text: string, c: C.Chars, q: char) { ReadsAs(text, C.CharsTokens(c), q) }

  /** A function name in front of its parenthesis. */
  lemma CallOpens(fn: string, up: string, q: char)
    requires IsIdentifierQuote(q)
    requires fn != "" && (forall k :: 0 <= k < |fn| ==> IsLetter(fn[k])) && Upper(fn) == up
    ensures AlwaysReadsAs(fn + "(", [Word(up), LeftParen], q)
  {
    OpenReads(q);
    forall rest ensures Lex(fn + "(" + rest, q) == Prepend([Word(up), LeftParen], Lex(rest, q)) {
      assert fn + "(" + rest == fn + ("(" + rest);
      WordReads(fn, up, "(" + rest, q);
      AlwaysReadAt("(", [LeftParen], q, rest);
      PrependTwice([Word(up)], [LeftParen], Lex(rest, q));
      assert [Word(up)] + [LeftParen] == [Word(up), LeftParen];
    }
  }

  lemma LowerReadsAs(text: string, c: C.Chars, q: char)
    requires IsIdentifierQuote(q) && CharsReadAs(text, c, q)
    ensures CharsReadAs("lower(" + text + ")", C.Fold("LOWER", c), q)
  {
    UpperIs("lower", "LOWER");
    CallOpens("lower", "LOWER", q);
    assert "lower" + "(" == "lower(";
    ReadsAsParenthesised("lower(", [Word("LOWER"), LeftParen], text, C.CharsTokens(c), q);
  }

  lemma FoldingReadsAs(text: string, c: C.Chars, q: char)
    requires IsIdentifierQuote(q) && CharsReadAs(text, c, q)
    ensures CharsReadAs("lower(unaccent(" + text + "))", Folding(c), q)
  {
    UpperIs("unaccent", "UNACCENT");
    CallOpens("unaccent", "UNACCENT", q);
    assert "unaccent" + "(" == "unaccent(";
    ReadsAsParenthesised("unaccent(", [Word("UNACCENT"), LeftParen], text, C.CharsTokens(c), q);
    LowerReadsAs("unaccent(" + text + ")", C.Fold("UNACCENT", c), q);
    CallsSplit(text);
  }

  lemma CallsSplit(text: string)
    ensures "lower(" + ("unaccent(" + text + ")") + ")" == "lower(unaccent(" + text + "))"
  {
  }

  lemma ConcatReads(q: char)
    requires IsIdentifierQuote(q)
    ensures AlwaysReadsAs(" || ", [Concat], q)
  {
    forall rest ensures Lex(" || " + rest, q) == Prepend([Concat], Lex(rest, q)) {
      var tail := " " + rest;
      assert " || " + rest == " " + ("||" + tail);
      SpaceReads("||" + tail, q);
      assert ("||" + tail)[1..][0] == '|' && ("||" + tail)[1..][1..] == tail;
      SpaceReads(rest, q);
    }
  }

  ghost predicate PatternReadsAs(text: string, ps: seq<C.Chars>, q: char) { ReadsAs(text, C.PatternTokens(ps), q) }

  lemma ThenPattern(a: string, c: C.Chars, b: string, ps: seq<C.Chars>, q: char)
    requires IsIdentifierQuote(q) && CharsReadAs(a, c, q) && ps != [] && PatternReadsAs(b, ps, q)
    ensures PatternReadsAs(a + " || " + b, [c] + ps, q)
  {
    ConcatReads(q);
    assert ([c] + ps)[1..] == ps;
    ReadsAsSequence(a, C.CharsTokens(c), " || ", [Concat], b, C.PatternTokens(ps), q);
  }

  lemma LikeWordReads(insensitive: bool, q: char)
    requires IsIdentifierQuote(q)
    ensures AlwaysReadsAs(if insensitive then " ILIKE " else " LIKE ", [C.LikeWord(insensitive)], q)
  {
    if insensitive {
      UpperIs("ILIKE", "ILIKE");
      SpacedWordReads(" ILIKE ", "ILIKE", "ILIKE", q);
    } else {
      UpperIs("LIKE", "LIKE");
      SpacedWordReads(" LIKE ", "LIKE", "LIKE", q);
    }
  }

  lemma LikeReadsAs(subject: string, insensitive: bool, pattern: string, l: C.LikePredicate, q: char)
    requires IsIdentifierQuote(q) && CharsReadAs(subject, l.subject, q) && PatternReadsAs(pattern, l.pattern, q)
    requires insensitive == l.insensitive
    ensures PartReadsAs(subject + (if insensitive then " ILIKE " else " LIKE ") + pattern,
                        C.Factor(false, C.Match(l)), q)
  {
    var sep := if insensitive then " ILIKE " else " LIKE ";
    LikeWordReads(insensitive, q);
    ReadsAsSequence(subject, C.CharsTokens(l.subject), sep, [C.LikeWord(insensitive)], pattern,
                    C.PatternTokens(l.pattern), q);
    assert [] + C.LikeTokens(l) == C.LikeTokens(l);
  }

  lemma {:induction false} DoubledAppend(a: string, b: string, q: char)
    ensures Doubled(a + b, q) == Doubled(a, q) + Doubled(b, q)
  {
    if a == "" {
      assert a + b == b;
    } else {
      assert (a + b)[1..] == a[1..] + b;
      DoubledAppend(a[1..], b, q);
    }
  }

  /** Percent signs may be put around a text before or after its quotes are doubled. */
  lemma PatternDoubles(place: Place, t: string)
    ensures Doubled(SearchPattern(place, t), '\'') == SearchPattern(place, Doubled(t, '\''))
  {
    NothingToDouble("%", '\'');
    match place
    case Anywhere => DoubledAppend("%" + t, "%", '\''); DoubledAppend("%", t, '\'');
    case AtStart => DoubledAppend(t, "%", '\'');
    case AtEnd => DoubledAppend("%", t, '\'');
  }

  lemma LiteralSplits(op: Operator, d: string)
    requires IsSearch(op)
    ensures LiteralPattern(op, d) == ['\''] + SearchPattern(PlaceOf(op), d) + ['\'']
  {
  }

  lemma LiteralIsQuoted(op: Operator, t: string)
    requires IsSearch(op)
    ensures LiteralPattern(op, Doubled(t, '\'')) == QuoteText(SearchPattern(PlaceOf(op), t))
  {
    PatternDoubles(PlaceOf(op), t);
    LiteralSplits(op, Doubled(t, '\''));
  }

  lemma JoinSplits(op: Operator, folded: string)
    requires IsSearch(op)
    ensures JoinedPattern(op, folded) ==
            match op
            case Contains => "'%'" + " || " + (folded + " || " + "'%'")
            case StartsWith => folded + " || " + "'%'"
            case EndsWith => "'%'" + " || " + folded
  {
  }

  lemma PercentReadsAs(q: char)
    requires IsIdentifierQuote(q)
    ensures CharsReadAs("'%'", C.Literal("%"), q) && PatternReadsAs("'%'", [C.Literal("%")], q)
  {
    NothingToDouble("%", '\'');
    assert QuoteText("%") == "'%'";
    TextReadsAs("%", q);
  }

  lemma JoinedReadsAs(op: Operator, folded: string, text: string, q: char)
    requires IsIdentifierQuote(q) && IsSearch(op) && CharsReadAs(folded, Folding(C.Literal(text)), q)
    ensures PatternReadsAs(JoinedPattern(op, folded), PiecesOf(op, text), q)
  {
    var percent, t := C.Literal("%"), Folding(C.Literal(text));
    PercentReadsAs(q);
    JoinSplits(op, folded);
    if op == EndsWith {
      ThenPattern("'%'", percent, folded, [t], q);
    } else {
      ThenPattern(folded, t, "'%'", [percent], q);
      if op == Contains { ThenPattern("'%'", percent, folded + " || " + "'%'", [t] + [percent], q); }
    }
  }

  /** The emitted text of a search is read as its LIKE predicate. */
  lemma MatchReadsAs(ctx: Context, field: string, op: Operator, text: string)
    requires PrintableContext(ctx) && ctx.quote !in field && IsSearch(op)
    ensures PartReadsAs(MatchText(ctx, QuotedField(ctx, field), op, text),
                        C.Factor(false, C.Match(MatchOf(ctx, field, op, text))), ctx.quote)
  {
    FieldReadsAs(ctx, field);
    var f, column := QuotedField(ctx, field), C.Ref(C.Column(ctx.table, field));
    if ctx.postgres {
      FoldedMatchReadsAs(ctx, f, column, op, text);
    } else {
      LoweredMatchReadsAs(ctx, f, column, op, text);
    }
  }

  lemma FoldedMatchReadsAs(ctx: Context, f: string, column: C.Chars, op: Operator, text: string)
    requires PrintableContext(ctx) && IsSearch(op) && ctx.postgres && CharsReadAs(f, column, ctx.quote)
    ensures PartReadsAs(MatchText(ctx, f, op, text),
                        C.Factor(false, C.Match(C.LikePredicate(Folding(column), true, PiecesOf(op, text)))), ctx.quote)
  {
    var q, folded := ctx.quote, "lower(unaccent(" + QuoteText(text) + "))";
    FoldingReadsAs(f, column, q);
    TextReadsAs(text, q);
    FoldingReadsAs(QuoteText(text), C.Literal(text), q);
    JoinedReadsAs(op, folded, text, q);
    LikeReadsAs("lower(unaccent(" + f + "))", true, JoinedPattern(op, folded),
                C.LikePredicate(Folding(column), true, PiecesOf(op, text)), q);
    FoldedSplits(f, JoinedPattern(op, folded));
    ArgumentSplits(Doubled(text, '\''));
  }

  lemma FoldedSplits(f: string, pattern: string)
    ensures "lower(unaccent(" + f + "))" + " ILIKE " + pattern == "lower(unaccent(" + f + ")) ILIKE " + pattern
  {
  }

  lemma ArgumentSplits(escaped: string)
    ensures "lower(unaccent(" + (['\''] + escaped + ['\'']) + "))" == "lower(unaccent('" + escaped + "'))"
  {
  }

  lemma LoweredMatchReadsAs(ctx: Context, f: string, column: C.Chars, op: Operator, text: string)
    requires PrintableContext(ctx) && IsSearch(op) && !ctx.postgres && CharsReadAs(f, column, ctx.quote)
    ensures var pattern := [C.Literal(SearchPattern(PlaceOf(op), ctx.toLowerCase(text)))];
            PartReadsAs(MatchText(ctx, f, op, text),
                        C.Factor(false, C.Match(C.LikePredicate(C.Fold("LOWER", column), false, pattern))), ctx.quote)
  {
    var q, lowered := ctx.quote, ctx.toLowerCase(text);
    var pattern := SearchPattern(PlaceOf(op), lowered);
    LowerReadsAs(f, column, q);
    TextReadsAs(pattern, q);
    LikeReadsAs("lower(" + f + ")", false, QuoteText(pattern),
                C.LikePredicate(C.Fold("LOWER", column), false, [C.Literal(pattern)]), q);
    LiteralIsQuoted(op, lowered);
    assert ctx.toLowerCase(Doubled(text, '\'')) == Doubled(lowered, '\'');
    LoweredSplits(f, QuoteText(pattern));
  }

  lemma LoweredSplits(f: string, pattern: string)
    ensures "lower(" + f + ")" + " LIKE " + pattern == "lower(" + f + ") LIKE " + pattern
  {
  }

  // ---------------------------------------------------------------- what is searched for

  /** The characters of a column's value that are searched. */
  function Searched(ctx: Context, x: C.Value, sem: C.Semantics): string {
    var s := C.CharactersOf(x, sem);
    sem.fold("LOWER", if ctx.postgres then sem.fold("UNACCENT", s) else s)
  }

  /** The characters that are searched for. */
  function Sought(ctx: Context, text: string, sem: C.Semantics): string {
    if ctx.postgres then sem.fold("LOWER", sem.fold("UNACCENT", text)) else ctx.toLowerCase(text)
  }

  /** A search is a LIKE predicate: wildcards in the text count as such. */
  function SearchTruth(ctx: Context, op: Operator, x: C.Value, text: string, sem: C.Semantics): C.Truth
    requires IsSearch(op)
  {
    if x == C.Null then C.Unknown else
      C.TruthOf(Matches(C.SameIn(ctx.postgres, sem), SearchPattern(PlaceOf(op), Sought(ctx, text, sem)),
                        Searched(ctx, x, sem)))
  }

  function MatchTruth(l: C.LikePredicate, row: C.Row, sem: C.Semantics): C.Truth {
    C.Like(l.insensitive, C.EvalChars(l.subject, row, sem), C.EvalPattern(l.pattern, row, sem), sem)
  }

  lemma PiecesEvaluate(op: Operator, text: string, row: C.Row, sem: C.Semantics)
    requires IsSearch(op)
    ensures C.EvalPattern(PiecesOf(op, text), row, sem) ==
            C.String(SearchPattern(PlaceOf(op), sem.fold("LOWER", sem.fold("UNACCENT", text))))
  {
    var percent, t := C.Literal("%"), Folding(C.Literal(text));
    assert C.EvalChars(C.Fold("UNACCENT", C.Literal(text)), row, sem) == C.String(sem.fold("UNACCENT", text));
    assert C.EvalChars(t, row, sem) == C.String(sem.fold("LOWER", sem.fold("UNACCENT", text)));
    var pieces := PiecesOf(op, text);
    if op == Contains {
      assert pieces[..2] == [percent, t] && [percent, t][..1] == [percent];
      assert C.EvalPattern([percent, t], row, sem)
             == C.Joined(C.EvalPattern([percent], row, sem), C.EvalChars(t, row, sem), sem);
    } else {
      assert pieces[..1] == [pieces[0]];
    }
  }

  /** The emitted predicate is the search. */
  lemma MatchEvaluates(ctx: Context, field: string, op: Operator, text: string, row: C.Row, sem: C.Semantics)
    requires IsSearch(op)
    ensures MatchTruth(MatchOf(ctx, field, op, text), row, sem) == SearchTruth(ctx, op, row(field), text, sem)
  {
    var column := C.Ref(C.Column(ctx.table, field));
    if ctx.postgres {
      PiecesEvaluate(op, text, row, sem);
      assert C.EvalChars(C.Fold("UNACCENT", column), row, sem) == C.Folded("UNACCENT", row(field), sem);
      assert C.EvalChars(Folding(column), row, sem)
             == C.Folded("LOWER", C.EvalChars(C.Fold("UNACCENT", column), row, sem), sem);
    } else {
      assert C.EvalChars(C.Fold("LOWER", column), row, sem) == C.Folded("LOWER", row(field), sem);
    }
  }

  /** The search for a text without wildcards is true of exactly the values that hold it at the place asked for. */
  lemma SearchFindsText(ctx: Context, op: Operator, x: C.Value, text: string, sem: C.Semantics)
    requires IsSearch(op) && Plain(Sought(ctx, text, sem))
    ensures SearchTruth(ctx, op, x, text, sem) ==
            if x == C.Null then C.Unknown
            else C.TruthOf(Found(PlaceOf(op), C.SameIn(ctx.postgres, sem), Sought(ctx, text, sem),
                                 Searched(ctx, x, sem)))
  {
    PlainIsFound(PlaceOf(op), C.SameIn(ctx.postgres, sem), Sought(ctx, text, sem), Searched(ctx, x, sem));
  }
}
