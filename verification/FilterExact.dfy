/** Which filters keep to their places: the text that `buildWhereFromFilter` emits is scanned as the tokens of the
    filter's factors, and parsed as their tree, exactly for the scannable ones. The others lose quotes: a name that
    contains the identifier quote, an array without an operator or within a list is written with fewer quotes than the
    tokens it stands for, and no part has more. */
module FilterExact {
  import opened SqlLike
  import opened SqlText
  import opened SqlCount
  import opened FilterCompiler
  import opened FilterScan
  import opened FilterMatch
  import opened FilterText
  import C = SqlCondition
  import P = SqlParsed
  import opened Wrappers

  // ---------------------------------------------------------------- fixed texts

  lemma AlwaysReadIsExact(s: string, ts: seq<Token>, q: char)
    requires IsIdentifierQuote(q) && AlwaysReadsAs(s, ts, q)
    ensures Exact(s, ts, q)
  {
    forall rest | Delimited(rest) ensures Lex(s + rest, q) == Prepend(ts, Lex(rest, q)) {
      AlwaysReadAt(s, ts, q, rest);
    }
    ReadIsExact(s, ts, q);
  }

  /** Two fixed texts, one after the other. */
  lemma AlwaysReadsBoth(a: string, ta: seq<Token>, b: string, tb: seq<Token>, text: string, ts: seq<Token>, q: char)
    requires AlwaysReadsAs(a, ta, q) && AlwaysReadsAs(b, tb, q) && text == a + b && ts == ta + tb
    ensures AlwaysReadsAs(text, ts, q)
  {
    forall rest ensures Lex(text + rest, q) == Prepend(ts, Lex(rest, q)) {
      assert text + rest == a + (b + rest);
      AlwaysReadAt(a, ta, q, b + rest);
      AlwaysReadAt(b, tb, q, rest);
      PrependTwice(ta, tb, Lex(rest, q));
    }
  }

  /** Two texts around a fixed one. */
  lemma JoinAround(a: string, ta: seq<Token>, sep: string, ts: seq<Token>, b: string, tb: seq<Token>, q: char)
    requires IsIdentifierQuote(q) && AlwaysReadsAs(sep, ts, q) && Fair(a, ta, q) && Fair(b, tb, q)
    ensures Fair(a + sep + b, ta + ts + tb, q)
    ensures Exact(a + sep + b, ta + ts + tb, q) <==> Exact(a, ta, q) && Exact(b, tb, q)
  {
    AlwaysReadIsExact(sep, ts, q);
    JoinThree(a, ta, sep, ts, b, tb, q);
  }

  // ---------------------------------------------------------------- names and values

  /** A text written as it stands has fewer quotes than as a literal. */
  lemma RawIsShort(t: string, q: char)
    requires IsIdentifierQuote(q)
    ensures Fair(t, [StringLiteral(t)], q) && !Exact(t, [StringLiteral(t)], q)
  {
    OneCount(q, StringLiteral(t), q);
    OneCount('\'', StringLiteral(t), q);
    CountQuote(q, t, '\'');
    CountQuote('\'', t, '\'');
  }

  lemma NumberExactIff(t: string, q: char)
    requires IsIdentifierQuote(q)
    ensures Fair(t, [Numeral(t)], q) && (Exact(t, [Numeral(t)], q) <==> IsNumeral(t))
  {
    OneCount(q, Numeral(t), q);
    OneCount('\'', Numeral(t), q);
    assert [Numeral(t)][0] == Numeral(t);
  }

  lemma MemberExactIff(v: Scalar, q: char)
    requires IsIdentifierQuote(q)
    ensures var ts := C.OperandTokens(MemberOf(v));
            Fair(MemberText(v), ts, q) && (Exact(MemberText(v), ts, q) <==> PrintableScalar(v))
  {
    match v
    case Num(t) => NumberExactIff(t, q);
    case Composite(t) => RawIsShort(t, q);
    case _ => MemberReadsAs(v, q); ReadIsExact(MemberText(v), C.OperandTokens(MemberOf(v)), q);
  }

  lemma ShorthandExactIff(o: Operand, q: char)
    requires IsIdentifierQuote(q)
    ensures var ts := C.OperandTokens(ShorthandOf(o));
            Fair(ShorthandText(o), ts, q) && (Exact(ShorthandText(o), ts, q) <==> o.One? && PrintableScalar(o.value))
  {
    if o.Many? {
      RawIsShort(ArrayText(o.values), q);
    } else if o.value.Num? {
      NumberExactIff(o.value.text, q);
    } else if o.value.Composite? {
      RawIsShort(o.value.text, q);
    } else {
      MemberReadsAs(o.value, q);
      ReadIsExact(ShorthandText(o), C.OperandTokens(ShorthandOf(o)), q);
    }
  }

  lemma OperandExactIff(ctx: Context, field: string, o: Operand)
    requires PrintableContext(ctx)
    ensures var s, ts := OperandText(ctx, field, o), C.OperandTokens(ComparedWith(ctx, field, o));
            Fair(s, ts, ctx.quote) && (Exact(s, ts, ctx.quote) <==> IsFinite(o))
  {
    if o.One? && o.value.Num? {
      NumberExactIff(o.value.text, ctx.quote);
    } else {
      OperandReadsAs(ctx, field, o);
      ReadIsExact(OperandText(ctx, field, o), C.OperandTokens(ComparedWith(ctx, field, o)), ctx.quote);
    }
  }

  lemma NameExactIff(name: string, q: char)
    requires IsIdentifierQuote(q)
    ensures Fair(QuoteIdentifier(name, q), [Identifier(name)], q)
    ensures Exact(QuoteIdentifier(name, q), [Identifier(name)], q) <==> q !in name
  {
    forall c | IsQuoteChar(c, q)
      ensures Count(c, QuoteIdentifier(name, q)) == (if c == q then 2 else 0) + Count(c, name)
      ensures TokensCount(c, [Identifier(name)], q) == Count(c, Quote(name, q))
    {
      OneCount(c, Identifier(name), q);
      assert [q][1..] == [];
      CountAppend(c, [q] + name, [q]);
      CountAppend(c, [q], name);
    }
    CountQuote(q, name, q);
    CountQuote('\'', name, q);
    if q in name { CountSome(q, name); } else { CountNone(q, name); }
  }

  lemma PeriodIsExact(q: char)
    requires IsIdentifierQuote(q)
    ensures Exact(".", [Period], q)
  {
    OneCount(q, Period, q);
    OneCount('\'', Period, q);
    assert "."[1..] == "";
  }

  lemma FieldExactIff(ctx: Context, name: string)
    requires PrintableContext(ctx)
    ensures Fair(QuotedField(ctx, name), FieldTokens(ctx, name), ctx.quote)
    ensures Exact(QuotedField(ctx, name), FieldTokens(ctx, name), ctx.quote) <==> ctx.quote !in name
  {
    var q := ctx.quote;
    NameExactIff(ctx.table, q);
    NameExactIff(name, q);
    PeriodIsExact(q);
    JoinThree(QuoteIdentifier(ctx.table, q), [Identifier(ctx.table)], ".", [Period], QuoteIdentifier(name, q),
              [Identifier(name)], q);
    assert [Identifier(ctx.table)] + [Period] + [Identifier(name)] == FieldTokens(ctx, name);
  }

  lemma {:induction false} ListExactIff(vs: seq<Scalar>, q: char)
    requires IsIdentifierQuote(q)
    ensures var s, ts := Join(MemberTexts(vs), ", "), C.ListTokens(MembersOf(vs));
            Fair(s, ts, q) && (Exact(s, ts, q) <==> forall v :: v in vs ==> PrintableScalar(v))
  {
    if vs != [] { MemberExactIff(vs[0], q); }
    if |vs| > 1 {
      ListExactIff(vs[1..], q);
      CommaReads(q);
      var texts, ops := MemberTexts(vs), MembersOf(vs);
      assert texts[1..] == MemberTexts(vs[1..]) && ops[1..] == MembersOf(vs[1..]);
      JoinAround(texts[0], C.OperandTokens(ops[0]), ", ", [Comma], Join(texts[1..], ", "), C.ListTokens(ops[1..]), q);
      assert forall v :: v in vs <==> v == vs[0] || v in vs[1..];
    }
  }

  // ---------------------------------------------------------------- one part

  /** The part is fair to its factor, and exact if and only if `ok`. */
  predicate PartExact(part: string, f: C.BooleanFactor, q: char, ok: bool) {
    Fair(part, C.FactorTokens(f), q) && (Exact(part, C.FactorTokens(f), q) <==> ok)
  }

  /** Field, separator, rest. */
  lemma AtomExactIff(ctx: Context, p: C.Pred, sep: string, head: seq<Token>, b: string, tail: seq<Token>,
                     part: string, ok: bool)
    requires PrintableContext(ctx) && p.column.table == ctx.table && part == QuotedField(ctx, p.column.name) + sep + b
    requires AlwaysReadsAs(sep, head, ctx.quote) && Fair(b, tail, ctx.quote) && (Exact(b, tail, ctx.quote) <==> ok)
    requires head + tail == [C.TestHead(p)] + C.TestTail(p)
    ensures PartExact(part, Atom(p), ctx.quote, ctx.quote !in p.column.name && ok)
  {
    var f := FieldTokens(ctx, p.column.name);
    FieldExactIff(ctx, p.column.name);
    AlwaysReadIsExact(sep, head, ctx.quote);
    JoinThree(QuotedField(ctx, p.column.name), f, sep, head, b, tail, ctx.quote);
    AtomTokens(p, f, head, tail);
  }

  lemma ComparisonExactIff(ctx: Context, field: string, op: RelOp, o: C.Operand, v: string, part: string, ok: bool)
    requires PrintableContext(ctx) && part == QuotedField(ctx, field) + (" " + RelationText(op) + " ") + v
    requires Fair(v, C.OperandTokens(o), ctx.quote) && (Exact(v, C.OperandTokens(o), ctx.quote) <==> ok)
    ensures PartExact(part, Atom(C.Comparison(C.Column(ctx.table, field), op, o)), ctx.quote, ctx.quote !in field && ok)
  {
    var p := C.Comparison(C.Column(ctx.table, field), op, o);
    RelationReads(op, ctx.quote);
    AtomExactIff(ctx, p, " " + RelationText(op) + " ", [Token.Relation(op)], v, C.OperandTokens(o), part, ok);
  }

  lemma ComparedExactIff(ctx: Context, field: string, c: Condition)
    requires PrintableContext(ctx) && IsComparison(c.op)
    ensures PartsExact(ConditionParts(ctx, field, c), ConditionFactors(ctx, field, c), ctx.quote,
                       ctx.quote !in field && IsFinite(c.operand))
  {
    OperandExactIff(ctx, field, c.operand);
    var v := OperandText(ctx, field, c.operand);
    var part := QuotedField(ctx, field) + (" " + RelationText(RelOpOf(c.op)) + " ") + v;
    ComparisonTextIs(QuotedField(ctx, field), c.op, v);
    ComparisonExactIff(ctx, field, RelOpOf(c.op), ComparedWith(ctx, field, c.operand), v, part, IsFinite(c.operand));
    OnePartExact(part, ConditionFactors(ctx, field, c)[0], ctx.quote, ctx.quote !in field && IsFinite(c.operand));
  }

  lemma IsExactIff(ctx: Context, field: string, negated: bool, what: string, text: string)
    requires PrintableContext(ctx) && text == " IS " + what
    requires ReadsAs(what, if negated then [Word("NOT"), Word("NULL")] else [Word("NULL")], ctx.quote)
    ensures PartExact(QuotedField(ctx, field) + text, Atom(C.NullTest(C.Column(ctx.table, field), negated)),
                      ctx.quote, ctx.quote !in field)
  {
    var p := C.NullTest(C.Column(ctx.table, field), negated);
    OperatorsAreUpper();
    SpacedWordReads(" IS ", "IS", "IS", ctx.quote);
    ReadIsExact(what, C.TestTail(p), ctx.quote);
    AppendSplit(QuotedField(ctx, field), " IS ", what, text);
    AtomExactIff(ctx, p, " IS ", [Word("IS")], what, C.TestTail(p), QuotedField(ctx, field) + text, true);
  }

  lemma NullTestExactIff(ctx: Context, field: string, negated: bool)
    requires PrintableContext(ctx)
    ensures PartExact(QuotedField(ctx, field) + (if negated then " IS NOT NULL" else " IS NULL"),
                      Atom(C.NullTest(C.Column(ctx.table, field), negated)), ctx.quote, ctx.quote !in field)
  {
    if negated {
      NotNullReadsAs(ctx.quote);
      IsExactIff(ctx, field, true, "NOT NULL", " IS NOT NULL");
    } else {
      KeywordsAreUpper();
      WordReadsAs("NULL", "NULL", ctx.quote);
      IsExactIff(ctx, field, false, "NULL", " IS NULL");
    }
  }

  lemma CloseAlwaysReads(q: char)
    ensures AlwaysReadsAs(")", [RightParen], q)
  {
    forall rest ensures Lex(")" + rest, q) == Prepend([RightParen], Lex(rest, q)) { CloseReads(q, rest); }
  }

  lemma EnclosedExactIff(list: string, ts: seq<Token>, q: char)
    requires IsIdentifierQuote(q) && Fair(list, ts, q)
    ensures Fair("(" + list + ")", [LeftParen] + ts + [RightParen], q)
    ensures Exact("(" + list + ")", [LeftParen] + ts + [RightParen], q) <==> Exact(list, ts, q)
  {
    OpenReads(q);
    CloseAlwaysReads(q);
    BetweenTexts("(", [LeftParen], list, ts, ")", [RightParen], q);
  }

  /** A text between fixed ones. */
  lemma BetweenTexts(open: string, to: seq<Token>, a: string, ta: seq<Token>, close: string, tc: seq<Token>, q: char)
    requires IsIdentifierQuote(q) && AlwaysReadsAs(open, to, q) && AlwaysReadsAs(close, tc, q) && Fair(a, ta, q)
    ensures Fair(open + a + close, to + ta + tc, q)
    ensures Exact(open + a + close, to + ta + tc, q) <==> Exact(a, ta, q)
  {
    AlwaysReadIsExact(open, to, q);
    AlwaysReadIsExact(close, tc, q);
    JoinThree(open, to, a, ta, close, tc, q);
  }

  lemma InPartExactIff(ctx: Context, field: string, negated: bool, vs: seq<Scalar>, sep: string, second: seq<Token>,
                       open: string)
    requires PrintableContext(ctx) && open == sep + "("
    requires second == if negated then [Word("IN")] else []
    requires AlwaysReadsAs(sep, [Word(if negated then "NOT" else "IN")] + second, ctx.quote)
    ensures PartExact(QuotedField(ctx, field) + open + Join(MemberTexts(vs), ", ") + ")",
                      Atom(C.InList(C.Column(ctx.table, field), negated, MembersOf(vs))), ctx.quote,
                      ctx.quote !in field && forall v :: v in vs ==> PrintableScalar(v))
  {
    var f, list, ts := QuotedField(ctx, field), Join(MemberTexts(vs), ", "), C.ListTokens(MembersOf(vs));
    var ok, first := forall v :: v in vs ==> PrintableScalar(v), Word(if negated then "NOT" else "IN");
    ListExactIff(vs, ctx.quote);
    EnclosedExactIff(list, ts, ctx.quote);
    InTextSplits(f, sep, list, open);
    InTokensSplit([first] + second, first, second, ts);
    AtomExactIff(ctx, C.InList(C.Column(ctx.table, field), negated, MembersOf(vs)), sep, [first] + second,
                 "(" + list + ")", [LeftParen] + ts + [RightParen], f + open + list + ")", ok);
  }

  lemma InExactIff(ctx: Context, field: string, negated: bool, vs: seq<Scalar>)
    requires PrintableContext(ctx)
    ensures PartExact(QuotedField(ctx, field) + (if negated then " NOT IN (" else " IN (") +
                      Join(MemberTexts(vs), ", ") + ")",
                      Atom(C.InList(C.Column(ctx.table, field), negated, MembersOf(vs))), ctx.quote,
                      ctx.quote !in field && forall v :: v in vs ==> PrintableScalar(v))
  {
    if negated {
      NotInReads(ctx.quote);
      assert [Word("NOT")] + [Word("IN")] == [Word("NOT"), Word("IN")];
      InPartExactIff(ctx, field, true, vs, " NOT IN ", [Word("IN")], " NOT IN (");
    } else {
      OperatorsAreUpper();
      SpacedWordReads(" IN ", "IN", "IN", ctx.quote);
      assert [Word("IN")] + [] == [Word("IN")];
      InPartExactIff(ctx, field, false, vs, " IN ", [], " IN (");
    }
  }

  lemma BetweenExactIff(ctx: Context, field: string, lo: Scalar, hi: Scalar)
    requires PrintableContext(ctx)
    ensures PartExact(QuotedField(ctx, field) + " BETWEEN " + MemberText(lo) + " AND " + MemberText(hi),
                      Atom(C.Between(C.Column(ctx.table, field), MemberOf(lo), MemberOf(hi))), ctx.quote,
                      ctx.quote !in field && PrintableScalar(lo) && PrintableScalar(hi))
  {
    var q, f := ctx.quote, QuotedField(ctx, field);
    var tl, th := C.OperandTokens(MemberOf(lo)), C.OperandTokens(MemberOf(hi));
    MemberExactIff(lo, q);
    MemberExactIff(hi, q);
    AndReads(q);
    BetweenReads(q);
    JoinAround(MemberText(lo), tl, " AND ", [Word("AND")], MemberText(hi), th, q);
    BoundsSplit(f, " BETWEEN ", MemberText(lo), " AND ", MemberText(hi));
    AtomExactIff(ctx, C.Between(C.Column(ctx.table, field), MemberOf(lo), MemberOf(hi)), " BETWEEN ", [Word("BETWEEN")],
                 MemberText(lo) + " AND " + MemberText(hi), tl + [Word("AND")] + th,
                 f + " BETWEEN " + MemberText(lo) + " AND " + MemberText(hi), PrintableScalar(lo) &&
                   PrintableScalar(hi));
  }

  /** A field between fixed texts, and a pattern after them. */
  lemma AroundExactIff(ctx: Context, field: string, open: string, to: seq<Token>, close: string, tc: seq<Token>,
                       pattern: string, pt: seq<Token>)
    requires PrintableContext(ctx) && Exact(pattern, pt, ctx.quote)
    requires AlwaysReadsAs(open, to, ctx.quote) && AlwaysReadsAs(close, tc, ctx.quote)
    ensures var part, ts := open + QuotedField(ctx, field) + close + pattern, to + FieldTokens(ctx, field) + (tc + pt);
            Fair(part, ts, ctx.quote) && (Exact(part, ts, ctx.quote) <==> ctx.quote !in field)
  {
    FieldExactIff(ctx, field);
    AlwaysReadIsExact(open, to, ctx.quote);
    AlwaysReadIsExact(close, tc, ctx.quote);
    JoinTwo(close, tc, pattern, pt, ctx.quote);
    JoinThree(open, to, QuotedField(ctx, field), FieldTokens(ctx, field), close + pattern, tc + pt, ctx.quote);
    AroundSplits(open, QuotedField(ctx, field), close, pattern);
  }

  lemma MatchExactIff(ctx: Context, field: string, op: Operator, text: string)
    requires PrintableContext(ctx) && IsSearch(op)
    ensures PartExact(MatchText(ctx, QuotedField(ctx, field), op, text),
                      C.Factor(false, C.Match(MatchOf(ctx, field, op, text))),
                      ctx.quote, ctx.quote !in field)
  {
    var l := MatchOf(ctx, field, op, text);
    assert [] + C.LikeTokens(l) == C.LikeTokens(l);
    if ctx.postgres { FoldedMatchExactIff(ctx, field, op, text); } else { LoweredMatchExactIff(ctx, field, op, text); }
  }

  lemma FoldedLikeTokens(ctx: Context, field: string, op: Operator, text: string)
    requires IsSearch(op) && ctx.postgres
    ensures C.LikeTokens(MatchOf(ctx, field, op, text)) ==
            [Word("LOWER"), LeftParen, Word("UNACCENT"), LeftParen] + FieldTokens(ctx, field) +
            ([RightParen, RightParen, Word("ILIKE")] + C.PatternTokens(PiecesOf(op, text)))
  {
    var column := C.Ref(C.Column(ctx.table, field));
    assert C.CharsTokens(column) == FieldTokens(ctx, field);
    assert C.CharsTokens(C.Fold("UNACCENT", column))
           == [Word("UNACCENT"), LeftParen] + FieldTokens(ctx, field) + [RightParen];
    FoldedTokensSplit(FieldTokens(ctx, field), C.PatternTokens(PiecesOf(op, text)));
  }

  lemma LoweredOpenReads(q: char)
    requires IsIdentifierQuote(q)
    ensures AlwaysReadsAs("lower(", [Word("LOWER"), LeftParen], q)
  {
    UpperIs("lower", "LOWER");
    CallOpens("lower", "LOWER", q);
    assert "lower" + "(" == "lower(";
  }

  lemma LoweredCloseReads(q: char)
    requires IsIdentifierQuote(q)
    ensures AlwaysReadsAs(") LIKE ", [RightParen, Word("LIKE")], q)
  {
    CloseAlwaysReads(q);
    LikeWordReads(false, q);
    AlwaysReadsBoth(")", [RightParen], " LIKE ", [Word("LIKE")], ") LIKE ", [RightParen, Word("LIKE")], q);
  }

  lemma FoldedOpenReads(q: char)
    requires IsIdentifierQuote(q)
    ensures AlwaysReadsAs("lower(unaccent(", [Word("LOWER"), LeftParen, Word("UNACCENT"), LeftParen], q)
  {
    LoweredOpenReads(q);
    UpperIs("unaccent", "UNACCENT");
    CallOpens("unaccent", "UNACCENT", q);
    AlwaysReadsBoth("lower(", [Word("LOWER"), LeftParen], "unaccent" + "(", [Word("UNACCENT"), LeftParen],
                    "lower(unaccent(", [Word("LOWER"), LeftParen, Word("UNACCENT"), LeftParen], q);
  }

  lemma FoldedCloseReads(q: char)
    requires IsIdentifierQuote(q)
    ensures AlwaysReadsAs(")) ILIKE ", [RightParen, RightParen, Word("ILIKE")], q)
  {
    CloseAlwaysReads(q);
    LikeWordReads(true, q);
    AlwaysReadsBoth(")", [RightParen], " ILIKE ", [Word("ILIKE")], ") ILIKE ", [RightParen, Word("ILIKE")], q);
    AlwaysReadsBoth(")", [RightParen], ") ILIKE ", [RightParen, Word("ILIKE")],
                    ")) ILIKE ", [RightParen, RightParen, Word("ILIKE")], q);
  }

  lemma FoldedMatchExactIff(ctx: Context, field: string, op: Operator, text: string)
    requires PrintableContext(ctx) && IsSearch(op) && ctx.postgres
    ensures var part, ts := MatchText(ctx, QuotedField(ctx, field), op, text),
            C.LikeTokens(MatchOf(ctx, field, op, text));
            Fair(part, ts, ctx.quote) && (Exact(part, ts, ctx.quote) <==> ctx.quote !in field)
  {
    var open, close := [Word("LOWER"), LeftParen, Word("UNACCENT"), LeftParen], [RightParen, RightParen, Word("ILIKE")];
    FoldedPatternIsExact(op, text, ctx.quote);
    FoldedOpenReads(ctx.quote);
    FoldedCloseReads(ctx.quote);
    AroundExactIff(ctx, field, "lower(unaccent(", open, ")) ILIKE ", close,
                   JoinedPattern(op, "lower(unaccent('" + Doubled(text, '\'') + "'))"),
                     C.PatternTokens(PiecesOf(op, text)));
    FoldedLikeTokens(ctx, field, op, text);
  }

  lemma LoweredLikeTokens(ctx: Context, field: string, op: Operator, text: string)
    requires IsSearch(op) && !ctx.postgres
    ensures C.LikeTokens(MatchOf(ctx, field, op, text)) ==
            [Word("LOWER"), LeftParen] + FieldTokens(ctx, field) +
            ([RightParen, Word("LIKE")] + [StringLiteral(SearchPattern(PlaceOf(op), ctx.toLowerCase(text)))])
  {
    assert C.CharsTokens(C.Ref(C.Column(ctx.table, field))) == FieldTokens(ctx, field);
    LoweredTokensSplit(FieldTokens(ctx, field), [StringLiteral(SearchPattern(PlaceOf(op), ctx.toLowerCase(text)))]);
  }

  lemma LoweredMatchExactIff(ctx: Context, field: string, op: Operator, text: string)
    requires PrintableContext(ctx) && IsSearch(op) && !ctx.postgres
    ensures var part, ts := MatchText(ctx, QuotedField(ctx, field), op, text),
            C.LikeTokens(MatchOf(ctx, field, op, text));
            Fair(part, ts, ctx.quote) && (Exact(part, ts, ctx.quote) <==> ctx.quote !in field)
  {
    var open, close := [Word("LOWER"), LeftParen], [RightParen, Word("LIKE")];
    LiteralPatternIsExact(ctx, op, text);
    LoweredOpenReads(ctx.quote);
    LoweredCloseReads(ctx.quote);
    AroundExactIff(ctx, field, "lower(", open, ") LIKE ", close,
                   LiteralPattern(op, ctx.toLowerCase(Doubled(text, '\''))),
                   [StringLiteral(SearchPattern(PlaceOf(op), ctx.toLowerCase(text)))]);
    LoweredLikeTokens(ctx, field, op, text);
  }

  lemma AroundSplits(open: string, f: string, close: string, pattern: string)
    ensures open + f + (close + pattern) == open + f + close + pattern
  {
  }

  lemma FoldedTokensSplit(ft: seq<Token>, pt: seq<Token>)
    ensures [Word("LOWER"), LeftParen, Word("UNACCENT"), LeftParen] + ft +
            ([RightParen, RightParen, Word("ILIKE")] + pt)
         == [Word("LOWER"), LeftParen] + ([Word("UNACCENT"), LeftParen] + ft + [RightParen]) + [RightParen] +
           [Word("ILIKE")] + pt
  {
  }

  lemma LoweredTokensSplit(ft: seq<Token>, pt: seq<Token>)
    ensures [Word("LOWER"), LeftParen] + ft + ([RightParen, Word("LIKE")] + pt)
         == [Word("LOWER"), LeftParen] + ft + [RightParen] + [Word("LIKE")] + pt
  {
  }

  lemma FoldedPatternIsExact(op: Operator, text: string, q: char)
    requires IsIdentifierQuote(q) && IsSearch(op)
    ensures Exact(JoinedPattern(op, "lower(unaccent('" + Doubled(text, '\'') + "'))"),
                  C.PatternTokens(PiecesOf(op, text)), q)
  {
    TextReadsAs(text, q);
    FoldingReadsAs(QuoteText(text), C.Literal(text), q);
    ArgumentSplits(Doubled(text, '\''));
    JoinedReadsAs(op, "lower(unaccent(" + QuoteText(text) + "))", text, q);
    ReadIsExact(JoinedPattern(op, "lower(unaccent(" + QuoteText(text) + "))"), C.PatternTokens(PiecesOf(op, text)), q);
  }

  lemma LiteralPatternIsExact(ctx: Context, op: Operator, text: string)
    requires PrintableContext(ctx) && IsSearch(op)
    ensures Exact(LiteralPattern(op, ctx.toLowerCase(Doubled(text, '\''))),
                  [StringLiteral(SearchPattern(PlaceOf(op), ctx.toLowerCase(text)))], ctx.quote)
  {
    var pattern := SearchPattern(PlaceOf(op), ctx.toLowerCase(text));
    LiteralIsQuoted(op, ctx.toLowerCase(text));
    assert ctx.toLowerCase(Doubled(text, '\'')) == Doubled(ctx.toLowerCase(text), '\'');
    TextReadsAs(pattern, ctx.quote);
    ReadIsExact(QuoteText(pattern), [StringLiteral(pattern)], ctx.quote);
  }

  // ---------------------------------------------------------------- lists of parts

  /** Every part is fair, and all are exact if and only if `ok`. */
  ghost predicate PartsExact(parts: seq<string>, fs: seq<C.BooleanFactor>, q: char, ok: bool) {
    |parts| == |fs| && (forall i :: 0 <= i < |parts| ==> Fair(parts[i], C.FactorTokens(fs[i]), q)) &&
    (AllExact(parts, fs, q) <==> ok)
  }

  ghost predicate AllExact(parts: seq<string>, fs: seq<C.BooleanFactor>, q: char)
    requires |parts| == |fs|
  {
    forall i :: 0 <= i < |parts| ==> Exact(parts[i], C.FactorTokens(fs[i]), q)
  }

  lemma OnePartExact(part: string, f: C.BooleanFactor, q: char, ok: bool)
    requires PartExact(part, f, q, ok)
    ensures PartsExact([part], [f], q, ok)
  {
    assert [part][0] == part && [f][0] == f;
  }

  lemma NoPartExact(q: char)
    ensures PartsExact([], [], q, true)
  {
  }

  lemma PartsExactAppend(p1: seq<string>, f1: seq<C.BooleanFactor>, ok1: bool, p2: seq<string>,
                         f2: seq<C.BooleanFactor>, ok2: bool,
                         q: char)
    requires PartsExact(p1, f1, q, ok1) && PartsExact(p2, f2, q, ok2)
    ensures PartsExact(p1 + p2, f1 + f2, q, ok1 && ok2)
  {
    var p, f := p1 + p2, f1 + f2;
    forall i | 0 <= i < |p1| ensures p[i] == p1[i] && f[i] == f1[i] { }
    forall i | 0 <= i < |p2| ensures p[|p1| + i] == p2[i] && f[|p1| + i] == f2[i] { }
    if AllExact(p, f, q) {
      forall i | 0 <= i < |p1| ensures Exact(p1[i], C.FactorTokens(f1[i]), q) {
        assert Exact(p[i], C.FactorTokens(f[i]), q);
      }
      forall i | 0 <= i < |p2| ensures Exact(p2[i], C.FactorTokens(f2[i]), q) {
        assert Exact(p[|p1| + i], C.FactorTokens(f[|p1| + i]), q);
      }
    }
  }

  lemma FirstPart(parts: seq<string>, fs: seq<C.BooleanFactor>, q: char, ok: bool)
    requires PartsExact(parts, fs, q, ok) && parts != []
    ensures Fair(parts[0], C.FactorTokens(fs[0]), q)
    ensures PartsExact(parts[1..], fs[1..], q, AllExact(parts[1..], fs[1..], q))
    ensures ok <==> Exact(parts[0], C.FactorTokens(fs[0]), q) && AllExact(parts[1..], fs[1..], q)
  {
    forall i | 0 <= i < |parts| - 1 ensures parts[1..][i] == parts[i + 1] && fs[1..][i] == fs[i + 1] { }
    if Exact(parts[0], C.FactorTokens(fs[0]), q) && AllExact(parts[1..], fs[1..], q) {
      forall i | 0 <= i < |parts| ensures Exact(parts[i], C.FactorTokens(fs[i]), q) {
        if i > 0 { assert Exact(parts[1..][i - 1], C.FactorTokens(fs[1..][i - 1]), q); }
      }
    }
    if ok {
      forall i | 0 <= i < |parts| - 1 ensures Exact(parts[1..][i], C.FactorTokens(fs[1..][i]), q) {
        assert Exact(parts[i + 1], C.FactorTokens(fs[i + 1]), q);
      }
    }
  }

  lemma {:induction false} AndJoinExactIff(parts: seq<string>, fs: seq<C.BooleanFactor>, q: char, ok: bool)
    requires IsIdentifierQuote(q) && parts != [] && PartsExact(parts, fs, q, ok)
    ensures Fair(Join(parts, " AND "), C.FactorsTokens(fs), q)
    ensures Exact(Join(parts, " AND "), C.FactorsTokens(fs), q) <==> ok
    decreases |parts|
  {
    FirstPart(parts, fs, q, ok);
    if |parts| > 1 {
      AndJoinExactIff(parts[1..], fs[1..], q, AllExact(parts[1..], fs[1..], q));
      AndReads(q);
      JoinAround(parts[0], C.FactorTokens(fs[0]), " AND ", [Word("AND")],
                Join(parts[1..], " AND "), C.FactorsTokens(fs[1..]), q);
    }
  }

  lemma {:induction false} OrJoinExactIff(parts: seq<string>, fs: seq<C.BooleanFactor>, q: char, ok: bool)
    requires IsIdentifierQuote(q) && parts != [] && PartsExact(parts, fs, q, ok)
    ensures Fair(Join(parts, " OR "), C.TermsTokens(EachAlone(fs)), q)
    ensures Exact(Join(parts, " OR "), C.TermsTokens(EachAlone(fs)), q) <==> ok
    decreases |parts|
  {
    FirstPart(parts, fs, q, ok);
    assert C.FactorsTokens([fs[0]]) == C.FactorTokens(fs[0]);
    if |parts| > 1 {
      OrJoinExactIff(parts[1..], fs[1..], q, AllExact(parts[1..], fs[1..], q));
      OrReads(q);
      assert EachAlone(fs)[1..] == EachAlone(fs[1..]);
      JoinAround(parts[0], C.FactorTokens(fs[0]), " OR ", [Word("OR")],
                Join(parts[1..], " OR "), C.TermsTokens(EachAlone(fs)[1..]), q);
    }
  }

  lemma AndGroupExactIff(parts: seq<string>, fs: seq<C.BooleanFactor>, q: char, ok: bool)
    requires IsIdentifierQuote(q) && parts != [] && PartsExact(parts, fs, q, ok)
    ensures PartExact(Parenthesised(parts, " AND "), C.Factor(false, AndGroup(fs)), q, ok)
    ensures PartExact("NOT " + Parenthesised(parts, " AND "), C.Factor(true, AndGroup(fs)), q, ok)
  {
    var text, ts := Join(parts, " AND "), C.FactorsTokens(fs);
    AndJoinExactIff(parts, fs, q, ok);
    EnclosedExactIff(text, ts, q);
    NotOpenReads(q);
    CloseAlwaysReads(q);
    BetweenTexts("NOT (", [Word("NOT"), LeftParen], text, ts, ")", [RightParen], q);
    NotTextSplits(text);
    assert C.TermsTokens([C.Conjunction(fs)]) == ts;
    NotTokensSplit(ts);
  }

  lemma OrGroupExactIff(parts: seq<string>, fs: seq<C.BooleanFactor>, q: char, ok: bool)
    requires IsIdentifierQuote(q) && parts != [] && PartsExact(parts, fs, q, ok)
    ensures PartExact(Parenthesised(parts, " OR "), C.Factor(false, C.Group(C.Disjunction(EachAlone(fs)))), q, ok)
  {
    OrJoinExactIff(parts, fs, q, ok);
    EnclosedExactIff(Join(parts, " OR "), C.TermsTokens(EachAlone(fs)), q);
    NotTokensSplit(C.TermsTokens(EachAlone(fs)));
  }

  // ---------------------------------------------------------------- the whole filter

  lemma ConditionExactIff(ctx: Context, field: string, c: Condition)
    requires PrintableContext(ctx)
    ensures PartsExact(ConditionParts(ctx, field, c), ConditionFactors(ctx, field, c), ctx.quote,
                       SilentCondition(c) || (ctx.quote !in field && ScannableCondition(c)))
  {
    var q, ok := ctx.quote, ctx.quote !in field && ScannableCondition(c);
    if SilentCondition(c) {
      NoPartExact(q);
    } else if IsComparison(c.op) {
      ComparedExactIff(ctx, field, c);
    } else {
      if c.op == In || c.op == NotIn {
        InExactIff(ctx, field, c.op == NotIn, ListOf(c.operand));
      } else if c.op == Between {
        BetweenExactIff(ctx, field, c.operand.values[0], c.operand.values[1]);
        BothPrintable(c.operand.values);
      } else if c.op == IsNull || c.op == IsNotNull {
        NullTestExactIff(ctx, field, c.op == IsNotNull);
      } else {
        MatchExactIff(ctx, field, c.op, TextOf(c.operand));
      }
      OnePartExact(ConditionParts(ctx, field, c)[0], ConditionFactors(ctx, field, c)[0], q, ok);
    }
  }

  lemma BothPrintable(vs: seq<Scalar>)
    requires |vs| == 2
    ensures (forall v :: v in vs ==> PrintableScalar(v)) <==> PrintableScalar(vs[0]) && PrintableScalar(vs[1])
  {
    assert vs[0] in vs && vs[1] in vs;
  }

  lemma {:induction false} FieldPartsExactIff(ctx: Context, field: string, cs: seq<Condition>)
    requires PrintableContext(ctx)
    ensures PartsExact(FieldParts(ctx, field, cs), FieldFactors(ctx, field, cs), ctx.quote,
                       ScannableConditions(ctx, field, cs))
  {
    if cs == [] {
      NoPartExact(ctx.quote);
    } else {
      ConditionExactIff(ctx, field, cs[0]);
      FieldPartsExactIff(ctx, field, cs[1..]);
      var ok := SilentCondition(cs[0]) || (ctx.quote !in field && ScannableCondition(cs[0]));
      PartsExactAppend(ConditionParts(ctx, field, cs[0]), ConditionFactors(ctx, field, cs[0]), ok,
                       FieldParts(ctx, field, cs[1..]), FieldFactors(ctx, field, cs[1..]),
                       ScannableConditions(ctx, field, cs[1..]), ctx.quote);
      ScannableFirst(ctx, field, cs);
    }
  }

  lemma ScannableFirst(ctx: Context, field: string, cs: seq<Condition>)
    requires cs != []
    ensures ScannableConditions(ctx, field, cs) <==>
            (SilentCondition(cs[0]) || (ctx.quote !in field && ScannableCondition(cs[0]))) &&
            ScannableConditions(ctx, field, cs[1..])
  {
    assert forall c :: c in cs <==> c == cs[0] || c in cs[1..];
  }

  lemma {:induction false} FilterExactIff(ctx: Context, f: Filter)
    requires PrintableContext(ctx)
    ensures PartsExact(Parts(ctx, f), Factors(ctx, f), ctx.quote, Scannable(ctx, f))
    decreases f, 0
  {
    EntriesExactIff(ctx, f.entries);
  }

  lemma {:induction false} EntriesExactIff(ctx: Context, es: seq<Entry>)
    requires PrintableContext(ctx)
    ensures PartsExact(PartsOf(ctx, es), FactorsOf(ctx, es), ctx.quote, ScannableEntries(ctx, es))
    decreases es, 1
  {
    if es == [] {
      NoPartExact(ctx.quote);
    } else {
      EntryExactIff(ctx, es[0]);
      EntriesExactIff(ctx, es[1..]);
      PartsExactAppend(EntryParts(ctx, es[0]), EntryFactors(ctx, es[0]), ScannableEntry(ctx, es[0]),
                       PartsOf(ctx, es[1..]), FactorsOf(ctx, es[1..]), ScannableEntries(ctx, es[1..]), ctx.quote);
    }
  }

  lemma {:induction false} EntryExactIff(ctx: Context, e: Entry)
    requires PrintableContext(ctx)
    ensures PartsExact(EntryParts(ctx, e), EntryFactors(ctx, e), ctx.quote, ScannableEntry(ctx, e))
    decreases e, 0
  {
    var q, ok := ctx.quote, ScannableEntry(ctx, e);
    match e
    case And(ms) =>
      MembersExactIff(ctx, ms);
      var ps, fs := MemberParts(ctx, ms), MemberFactors(ctx, ms);
      if ps != [] {
        AndGroupExactIff(ps, fs, q, ok);
        OnePartExact(Parenthesised(ps, " AND "), C.Factor(false, AndGroup(fs)), q, ok);
      }
    case Or(ms) =>
      MembersExactIff(ctx, ms);
      var ps, fs := MemberParts(ctx, ms), MemberFactors(ctx, ms);
      if ps != [] {
        OrGroupExactIff(ps, fs, q, ok);
        OnePartExact(Parenthesised(ps, " OR "), C.Factor(false, C.Group(C.Disjunction(EachAlone(fs)))), q, ok);
      }
    case Not(inner) =>
      FilterExactIff(ctx, inner);
      var ps, fs := Parts(ctx, inner), Factors(ctx, inner);
      if ps != [] {
        AndGroupExactIff(ps, fs, q, ok);
        OnePartExact("NOT " + Parenthesised(ps, " AND "), C.Factor(true, AndGroup(fs)), q, ok);
      }
    case Field(name, cs) => FieldPartsExactIff(ctx, name, cs);
    case Shorthand(name, o) => ShorthandEntryExactIff(ctx, name, o);
  }

  lemma ShorthandEntryExactIff(ctx: Context, name: string, o: Operand)
    requires PrintableContext(ctx)
    ensures var e := Shorthand(name, o);
            PartsExact(EntryParts(ctx, e), EntryFactors(ctx, e), ctx.quote, ScannableEntry(ctx, e))
  {
    var f, v, ok := QuotedField(ctx, name), ShorthandText(o), o.One? && PrintableScalar(o.value);
    ShorthandExactIff(o, ctx.quote);
    ComparisonTextIs(f, Eq, v);
    ComparisonExactIff(ctx, name, Equal, ShorthandOf(o), v, f + " = " + v, ok);
    OnePartExact(f + " = " + v, Atom(C.Comparison(C.Column(ctx.table, name), Equal, ShorthandOf(o))), ctx.quote,
                 ctx.quote !in name && ok);
  }

  lemma {:induction false} MembersExactIff(ctx: Context, ms: seq<Filter>)
    requires PrintableContext(ctx)
    ensures PartsExact(MemberParts(ctx, ms), MemberFactors(ctx, ms), ctx.quote, ScannableMembers(ctx, ms))
    decreases ms, 1
  {
    if ms == [] {
      NoPartExact(ctx.quote);
    } else {
      FilterExactIff(ctx, ms[0]);
      MembersExactIff(ctx, ms[1..]);
      var ps, fs, ok := Parts(ctx, ms[0]), Factors(ctx, ms[0]), Scannable(ctx, ms[0]);
      if ps == [] {
        NoPartExact(ctx.quote);
      } else {
        AndGroupExactIff(ps, fs, ctx.quote, ok);
        OnePartExact(Parenthesised(ps, " AND "), C.Factor(false, AndGroup(fs)), ctx.quote, ok);
      }
      PartsExactAppend(if ps == [] then [] else [Parenthesised(ps, " AND ")], if fs == [] then []
                       else [C.Factor(false, AndGroup(fs))],
                       ok, MemberParts(ctx, ms[1..]), MemberFactors(ctx, ms[1..]), ScannableMembers(ctx, ms[1..]),
                         ctx.quote);
    }
  }

  // ---------------------------------------------------------------- the clause

  /** The emitted text is scanned as the tokens of the filter's factors if and only if every name and value in it keeps
      to its place. */
  lemma ClauseReadsAsIff(ctx: Context, f: Filter)
    requires PrintableContext(ctx)
    ensures (Parts(ctx, f) != [] ==> Lex(WhereText(ctx, f), ctx.quote) == Some(C.FactorsTokens(Factors(ctx, f))))
       <==> Scannable(ctx, f)
  {
    FilterExactIff(ctx, f);
    if Parts(ctx, f) != [] {
      AndJoinExactIff(Parts(ctx, f), Factors(ctx, f), ctx.quote, Scannable(ctx, f));
      if Scannable(ctx, f) {
        ClauseReadsAs(ctx, f);
      } else if Lex(WhereText(ctx, f), ctx.quote) == Some(C.FactorsTokens(Factors(ctx, f))) {
        ScannedIsExact(WhereText(ctx, f), C.FactorsTokens(Factors(ctx, f)), ctx.quote);
        assert false;
      }
    }
  }

  /** And it is parsed as the tree of the factors if and only if, besides, no list is empty. */
  lemma ClauseParsesToTreeIff(ctx: Context, f: Filter)
    requires PrintableContext(ctx)
    ensures (Parts(ctx, f) != [] ==>
               C.Parse(WhereText(ctx, f), ctx.quote) == Some(C.Disjunction([C.Conjunction(Factors(ctx, f))])))
       <==> Scannable(ctx, f) && NoEmptyList(f)
  {
    ClauseReadsAsIff(ctx, f);
    var fs := Factors(ctx, f);
    assert C.TermsTokens([C.Conjunction(fs)]) == C.FactorsTokens(fs);
    P.ParseIff(WhereText(ctx, f), ctx.quote, C.Disjunction([C.Conjunction(fs)]));
    if Parts(ctx, f) == [] {
      FilterExactIff(ctx, f);
      if !NoEmptyList(f) { FilterShowsEmptyList(ctx, f); }
    } else if Scannable(ctx, f) {
      ParsesIffNoEmptyList(ctx, f);
      if NoEmptyList(f) { TextParsesToTree(ctx, f); }
    }
  }

  // ---------------------------------------------------------------- one value, one name

  /** A member of a list, or a bound, is read back exactly when it is no array and no infinite number. */
  lemma MemberReadsBackIff(v: Scalar, q: char)
    requires IsIdentifierQuote(q)
    ensures Lex(MemberText(v), q) == Some(C.OperandTokens(MemberOf(v))) <==> PrintableScalar(v)
  {
    MemberExactIff(v, q);
    if PrintableScalar(v) {
      MemberReadsAs(v, q);
      ReadsAsWhole(MemberText(v), C.OperandTokens(MemberOf(v)), q);
    } else if Lex(MemberText(v), q) == Some(C.OperandTokens(MemberOf(v))) {
      ScannedIsExact(MemberText(v), C.OperandTokens(MemberOf(v)), q);
      assert false;
    }
  }

  /** So is a value without an operator. */
  lemma ShorthandReadsBackIff(o: Operand, q: char)
    requires IsIdentifierQuote(q)
    ensures Lex(ShorthandText(o), q) == Some(C.OperandTokens(ShorthandOf(o))) <==> o.One? && PrintableScalar(o.value)
  {
    ShorthandExactIff(o, q);
    if o.One? && PrintableScalar(o.value) {
      MemberReadsAs(o.value, q);
      ReadsAsWhole(ShorthandText(o), C.OperandTokens(ShorthandOf(o)), q);
    } else if Lex(ShorthandText(o), q) == Some(C.OperandTokens(ShorthandOf(o))) {
      ScannedIsExact(ShorthandText(o), C.OperandTokens(ShorthandOf(o)), q);
      assert false;
    }
  }

  /** The quoted field is read as the table and the name exactly when the name has no identifier quote in it. */
  lemma FieldReadsBackIff(ctx: Context, name: string)
    requires PrintableContext(ctx)
    ensures Lex(QuotedField(ctx, name), ctx.quote) == Some(FieldTokens(ctx, name)) <==> ctx.quote !in name
  {
    FieldExactIff(ctx, name);
    if ctx.quote !in name {
      FieldReadsAs(ctx, name);
      ReadsAsWhole(QuotedField(ctx, name), FieldTokens(ctx, name), ctx.quote);
    } else if Lex(QuotedField(ctx, name), ctx.quote) == Some(FieldTokens(ctx, name)) {
      ScannedIsExact(QuotedField(ctx, name), FieldTokens(ctx, name), ctx.quote);
      assert false;
    }
  }
}
