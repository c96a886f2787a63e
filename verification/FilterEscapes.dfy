/** Which inputs of `buildWhereFromFilter` leave the place that the clause gives them: field names are put
    between identifier quotes as they stand (sql-dialect.ts), and an array without an operator, or within a
    list, is not quoted at all. */
module FilterEscapes {
  import opened SqlText
  import opened FilterCompiler
  import opened FilterScan
  import opened FilterText
  import C = SqlCondition
  import opened Wrappers

  function EqualityText(ctx: Context, a: string, u: Scalar): string {
    QuotedField(ctx, a) + " = " + ShorthandText(One(u))
  }

  function EqualityOf(ctx: Context, a: string, u: Scalar): C.BooleanFactor {
    Atom(C.Comparison(C.Column(ctx.table, a), Equal, MemberOf(u)))
  }

  /** `a = u OR b = v` on two fields. */
  function EitherText(ctx: Context, a: string, u: Scalar, b: string, v: Scalar): string {
    EqualityText(ctx, a, u) + " OR " + EqualityText(ctx, b, v)
  }

  function EitherOf(ctx: Context, a: string, u: Scalar, b: string, v: Scalar): C.SearchCondition {
    C.Disjunction([C.Conjunction([EqualityOf(ctx, a, u)]), C.Conjunction([EqualityOf(ctx, b, v)])])
  }

  lemma EqualityReadsAs(ctx: Context, a: string, u: Scalar)
    requires PrintableContext(ctx) && ctx.quote !in a && PrintableScalar(u)
    ensures PartReadsAs(EqualityText(ctx, a, u), EqualityOf(ctx, a, u), ctx.quote)
  {
    MemberReadsAs(u, ctx.quote);
    ComparisonTextIs(QuotedField(ctx, a), Eq, ShorthandText(One(u)));
    ComparisonReadsAs(ctx, a, Equal, MemberOf(u), ShorthandText(One(u)), EqualityText(ctx, a, u));
  }

  lemma EitherReadsAs(pa: string, fa: C.BooleanFactor, pb: string, fb: C.BooleanFactor, q: char)
    requires IsIdentifierQuote(q) && PartReadsAs(pa, fa, q) && PartReadsAs(pb, fb, q)
    ensures ReadsAs(pa + " OR " + pb, C.TermsTokens([C.Conjunction([fa]), C.Conjunction([fb])]), q)
  {
    OrReads(q);
    ReadsAsSequence(pa, C.FactorTokens(fa), " OR ", [Word("OR")], pb, C.FactorTokens(fb), q);
    assert [C.Conjunction([fa]), C.Conjunction([fb])][1..] == [C.Conjunction([fb])];
    assert C.FactorsTokens([fa]) == C.FactorTokens(fa) && C.FactorsTokens([fb]) == C.FactorTokens(fb);
  }

  lemma EitherIsWellFormed(fa: C.BooleanFactor, fb: C.BooleanFactor)
    requires C.WellFormedFactor(fa) && C.WellFormedFactor(fb)
    ensures C.WellFormedTerms([C.Conjunction([fa]), C.Conjunction([fb])])
  {
    assert [C.Conjunction([fa]), C.Conjunction([fb])][1..] == [C.Conjunction([fb])];
  }

  lemma EitherParses(ctx: Context, a: string, u: Scalar, b: string, v: Scalar)
    requires PrintableContext(ctx) && ctx.quote !in a && ctx.quote !in b && PrintableScalar(u) && PrintableScalar(v)
    ensures C.Parse(EitherText(ctx, a, u, b, v), ctx.quote) == Some(EitherOf(ctx, a, u, b, v))
  {
    var fa, fb := EqualityOf(ctx, a, u), EqualityOf(ctx, b, v);
    EqualityReadsAs(ctx, a, u);
    EqualityReadsAs(ctx, b, v);
    EitherReadsAs(EqualityText(ctx, a, u), fa, EqualityText(ctx, b, v), fb, ctx.quote);
    EitherIsWellFormed(fa, fb);
    ReadsAsWhole(EitherText(ctx, a, u, b, v), C.TermsTokens(EitherOf(ctx, a, u, b, v).terms), ctx.quote);
    C.ParseReadsBack(EitherText(ctx, a, u, b, v), ctx.quote, EitherOf(ctx, a, u, b, v));
  }

  lemma OnePart(ctx: Context, e: Entry, part: string)
    requires EntryParts(ctx, e) == [part]
    ensures WhereText(ctx, Filter([e])) == part
  {
    assert [e][1..] == [];
    assert PartsOf(ctx, [e]) == [part] + PartsOf(ctx, []);
    assert [part] + [] == [part];
  }

  /** A field name with quotes in it can end its identifier and go on: one entry compiles to the disjunction of
      two comparisons. */
  lemma QuoteInNameEscapes(ctx: Context, a: string, u: Scalar, b: string, v: Scalar)
    requires PrintableContext(ctx) && ctx.quote !in a && ctx.quote !in b && PrintableScalar(u) && PrintableScalar(v)
    ensures var q := [ctx.quote];
            var name := a + q + " = " + ShorthandText(One(u)) + " OR " + q + ctx.table + q + "." + q + b;
            C.Parse(WhereText(ctx, Filter([Shorthand(name, One(v))])), ctx.quote) == Some(EitherOf(ctx, a, u, b, v))
  {
    var q := [ctx.quote];
    var name := a + q + " = " + ShorthandText(One(u)) + " OR " + q + ctx.table + q + "." + q + b;
    OnePart(ctx, Shorthand(name, One(v)), EitherText(ctx, a, u, b, v)) by {
      NameSplits(ctx, a, b, ShorthandText(One(u)), ShorthandText(One(v)));
    }
    EitherParses(ctx, a, u, b, v);
  }

  lemma NameSplits(ctx: Context, a: string, b: string, u: string, v: string)
    ensures var q := [ctx.quote];
            QuotedField(ctx, a + q + " = " + u + " OR " + q + ctx.table + q + "." + q + b) + " = " + v
            == QuotedField(ctx, a) + " = " + u + " OR " + (QuotedField(ctx, b) + " = " + v)
  {
  }

  /** An array beside a field is written into the clause as it stands, and so can be any condition. */
  lemma ArrayShorthandEscapes(ctx: Context, a: string, u: Scalar, b: string, v: Scalar)
    requires PrintableContext(ctx) && ctx.quote !in a && ctx.quote !in b && PrintableScalar(u) && PrintableScalar(v)
    ensures var member := ShorthandText(One(u)) + " OR " + EqualityText(ctx, b, v);
            C.Parse(WhereText(ctx, Filter([Shorthand(a, Many([Str(member)]))])), ctx.quote)
              == Some(EitherOf(ctx, a, u, b, v))
  {
    var member := ShorthandText(One(u)) + " OR " + EqualityText(ctx, b, v);
    OneMemberText(member);
    MemberSplits(QuotedField(ctx, a), ShorthandText(One(u)), EqualityText(ctx, b, v));
    OnePart(ctx, Shorthand(a, Many([Str(member)])), EitherText(ctx, a, u, b, v));
    EitherParses(ctx, a, u, b, v);
  }

  lemma OneMemberText(s: string)
    ensures ArrayText([Str(s)]) == s
  {
    assert s + "" == s;
  }

  lemma MemberSplits(f: string, u: string, rest: string)
    ensures f + " = " + (u + " OR " + rest) == f + " = " + u + " OR " + rest
  {
  }

  /** An array within a list is written without quotes too: whatever list its text spells takes its place. */
  lemma NestedMemberEscapes(ctx: Context, field: string, op: Operator, vs: seq<Scalar>)
    requires op == In || op == NotIn
    ensures var nested := Many([Composite(Join(MemberTexts(vs), ", "))]);
            WhereText(ctx, Filter([Field(field, [Condition(op, nested)])]))
            == WhereText(ctx, Filter([Field(field, [Condition(op, Many(vs))])]))
  {
    var list := Join(MemberTexts(vs), ", ");
    var nested := [Composite(list)];
    assert nested[1..] == [] && [list] + [] == [list];
    assert MemberTexts(nested) == [list];
    OneCondition(ctx, field, Condition(op, Many(nested)));
    OneCondition(ctx, field, Condition(op, Many(vs)));
  }

  lemma OneCondition(ctx: Context, field: string, c: Condition)
    requires |ConditionParts(ctx, field, c)| == 1
    ensures WhereText(ctx, Filter([Field(field, [c])])) == ConditionParts(ctx, field, c)[0]
  {
    var ps := ConditionParts(ctx, field, c);
    assert [c][1..] == [] && ps + [] == ps;
    assert FieldParts(ctx, field, [c]) == ps + FieldParts(ctx, field, []);
    assert ps == [ps[0]];
    OnePart(ctx, Field(field, [c]), ps[0]);
  }
}
