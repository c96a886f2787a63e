/** The text `buildWhereFromFilter` emits, scanned and parsed: every part is one boolean factor
    of the SQL grammar, and the whole text parses to exactly the tree of those factors. */
module FilterText {
  import opened SqlText
  import opened FilterCompiler
  import opened FilterScan
  import opened FilterMatch
  import C = SqlCondition
  import P = SqlParsed
  import opened Wrappers

  // ---------------------------------------------------------------- the tree of a filter

  function RelOpOf(op: Operator): RelOp
    requires IsComparison(op)
  {
    match op
    case Eq => Equal
    case Neq => NotEqual
    case Gt => Greater
    case Gte => GreaterOrEqual
    case Lt => Less
    case Lte => LessOrEqual
  }

  function ConditionFactors(ctx: Context, field: string, c: Condition): seq<C.BooleanFactor> {
    var column := C.Column(ctx.table, field);
    match c.op
    case Unrecognised(_) => []
    case Between =>
      if c.operand.Many? && |c.operand.values| == 2
      then [Atom(C.Between(column, MemberOf(c.operand.values[0]), MemberOf(c.operand.values[1])))]
      else []
    case In => [Atom(C.InList(column, false, MembersOf(ListOf(c.operand))))]
    case NotIn => [Atom(C.InList(column, true, MembersOf(ListOf(c.operand))))]
    case IsNull => [Atom(C.NullTest(column, false))]
    case IsNotNull => [Atom(C.NullTest(column, true))]
    case Contains => [C.Factor(false, C.Match(MatchOf(ctx, field, c.op, TextOf(c.operand))))]
    case StartsWith => [C.Factor(false, C.Match(MatchOf(ctx, field, c.op, TextOf(c.operand))))]
    case EndsWith => [C.Factor(false, C.Match(MatchOf(ctx, field, c.op, TextOf(c.operand))))]
    case _ => [Atom(C.Comparison(column, RelOpOf(c.op), ComparedWith(ctx, field, c.operand)))]
  }

  function FieldFactors(ctx: Context, field: string, cs: seq<Condition>): seq<C.BooleanFactor> {
    if cs == [] then [] else ConditionFactors(ctx, field, cs[0]) + FieldFactors(ctx, field, cs[1..])
  }

  /** `(f1 AND ... AND fn)`. */
  function AndGroup(fs: seq<C.BooleanFactor>): C.Primary { C.Group(C.Disjunction([C.Conjunction(fs)])) }

  function EachAlone(fs: seq<C.BooleanFactor>): (r: seq<C.BooleanTerm>)
    ensures |r| == |fs|
  {
    if fs == [] then [] else [C.Conjunction([fs[0]])] + EachAlone(fs[1..])
  }

  function Factors(ctx: Context, f: Filter): seq<C.BooleanFactor>
    decreases f, 0
  {
    FactorsOf(ctx, f.entries)
  }

  function FactorsOf(ctx: Context, es: seq<Entry>): seq<C.BooleanFactor>
    decreases es, 1
  {
    if es == [] then [] else EntryFactors(ctx, es[0]) + FactorsOf(ctx, es[1..])
  }

  function EntryFactors(ctx: Context, e: Entry): seq<C.BooleanFactor>
    decreases e, 0
  {
    match e
    case And(ms) =>
      var fs := MemberFactors(ctx, ms);
      if fs == [] then [] else [C.Factor(false, AndGroup(fs))]
    case Or(ms) =>
      var fs := MemberFactors(ctx, ms);
      if fs == [] then [] else [C.Factor(false, C.Group(C.Disjunction(EachAlone(fs))))]
    case Not(inner) =>
      var fs := Factors(ctx, inner);
      if fs == [] then [] else [C.Factor(true, AndGroup(fs))]
    case Field(name, cs) => FieldFactors(ctx, name, cs)
    case Shorthand(name, o) => [Atom(C.Comparison(C.Column(ctx.table, name), Equal, ShorthandOf(o)))]
  }

  function MemberFactors(ctx: Context, ms: seq<Filter>): seq<C.BooleanFactor>
    decreases ms, 1
  {
    if ms == [] then [] else
      var fs := Factors(ctx, ms[0]);
      (if fs == [] then [] else [C.Factor(false, AndGroup(fs))]) + MemberFactors(ctx, ms[1..])
  }

  // ---------------------------------------------------------------- what can be printed

  predicate IsComparison(op: Operator) { op in {Eq, Neq, Gt, Gte, Lt, Lte} }

  /** A condition that says nothing: an operator that is not known, or a BETWEEN without a pair. */
  predicate SilentCondition(c: Condition) {
    c.op.Unrecognised? || (c.op == Between && !(c.operand.Many? && |c.operand.values| == 2))
  }

  /** A number compared with must be finite, and the members of a list printable. The other operators do not print
      their value, or quote it. */
  predicate ScannableCondition(c: Condition) {
    if IsComparison(c.op) then IsFinite(c.operand)
    else c.op in {In, NotIn, Between} ==> forall v :: v in ListOf(c.operand) ==> PrintableScalar(v)
  }

  /** The filter's values can be told from the text around them: no field name contains the identifier quote, which
      is not escaped, and no array stands without an operator, where it is not quoted. */
  predicate Scannable(ctx: Context, f: Filter)
    decreases f, 0
  {
    ScannableEntries(ctx, f.entries)
  }

  predicate ScannableEntries(ctx: Context, es: seq<Entry>)
    decreases es, 1
  {
    es != [] ==> ScannableEntry(ctx, es[0]) && ScannableEntries(ctx, es[1..])
  }

  predicate ScannableEntry(ctx: Context, e: Entry)
    decreases e, 0
  {
    match e
    case And(ms) => ScannableMembers(ctx, ms)
    case Or(ms) => ScannableMembers(ctx, ms)
    case Not(inner) => Scannable(ctx, inner)
    case Field(name, cs) => ScannableConditions(ctx, name, cs)
    case Shorthand(name, o) => ctx.quote !in name && o.One? && PrintableScalar(o.value)
  }

  /** What says nothing asks for nothing. */
  predicate ScannableConditions(ctx: Context, name: string, cs: seq<Condition>) {
    forall c :: c in cs && !SilentCondition(c) ==> ctx.quote !in name && ScannableCondition(c)
  }

  predicate ScannableMembers(ctx: Context, ms: seq<Filter>)
    decreases ms, 1
  {
    ms != [] ==> Scannable(ctx, ms[0]) && ScannableMembers(ctx, ms[1..])
  }

  /** IN and NOT IN need a member. */
  predicate HasMembers(c: Condition) { (c.op == In || c.op == NotIn) ==> ListOf(c.operand) != [] }

  /** No IN or NOT IN list anywhere in the filter is empty. */
  predicate NoEmptyList(f: Filter)
    decreases f, 0
  {
    NoEmptyListIn(f.entries)
  }

  predicate NoEmptyListIn(es: seq<Entry>)
    decreases es, 1
  {
    es != [] ==> NoEmptyListAt(es[0]) && NoEmptyListIn(es[1..])
  }

  predicate NoEmptyListAt(e: Entry)
    decreases e, 0
  {
    match e
    case And(ms) => NoEmptyListAmong(ms)
    case Or(ms) => NoEmptyListAmong(ms)
    case Not(inner) => NoEmptyList(inner)
    case Field(_, cs) => forall c :: c in cs ==> HasMembers(c)
    case Shorthand(_, _) => true
  }

  predicate NoEmptyListAmong(ms: seq<Filter>)
    decreases ms, 1
  {
    ms != [] ==> NoEmptyList(ms[0]) && NoEmptyListAmong(ms[1..])
  }

  // ---------------------------------------------------------------- scanning lists of parts

  ghost predicate PartsReadAs(parts: seq<string>, fs: seq<C.BooleanFactor>, q: char) {
    |parts| == |fs| && forall i :: 0 <= i < |parts| ==> PartReadsAs(parts[i], fs[i], q)
  }

  lemma {:induction false} AndJoinReadsAs(parts: seq<string>, fs: seq<C.BooleanFactor>, q: char)
    requires IsIdentifierQuote(q) && parts != [] && PartsReadAs(parts, fs, q)
    ensures ReadsAs(Join(parts, " AND "), C.FactorsTokens(fs), q)
  {
    assert PartReadsAs(parts[0], fs[0], q);
    if |parts| > 1 {
      AndJoinReadsAs(parts[1..], fs[1..], q);
      AndReads(q);
      ReadsAsSequence(parts[0], C.FactorTokens(fs[0]), " AND ", [Word("AND")], Join(parts[1..], " AND "),
                      C.FactorsTokens(fs[1..]), q);
    }
  }

  lemma {:induction false} OrJoinReadsAs(parts: seq<string>, fs: seq<C.BooleanFactor>, q: char)
    requires IsIdentifierQuote(q) && parts != [] && PartsReadAs(parts, fs, q)
    ensures ReadsAs(Join(parts, " OR "), C.TermsTokens(EachAlone(fs)), q)
  {
    assert PartReadsAs(parts[0], fs[0], q);
    assert C.FactorsTokens([fs[0]]) == C.FactorTokens(fs[0]);
    if |parts| > 1 {
      OrJoinReadsAs(parts[1..], fs[1..], q);
      OrReads(q);
      assert EachAlone(fs)[1..] == EachAlone(fs[1..]);
      ReadsAsSequence(parts[0], C.FactorTokens(fs[0]), " OR ", [Word("OR")], Join(parts[1..], " OR "),
                      C.TermsTokens(EachAlone(fs)[1..]), q);
    }
  }

  lemma AndGroupReadsAs(parts: seq<string>, fs: seq<C.BooleanFactor>, q: char)
    requires IsIdentifierQuote(q) && parts != [] && PartsReadAs(parts, fs, q)
    ensures PartReadsAs(Parenthesised(parts, " AND "), C.Factor(false, AndGroup(fs)), q)
    ensures PartReadsAs("NOT " + Parenthesised(parts, " AND "), C.Factor(true, AndGroup(fs)), q)
  {
    AndJoinReadsAs(parts, fs, q);
    OpenReads(q);
    NotOpenReads(q);
    var text, ts := Join(parts, " AND "), C.FactorsTokens(fs);
    ReadsAsParenthesised("(", [LeftParen], text, ts, q);
    ReadsAsParenthesised("NOT (", [Word("NOT"), LeftParen], text, ts, q);
    assert C.TermsTokens([C.Conjunction(fs)]) == ts;
    NotTextSplits(text);
    NotTokensSplit(ts);
  }

  lemma NotTextSplits(text: string)
    ensures "NOT " + ("(" + text + ")") == "NOT (" + text + ")"
  {
  }

  lemma NotTokensSplit(ts: seq<Token>)
    ensures [Word("NOT"), LeftParen] + ts + [RightParen] == [Word("NOT")] + ([LeftParen] + ts + [RightParen])
    ensures [] + ([LeftParen] + ts + [RightParen]) == [LeftParen] + ts + [RightParen]
  {
  }

  lemma OrGroupReadsAs(parts: seq<string>, fs: seq<C.BooleanFactor>, q: char)
    requires IsIdentifierQuote(q) && parts != [] && PartsReadAs(parts, fs, q)
    ensures PartReadsAs(Parenthesised(parts, " OR "), C.Factor(false, C.Group(C.Disjunction(EachAlone(fs)))), q)
  {
    OrJoinReadsAs(parts, fs, q);
    OpenReads(q);
    ReadsAsParenthesised("(", [LeftParen], Join(parts, " OR "), C.TermsTokens(EachAlone(fs)), q);
    NotTokensSplit(C.TermsTokens(EachAlone(fs)));
  }

  lemma PartsReadAsAppend(p1: seq<string>, f1: seq<C.BooleanFactor>, p2: seq<string>, f2: seq<C.BooleanFactor>, q: char)
    requires PartsReadAs(p1, f1, q) && PartsReadAs(p2, f2, q)
    ensures PartsReadAs(p1 + p2, f1 + f2, q)
  {
  }

  // ---------------------------------------------------------------- every part of a filter

  lemma ConditionReadsAs(ctx: Context, field: string, c: Condition)
    requires PrintableContext(ctx) && (SilentCondition(c) || (ctx.quote !in field && ScannableCondition(c)))
    ensures PartsReadAs(ConditionParts(ctx, field, c), ConditionFactors(ctx, field, c), ctx.quote)
  {
    match c.op
    case In => InReadsAs(ctx, field, false, ListOf(c.operand));
    case NotIn => InReadsAs(ctx, field, true, ListOf(c.operand));
    case IsNull => NullTestReadsAs(ctx, field, false);
    case IsNotNull => NullTestReadsAs(ctx, field, true);
    case Between =>
      if c.operand.Many? && |c.operand.values| == 2 {
        BetweenReadsAs(ctx, field, c.operand.values[0], c.operand.values[1]);
      }
    case Unrecognised(_) =>
    case _ =>
      if IsSearch(c.op) {
        MatchReadsAs(ctx, field, c.op, TextOf(c.operand));
      } else {
        ComparedReadsAs(ctx, field, c);
      }
  }

  lemma ComparedReadsAs(ctx: Context, field: string, c: Condition)
    requires PrintableContext(ctx) && ctx.quote !in field && ScannableCondition(c) && IsComparison(c.op)
    ensures PartsReadAs(ConditionParts(ctx, field, c), ConditionFactors(ctx, field, c), ctx.quote)
  {
    OperandReadsAs(ctx, field, c.operand);
    var v := OperandText(ctx, field, c.operand);
    ComparisonTextIs(QuotedField(ctx, field), c.op, v);
    ComparisonReadsAs(ctx, field, RelOpOf(c.op), ComparedWith(ctx, field, c.operand), v,
                      QuotedField(ctx, field) + (" " + RelationText(RelOpOf(c.op)) + " ") + v);
  }

  lemma ComparisonTextIs(f: string, op: Operator, v: string)
    requires IsComparison(op)
    ensures f + (" " + RelationText(RelOpOf(op)) + " ") + v ==
            f + (match op
                 case Eq => " = "
                 case Neq => " != "
                 case Gt => " > "
                 case Gte => " >= "
                 case Lt => " < "
                 case _ => " <= ") + v
  {
  }

  lemma {:induction false} FieldPartsReadAs(ctx: Context, field: string, cs: seq<Condition>)
    requires PrintableContext(ctx) && ScannableConditions(ctx, field, cs)
    ensures PartsReadAs(FieldParts(ctx, field, cs), FieldFactors(ctx, field, cs), ctx.quote)
  {
    if cs != [] {
      ConditionReadsAs(ctx, field, cs[0]);
      FieldPartsReadAs(ctx, field, cs[1..]);
      PartsReadAsAppend(ConditionParts(ctx, field, cs[0]), ConditionFactors(ctx, field, cs[0]),
                        FieldParts(ctx, field, cs[1..]), FieldFactors(ctx, field, cs[1..]), ctx.quote);
    }
  }

  lemma {:induction false} FilterReadsAs(ctx: Context, f: Filter)
    requires PrintableContext(ctx) && Scannable(ctx, f)
    ensures PartsReadAs(Parts(ctx, f), Factors(ctx, f), ctx.quote)
    decreases f, 0
  {
    EntriesReadAs(ctx, f.entries);
  }

  lemma {:induction false} EntriesReadAs(ctx: Context, es: seq<Entry>)
    requires PrintableContext(ctx) && ScannableEntries(ctx, es)
    ensures PartsReadAs(PartsOf(ctx, es), FactorsOf(ctx, es), ctx.quote)
    decreases es, 1
  {
    if es != [] {
      EntryReadsAs(ctx, es[0]);
      EntriesReadAs(ctx, es[1..]);
      PartsReadAsAppend(EntryParts(ctx, es[0]), EntryFactors(ctx, es[0]), PartsOf(ctx, es[1..]),
                        FactorsOf(ctx, es[1..]), ctx.quote);
    }
  }

  lemma {:induction false} EntryReadsAs(ctx: Context, e: Entry)
    requires PrintableContext(ctx) && ScannableEntry(ctx, e)
    ensures PartsReadAs(EntryParts(ctx, e), EntryFactors(ctx, e), ctx.quote)
    decreases e, 0
  {
    match e
    case And(ms) =>
      MembersReadAs(ctx, ms);
      if MemberParts(ctx, ms) != [] { AndGroupReadsAs(MemberParts(ctx, ms), MemberFactors(ctx, ms), ctx.quote); }
    case Or(ms) =>
      MembersReadAs(ctx, ms);
      if MemberParts(ctx, ms) != [] { OrGroupReadsAs(MemberParts(ctx, ms), MemberFactors(ctx, ms), ctx.quote); }
    case Not(inner) =>
      FilterReadsAs(ctx, inner);
      if Parts(ctx, inner) != [] { AndGroupReadsAs(Parts(ctx, inner), Factors(ctx, inner), ctx.quote); }
    case Field(name, cs) => FieldPartsReadAs(ctx, name, cs);
    case Shorthand(name, o) =>
      MemberReadsAs(o.value, ctx.quote);
      ComparisonTextIs(QuotedField(ctx, name), Eq, ShorthandText(o));
      ComparisonReadsAs(ctx, name, Equal, MemberOf(o.value), ShorthandText(o),
                        QuotedField(ctx, name) + " = " + ShorthandText(o));
  }

  lemma {:induction false} MembersReadAs(ctx: Context, ms: seq<Filter>)
    requires PrintableContext(ctx) && ScannableMembers(ctx, ms)
    ensures PartsReadAs(MemberParts(ctx, ms), MemberFactors(ctx, ms), ctx.quote)
    decreases ms, 1
  {
    if ms != [] {
      FilterReadsAs(ctx, ms[0]);
      MembersReadAs(ctx, ms[1..]);
      var ps, fs := Parts(ctx, ms[0]), Factors(ctx, ms[0]);
      if ps != [] { AndGroupReadsAs(ps, fs, ctx.quote); }
      PartsReadAsAppend(if ps == [] then [] else [Parenthesised(ps, " AND ")], if fs == [] then []
                        else [C.Factor(false, AndGroup(fs))],
                        MemberParts(ctx, ms[1..]), MemberFactors(ctx, ms[1..]), ctx.quote);
    }
  }

  // ---------------------------------------------------------------- the factors are well-formed

  lemma WellFormedAppend(f1: seq<C.BooleanFactor>, f2: seq<C.BooleanFactor>)
    requires f1 == [] || C.WellFormedFactors(f1)
    requires f2 == [] || C.WellFormedFactors(f2)
    ensures f1 + f2 == [] || C.WellFormedFactors(f1 + f2)
    decreases |f1|
  {
    if f1 == [] {
      assert f1 + f2 == f2;
    } else {
      assert (f1 + f2)[1..] == f1[1..] + f2;
      WellFormedAppend(f1[1..], f2);
    }
  }

  lemma {:induction false} EachAloneIsWellFormed(fs: seq<C.BooleanFactor>)
    requires C.WellFormedFactors(fs)
    ensures C.WellFormedTerms(EachAlone(fs))
  {
    assert C.WellFormedFactors([fs[0]]);
    if |fs| > 1 {
      EachAloneIsWellFormed(fs[1..]);
      assert EachAlone(fs)[1..] == EachAlone(fs[1..]);
    }
  }

  lemma {:induction false} FieldFactorsAreWellFormed(ctx: Context, field: string, cs: seq<Condition>)
    requires forall c :: c in cs ==> HasMembers(c)
    ensures FieldFactors(ctx, field, cs) == [] || C.WellFormedFactors(FieldFactors(ctx, field, cs))
  {
    if cs != [] {
      FieldFactorsAreWellFormed(ctx, field, cs[1..]);
      assert HasMembers(cs[0]);
      if IsSearch(cs[0].op) { MatchIsWellFormed(ctx, field, cs[0].op, TextOf(cs[0].operand)); }
      WellFormedAppend(ConditionFactors(ctx, field, cs[0]), FieldFactors(ctx, field, cs[1..]));
    }
  }

  lemma {:induction false} FactorsAreWellFormed(ctx: Context, f: Filter)
    requires NoEmptyList(f)
    ensures Factors(ctx, f) == [] || C.WellFormedFactors(Factors(ctx, f))
    decreases f, 0
  {
    EntriesAreWellFormed(ctx, f.entries);
  }

  lemma {:induction false} EntriesAreWellFormed(ctx: Context, es: seq<Entry>)
    requires NoEmptyListIn(es)
    ensures FactorsOf(ctx, es) == [] || C.WellFormedFactors(FactorsOf(ctx, es))
    decreases es, 1
  {
    if es != [] {
      EntryIsWellFormed(ctx, es[0]);
      EntriesAreWellFormed(ctx, es[1..]);
      WellFormedAppend(EntryFactors(ctx, es[0]), FactorsOf(ctx, es[1..]));
    }
  }

  lemma GroupIsWellFormed(negated: bool, fs: seq<C.BooleanFactor>)
    requires C.WellFormedFactors(fs)
    ensures C.WellFormedFactors([C.Factor(negated, AndGroup(fs))])
  {
    assert C.WellFormedTerms([C.Conjunction(fs)]);
    assert C.WellFormedFactor(C.Factor(negated, AndGroup(fs)));
  }

  lemma {:induction false} EntryIsWellFormed(ctx: Context, e: Entry)
    requires NoEmptyListAt(e)
    ensures EntryFactors(ctx, e) == [] || C.WellFormedFactors(EntryFactors(ctx, e))
    decreases e, 0
  {
    match e
    case And(ms) =>
      MembersAreWellFormed(ctx, ms);
      if MemberFactors(ctx, ms) != [] { GroupIsWellFormed(false, MemberFactors(ctx, ms)); }
    case Or(ms) =>
      MembersAreWellFormed(ctx, ms);
      if MemberFactors(ctx, ms) != [] {
        EachAloneIsWellFormed(MemberFactors(ctx, ms));
        assert C.WellFormedFactor(C.Factor(false, C.Group(C.Disjunction(EachAlone(MemberFactors(ctx, ms))))));
      }
    case Not(inner) =>
      FactorsAreWellFormed(ctx, inner);
      if Factors(ctx, inner) != [] { GroupIsWellFormed(true, Factors(ctx, inner)); }
    case Field(name, cs) => FieldFactorsAreWellFormed(ctx, name, cs);
    case Shorthand(_, _) =>
  }

  lemma {:induction false} MembersAreWellFormed(ctx: Context, ms: seq<Filter>)
    requires NoEmptyListAmong(ms)
    ensures MemberFactors(ctx, ms) == [] || C.WellFormedFactors(MemberFactors(ctx, ms))
    decreases ms, 1
  {
    if ms != [] {
      FactorsAreWellFormed(ctx, ms[0]);
      MembersAreWellFormed(ctx, ms[1..]);
      var fs := Factors(ctx, ms[0]);
      if fs != [] { GroupIsWellFormed(false, fs); }
      WellFormedAppend(if fs == [] then [] else [C.Factor(false, AndGroup(fs))], MemberFactors(ctx, ms[1..]));
    }
  }

  // ---------------------------------------------------------------- the whole clause

  /** The emitted text is scanned as the tokens of the filter's factors, whether or not these form a condition. */
  lemma ClauseReadsAs(ctx: Context, f: Filter)
    requires PrintableContext(ctx) && Scannable(ctx, f) && Parts(ctx, f) != []
    ensures Lex(WhereText(ctx, f), ctx.quote) == Some(C.FactorsTokens(Factors(ctx, f)))
  {
    FilterReadsAs(ctx, f);
    var fs := Factors(ctx, f);
    AndJoinReadsAs(Parts(ctx, f), fs, ctx.quote);
    ReadsAsWhole(WhereText(ctx, f), C.FactorsTokens(fs), ctx.quote);
  }

  /** At any nesting depth it is parsed by SQL's precedence to exactly the tree of the factors, provided no list is
      empty. */
  lemma TextParsesToTree(ctx: Context, f: Filter)
    requires PrintableContext(ctx) && Scannable(ctx, f) && NoEmptyList(f) && Parts(ctx, f) != []
    ensures C.Parse(WhereText(ctx, f), ctx.quote) == Some(C.Disjunction([C.Conjunction(Factors(ctx, f))]))
  {
    ClauseReadsAs(ctx, f);
    FilterReadsAs(ctx, f);
    FactorsAreWellFormed(ctx, f);
    var fs := Factors(ctx, f);
    assert C.TermsTokens([C.Conjunction(fs)]) == C.FactorsTokens(fs);
    assert C.WellFormedTerms([C.Conjunction(fs)]);
    C.ParseReadsBack(WhereText(ctx, f), ctx.quote, C.Disjunction([C.Conjunction(fs)]));
  }

  // ---------------------------------------------------------------- empty lists

  /** A factor whose tokens contain `( )`. */
  ghost predicate Blank(fs: seq<C.BooleanFactor>) {
    exists i :: 0 <= i < |fs| && P.HasEmptyParens(C.FactorTokens(fs[i]))
  }

  lemma BlankAppend(a: seq<C.BooleanFactor>, b: seq<C.BooleanFactor>)
    ensures Blank(a) || Blank(b) ==> Blank(a + b)
  {
    if Blank(a) {
      var i :| 0 <= i < |a| && P.HasEmptyParens(C.FactorTokens(a[i]));
      assert (a + b)[i] == a[i];
    } else if Blank(b) {
      var i :| 0 <= i < |b| && P.HasEmptyParens(C.FactorTokens(b[i]));
      assert (a + b)[|a| + i] == b[i];
    }
  }

  lemma {:induction false} BlankShowsInAnd(fs: seq<C.BooleanFactor>)
    requires Blank(fs)
    ensures P.HasEmptyParens(C.FactorsTokens(fs))
  {
    var i :| 0 <= i < |fs| && P.HasEmptyParens(C.FactorTokens(fs[i]));
    if |fs| > 1 {
      var first, later := C.FactorTokens(fs[0]), C.FactorsTokens(fs[1..]);
      if i == 0 {
        P.EmptyParensInside([], first, [Word("AND")] + later);
        assert [] + first + ([Word("AND")] + later) == first + [Word("AND")] + later;
      } else {
        assert fs[1..][i - 1] == fs[i];
        BlankShowsInAnd(fs[1..]);
        P.EmptyParensInside(first + [Word("AND")], later, []);
        assert first + [Word("AND")] + later + [] == first + [Word("AND")] + later;
      }
    }
  }

  lemma {:induction false} BlankShowsInOr(fs: seq<C.BooleanFactor>)
    requires Blank(fs)
    ensures P.HasEmptyParens(C.TermsTokens(EachAlone(fs)))
  {
    var i :| 0 <= i < |fs| && P.HasEmptyParens(C.FactorTokens(fs[i]));
    var first := C.FactorTokens(fs[0]);
    assert C.FactorsTokens([fs[0]]) == first;
    if |fs| > 1 {
      var later := C.TermsTokens(EachAlone(fs[1..]));
      assert EachAlone(fs)[1..] == EachAlone(fs[1..]);
      if i == 0 {
        P.EmptyParensInside([], first, [Word("OR")] + later);
        assert [] + first + ([Word("OR")] + later) == first + [Word("OR")] + later;
      } else {
        assert fs[1..][i - 1] == fs[i];
        BlankShowsInOr(fs[1..]);
        P.EmptyParensInside(first + [Word("OR")], later, []);
        assert first + [Word("OR")] + later + [] == first + [Word("OR")] + later;
      }
    }
  }

  lemma BlankGroup(negated: bool, fs: seq<C.BooleanFactor>)
    requires Blank(fs)
    ensures Blank([C.Factor(negated, AndGroup(fs))]) && Blank([C.Factor(false, C.Group(C.Disjunction(EachAlone(fs))))])
  {
    BlankShowsInAnd(fs);
    BlankShowsInOr(fs);
    var not := if negated then [Word("NOT")] else [];
    assert C.TermsTokens([C.Conjunction(fs)]) == C.FactorsTokens(fs);
    P.EmptyParensInside(not + [LeftParen], C.FactorsTokens(fs), [RightParen]);
    assert C.FactorTokens(C.Factor(negated, AndGroup(fs))) == not + [LeftParen] + C.FactorsTokens(fs) + [RightParen];
    assert P.HasEmptyParens(C.FactorTokens([C.Factor(negated, AndGroup(fs))][0]));
    var either := C.Factor(false, C.Group(C.Disjunction(EachAlone(fs))));
    P.EmptyParensInside([LeftParen], C.TermsTokens(EachAlone(fs)), [RightParen]);
    assert C.FactorTokens(either) == [LeftParen] + C.TermsTokens(EachAlone(fs)) + [RightParen];
    assert P.HasEmptyParens(C.FactorTokens([either][0]));
  }

  lemma EmptyListIsBlank(ctx: Context, field: string, c: Condition)
    requires !HasMembers(c)
    ensures Blank(ConditionFactors(ctx, field, c))
  {
    var p := C.InList(C.Column(ctx.table, field), c.op == NotIn, []);
    var head := [Identifier(ctx.table), Period, Identifier(field), C.TestHead(p)] +
      (if c.op == NotIn then [Word("IN")] else []);
    var pair := [LeftParen, RightParen];
    assert pair[0] == LeftParen && pair[0 + 1] == RightParen;
    P.EmptyParensInside(head, pair, []);
    assert C.FactorTokens(Atom(p)) == head + pair + [];
    assert ConditionFactors(ctx, field, c)[0] == Atom(p);
  }

  lemma {:induction false} FieldShowsEmptyList(ctx: Context, field: string, cs: seq<Condition>)
    requires exists c :: c in cs && !HasMembers(c)
    ensures Blank(FieldFactors(ctx, field, cs))
  {
    if HasMembers(cs[0]) {
      assert exists c :: c in cs[1..] && !HasMembers(c);
      FieldShowsEmptyList(ctx, field, cs[1..]);
    } else {
      EmptyListIsBlank(ctx, field, cs[0]);
    }
    BlankAppend(ConditionFactors(ctx, field, cs[0]), FieldFactors(ctx, field, cs[1..]));
  }

  lemma {:induction false} FilterShowsEmptyList(ctx: Context, f: Filter)
    requires !NoEmptyList(f)
    ensures Blank(Factors(ctx, f))
    decreases f, 0
  {
    EntriesShowEmptyList(ctx, f.entries);
  }

  lemma {:induction false} EntriesShowEmptyList(ctx: Context, es: seq<Entry>)
    requires !NoEmptyListIn(es)
    ensures Blank(FactorsOf(ctx, es))
    decreases es, 1
  {
    if NoEmptyListAt(es[0]) {
      EntriesShowEmptyList(ctx, es[1..]);
    } else {
      EntryShowsEmptyList(ctx, es[0]);
    }
    BlankAppend(EntryFactors(ctx, es[0]), FactorsOf(ctx, es[1..]));
  }

  lemma {:induction false} EntryShowsEmptyList(ctx: Context, e: Entry)
    requires !NoEmptyListAt(e)
    ensures Blank(EntryFactors(ctx, e))
    decreases e, 0
  {
    match e
    case And(ms) => MembersShowEmptyList(ctx, ms); BlankGroup(false, MemberFactors(ctx, ms));
    case Or(ms) => MembersShowEmptyList(ctx, ms); BlankGroup(false, MemberFactors(ctx, ms));
    case Not(inner) => FilterShowsEmptyList(ctx, inner); BlankGroup(true, Factors(ctx, inner));
    case Field(name, cs) => FieldShowsEmptyList(ctx, name, cs);
  }

  lemma {:induction false} MembersShowEmptyList(ctx: Context, ms: seq<Filter>)
    requires !NoEmptyListAmong(ms)
    ensures Blank(MemberFactors(ctx, ms))
    decreases ms, 1
  {
    var fs := Factors(ctx, ms[0]);
    if NoEmptyList(ms[0]) {
      MembersShowEmptyList(ctx, ms[1..]);
    } else {
      FilterShowsEmptyList(ctx, ms[0]);
      BlankGroup(false, fs);
    }
    BlankAppend(if fs == [] then [] else [C.Factor(false, AndGroup(fs))], MemberFactors(ctx, ms[1..]));
  }

  /** The emitted text is a search condition if and only if no IN or NOT IN list anywhere in the filter is empty. */
  lemma ParsesIffNoEmptyList(ctx: Context, f: Filter)
    requires PrintableContext(ctx) && Scannable(ctx, f) && Parts(ctx, f) != []
    ensures C.Parse(WhereText(ctx, f), ctx.quote).Some? <==> NoEmptyList(f)
  {
    if NoEmptyList(f) {
      TextParsesToTree(ctx, f);
    } else {
      ClauseReadsAs(ctx, f);
      FilterShowsEmptyList(ctx, f);
      BlankShowsInAnd(Factors(ctx, f));
      P.ParsedHasNoEmptyParens(WhereText(ctx, f), ctx.quote);
    }
  }
}
