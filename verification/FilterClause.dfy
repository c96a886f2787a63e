/** What the clause that `buildWhereFromFilter` emits is true of. Every filter takes effect as another one, in which
    what says nothing is dropped at any depth and what is not told apart is made plain: on every row the clause is
    true, false or unknown exactly when that one is. For a well-formed filter it is the filter itself. */
module FilterClause {
  import opened SqlText
  import opened FilterCompiler
  import opened FilterScan
  import opened FilterMatch
  import opened FilterText
  import opened FilterMeaning
  import C = SqlCondition
  import opened Wrappers

  /** The truth of the emitted clause on a row: no clause is true of every row, and a text that
      is no search condition has no truth value. */
  function ClauseTruth(ctx: Context, f: Filter, row: C.Row, sem: C.Semantics): Option<C.Truth> {
    if Parts(ctx, f) == [] then Some(C.True) else
      match C.Parse(WhereText(ctx, f), ctx.quote)
      case None => None
      case Some(condition) => Some(C.Eval(condition, row, sem))
  }

  /** The clause of a filter without empty lists is the conjunction of its factors. */
  lemma ClauseIsTree(ctx: Context, f: Filter, row: C.Row, sem: C.Semantics)
    requires PrintableContext(ctx) && Scannable(ctx, f) && NoEmptyList(f)
    ensures ClauseTruth(ctx, f, row, sem) == Some(C.EvalFactors(Factors(ctx, f), row, sem))
  {
    FactorsAreAsManyAsParts(ctx, f);
    if Parts(ctx, f) != [] {
      TextParsesToTree(ctx, f);
      AndGroupEvaluates(false, Factors(ctx, f), row, sem);
      assert C.EvalFactor(C.Factor(false, AndGroup(Factors(ctx, f))), row, sem)
          == C.EvalTerms([C.Conjunction(Factors(ctx, f))], row, sem);
    }
  }

  // ---------------------------------------------------------------- what takes effect

  /** A null test counts as one for `true`, and a comparison with a list as one with its text. */
  function EffectiveCondition(c: Condition): Condition {
    if c.op == IsNull || c.op == IsNotNull then Condition(c.op, One(Bool(true)))
    else if IsComparison(c.op) then Condition(c.op, One(EffectiveValue(c.operand)))
    else c
  }

  function EffectiveValue(o: Operand): Scalar { if o.Many? then Composite(ArrayText(o.values)) else o.value }

  function EffectiveConditions(cs: seq<Condition>): seq<Condition> {
    if cs == [] then []
    else if SilentCondition(cs[0]) then EffectiveConditions(cs[1..])
    else [EffectiveCondition(cs[0])] + EffectiveConditions(cs[1..])
  }

  function Effective(f: Filter): Filter
    decreases f, 0
  {
    Filter(EffectiveEntries(f.entries))
  }

  function EffectiveEntries(es: seq<Entry>): seq<Entry>
    decreases es, 1
  {
    if es == [] then []
    else if SilentEntry(es[0]) then EffectiveEntries(es[1..])
    else [EffectiveEntry(es[0])] + EffectiveEntries(es[1..])
  }

  function EffectiveEntry(e: Entry): Entry
    decreases e, 0
  {
    match e
    case And(ms) => And(EffectiveMembers(ms))
    case Or(ms) => Or(EffectiveMembers(ms))
    case Not(inner) => Not(Effective(inner))
    case Field(name, cs) => Field(name, EffectiveConditions(cs))
    case Shorthand(name, o) => Shorthand(name, One(EffectiveValue(o)))
  }

  function EffectiveMembers(ms: seq<Filter>): seq<Filter>
    decreases ms, 1
  {
    if ms == [] then []
    else if Silent(ms[0]) then EffectiveMembers(ms[1..])
    else [Effective(ms[0])] + EffectiveMembers(ms[1..])
  }

  /** It compiles to the same factors. */
  lemma {:induction false} EffectiveKeepsFactors(ctx: Context, f: Filter)
    ensures Factors(ctx, Effective(f)) == Factors(ctx, f)
    decreases f, 0
  {
    EffectiveKeepsEntryFactors(ctx, f.entries);
  }

  lemma {:induction false} EffectiveKeepsEntryFactors(ctx: Context, es: seq<Entry>)
    ensures FactorsOf(ctx, EffectiveEntries(es)) == FactorsOf(ctx, es)
    decreases es, 1
  {
    if es != [] {
      EffectiveKeepsEntryFactors(ctx, es[1..]);
      if SilentEntry(es[0]) {
        NoEntryEmittedIffSilent(ctx, es[0]);
        OneEntryFactorsAreAsMany(ctx, es[0]);
        assert [] + FactorsOf(ctx, es[1..]) == FactorsOf(ctx, es[1..]);
      } else {
        EffectiveKeepsOneEntry(ctx, es[0]);
        var rest := EffectiveEntries(es[1..]);
        assert ([EffectiveEntry(es[0])] + rest)[1..] == rest;
      }
    }
  }

  lemma {:induction false} EffectiveKeepsOneEntry(ctx: Context, e: Entry)
    ensures EntryFactors(ctx, EffectiveEntry(e)) == EntryFactors(ctx, e)
    decreases e, 0
  {
    match e
    case And(ms) => EffectiveKeepsMemberFactors(ctx, ms);
    case Or(ms) => EffectiveKeepsMemberFactors(ctx, ms);
    case Not(inner) => EffectiveKeepsFactors(ctx, inner);
    case Field(name, cs) => EffectiveKeepsFieldFactors(ctx, name, cs);
    case Shorthand(_, _) =>
  }

  lemma {:induction false} EffectiveKeepsFieldFactors(ctx: Context, field: string, cs: seq<Condition>)
    ensures FieldFactors(ctx, field, EffectiveConditions(cs)) == FieldFactors(ctx, field, cs)
  {
    if cs != [] {
      EffectiveKeepsFieldFactors(ctx, field, cs[1..]);
      if SilentCondition(cs[0]) {
        assert [] + FieldFactors(ctx, field, cs[1..]) == FieldFactors(ctx, field, cs[1..]);
      } else {
        var rest := EffectiveConditions(cs[1..]);
        assert ([EffectiveCondition(cs[0])] + rest)[1..] == rest;
        assert ConditionFactors(ctx, field, EffectiveCondition(cs[0])) == ConditionFactors(ctx, field, cs[0]);
      }
    }
  }

  lemma {:induction false} EffectiveKeepsMemberFactors(ctx: Context, ms: seq<Filter>)
    ensures MemberFactors(ctx, EffectiveMembers(ms)) == MemberFactors(ctx, ms)
    decreases ms, 1
  {
    if ms != [] {
      EffectiveKeepsMemberFactors(ctx, ms[1..]);
      NoFactorsIffSilent(ctx, ms[0]);
      if Silent(ms[0]) {
        assert [] + MemberFactors(ctx, ms[1..]) == MemberFactors(ctx, ms[1..]);
      } else {
        EffectiveKeepsFactors(ctx, ms[0]);
        var rest := EffectiveMembers(ms[1..]);
        assert ([Effective(ms[0])] + rest)[1..] == rest;
      }
    }
  }

  lemma EffectiveIsSilentIff(ctx: Context, f: Filter)
    ensures Silent(Effective(f)) <==> Silent(f)
  {
    EffectiveKeepsFactors(ctx, f);
    NoFactorsIffSilent(ctx, f);
    NoFactorsIffSilent(ctx, Effective(f));
  }

  /** It is well-formed. */
  lemma {:induction false} EffectiveIsWellFormed(ctx: Context, f: Filter)
    ensures WellFormed(Effective(f))
    decreases f, 0
  {
    EffectiveEntriesAreWellFormed(ctx, f.entries);
  }

  lemma {:induction false} EffectiveEntriesAreWellFormed(ctx: Context, es: seq<Entry>)
    ensures WellFormedEntries(EffectiveEntries(es))
    decreases es, 1
  {
    if es != [] {
      EffectiveEntriesAreWellFormed(ctx, es[1..]);
      if !SilentEntry(es[0]) {
        EffectiveEntryIsWellFormed(ctx, es[0]);
        var rest := EffectiveEntries(es[1..]);
        assert ([EffectiveEntry(es[0])] + rest)[1..] == rest;
      }
    }
  }

  lemma {:induction false} EffectiveEntryIsWellFormed(ctx: Context, e: Entry)
    requires !SilentEntry(e)
    ensures WellFormedEntry(EffectiveEntry(e))
    decreases e, 0
  {
    match e
    case And(ms) => EffectiveMembersAreWellFormed(ctx, ms);
    case Or(ms) => EffectiveMembersAreWellFormed(ctx, ms);
    case Not(inner) => EffectiveIsWellFormed(ctx, inner); EffectiveIsSilentIff(ctx, inner);
    case Field(_, cs) => EffectiveConditionsAreWellFormed(cs);
    case Shorthand(_, _) =>
  }

  lemma {:induction false} EffectiveConditionsAreWellFormed(cs: seq<Condition>)
    ensures forall c :: c in EffectiveConditions(cs) ==> WellFormedCondition(c)
  {
    if cs != [] {
      EffectiveConditionsAreWellFormed(cs[1..]);
      assert WellFormedCondition(EffectiveCondition(cs[0]));
    }
  }

  lemma {:induction false} EffectiveMembersAreWellFormed(ctx: Context, ms: seq<Filter>)
    ensures WellFormedMembers(EffectiveMembers(ms)) && NoneSilent(EffectiveMembers(ms))
    ensures EffectiveMembers(ms) == [] <==> SilentMembers(ms)
    decreases ms, 1
  {
    if ms != [] {
      EffectiveMembersAreWellFormed(ctx, ms[1..]);
      if !Silent(ms[0]) {
        EffectiveIsWellFormed(ctx, ms[0]);
        EffectiveIsSilentIff(ctx, ms[0]);
        var rest := EffectiveMembers(ms[1..]);
        assert ([Effective(ms[0])] + rest)[1..] == rest;
      }
    }
  }

  // ---------------------------------------------------------------- the clause means the filter

  /** The factors of every filter mean what takes effect of it, and those of a condition what takes effect of that. */
  lemma TreeMeansEffective(ctx: Context, f: Filter, row: C.Row, sem: C.Semantics)
    ensures C.EvalFactors(Factors(ctx, f), row, sem) == Meaning(ctx, Effective(f), row, sem)
  {
    EffectiveKeepsFactors(ctx, f);
    EffectiveIsWellFormed(ctx, f);
    TreeMeansFilter(ctx, Effective(f), row, sem);
  }

  lemma ConditionMeansEffective(ctx: Context, field: string, c: Condition, row: C.Row, sem: C.Semantics)
    ensures C.EvalFactors(ConditionFactors(ctx, field, c), row, sem)
         == if SilentCondition(c) then C.True else ConditionMeaning(ctx, field, EffectiveCondition(c), row, sem)
  {
    if !SilentCondition(c) {
      assert ConditionFactors(ctx, field, EffectiveCondition(c)) == ConditionFactors(ctx, field, c);
      ConditionEvaluates(ctx, field, EffectiveCondition(c), row, sem);
    }
  }

  /** For every filter whose text can be told from the text around it, and every row: the clause has a truth value if
      and only if no list is empty, and that is the meaning of the filter that takes effect. */
  lemma ClauseMeansEffective(ctx: Context, f: Filter, row: C.Row, sem: C.Semantics)
    requires PrintableContext(ctx) && Scannable(ctx, f)
    ensures ClauseTruth(ctx, f, row, sem) == if NoEmptyList(f) then Some(Meaning(ctx, Effective(f), row, sem)) else None
  {
    if NoEmptyList(f) {
      ClauseIsTree(ctx, f, row, sem);
      TreeMeansEffective(ctx, f, row, sem);
    } else if Parts(ctx, f) == [] {
      FactorsAreAsManyAsParts(ctx, f);
      FilterShowsEmptyList(ctx, f);
      assert false;
    } else {
      ParsesIffNoEmptyList(ctx, f);
    }
  }

  /** A well-formed filter means what takes effect. */
  lemma EffectiveMeansSame(ctx: Context, f: Filter, row: C.Row, sem: C.Semantics)
    requires WellFormed(f)
    ensures Meaning(ctx, Effective(f), row, sem) == Meaning(ctx, f, row, sem)
  {
    TreeMeansEffective(ctx, f, row, sem);
    TreeMeansFilter(ctx, f, row, sem);
  }

  /** So for every well-formed filter without an empty list and every row, the emitted clause is true, false or unknown
      exactly when the filter is. */
  lemma ClauseMeansFilter(ctx: Context, f: Filter, row: C.Row, sem: C.Semantics)
    requires PrintableContext(ctx) && Scannable(ctx, f) && WellFormed(f) && NoEmptyList(f)
    ensures ClauseTruth(ctx, f, row, sem) == Some(Meaning(ctx, f, row, sem))
  {
    ClauseMeansEffective(ctx, f, row, sem);
    EffectiveMeansSame(ctx, f, row, sem);
  }

  // ---------------------------------------------------------------- when it does not

  lemma OneEntry(ctx: Context, e: Entry, row: C.Row, sem: C.Semantics)
    ensures Factors(ctx, Filter([e])) == EntryFactors(ctx, e)
    ensures Meaning(ctx, Filter([e]), row, sem) == EntryMeaning(ctx, e, row, sem)
    ensures ScannableEntry(ctx, e) ==> Scannable(ctx, Filter([e]))
    ensures NoEmptyListAt(e) <==> NoEmptyList(Filter([e]))
  {
    assert [e][1..] == [];
    assert NoEmptyListIn([e]) <==> NoEmptyListAt(e) && NoEmptyListIn([e][1..]);
    assert FactorsOf(ctx, [e]) == EntryFactors(ctx, e) + FactorsOf(ctx, []);
    assert EntryFactors(ctx, e) + [] == EntryFactors(ctx, e);
    assert EntryMeanings(ctx, [e], row, sem) == [EntryMeaning(ctx, e, row, sem)] + EntryMeanings(ctx, [], row, sem);
  }

  /** What takes effect of a filter of one entry. */
  lemma OneEffective(ctx: Context, e: Entry, row: C.Row, sem: C.Semantics)
    ensures Meaning(ctx, Effective(Filter([e])), row, sem)
         == if SilentEntry(e) then C.True else EntryMeaning(ctx, EffectiveEntry(e), row, sem)
  {
    assert [e][1..] == [];
    if SilentEntry(e) {
      assert EffectiveEntries([e]) == [];
    } else {
      assert EffectiveEntries([e]) == [EffectiveEntry(e)];
      OneEntry(ctx, EffectiveEntry(e), row, sem);
    }
  }

  /** The meanings of the members that take effect are among those of all members; the others are true. */
  lemma {:induction false} KeptMeanings(ctx: Context, ms: seq<Filter>, row: C.Row, sem: C.Semantics)
    requires WellFormedMembers(ms)
    ensures var kept, all := MemberMeanings(ctx, EffectiveMembers(ms), row, sem), MemberMeanings(ctx, ms, row, sem);
            (NoneSilent(ms) ==> kept == all) && (!NoneSilent(ms) ==> C.True in all) &&
            (kept == [] <==> SilentMembers(ms))
  {
    if ms != [] {
      KeptMeanings(ctx, ms[1..], row, sem);
      EffectiveMeansSame(ctx, ms[0], row, sem);
      NoFactorsIffSilent(ctx, ms[0]);
      TreeMeansFilter(ctx, ms[0], row, sem);
      var rest := EffectiveMembers(ms[1..]);
      if Silent(ms[0]) {
        assert EffectiveMembers(ms) == rest && MemberMeanings(ctx, ms, row, sem)[0] == C.True;
      } else {
        assert EffectiveMembers(ms) == [Effective(ms[0])] + rest && ([Effective(ms[0])] + rest)[1..] == rest;
      }
    }
  }

  /** An `_or` of well-formed members: a member without any condition, although it is true of every
      row, is dropped. The clause agrees with the filter on a row exactly when no list is empty, the `_or` has a
      member and either nothing was dropped, or nothing was kept, or a kept member is true. */
  lemma OrAgreesExactly(ctx: Context, ms: seq<Filter>, row: C.Row, sem: C.Semantics)
    requires PrintableContext(ctx) && ScannableMembers(ctx, ms) && WellFormedMembers(ms)
    ensures var f, kept := Filter([Or(ms)]), MemberMeanings(ctx, EffectiveMembers(ms), row, sem);
            ClauseTruth(ctx, f, row, sem) == Some(Meaning(ctx, f, row, sem)) <==>
            NoEmptyListAmong(ms) && ms != [] && (NoneSilent(ms) || kept == [] || C.True in kept)
  {
    OneEntry(ctx, Or(ms), row, sem);
    ClauseMeansEffective(ctx, Filter([Or(ms)]), row, sem);
    OneEffective(ctx, Or(ms), row, sem);
    KeptMeanings(ctx, ms, row, sem);
  }

  /** A `_not` agrees with its meaning exactly when there is a condition inside, and no empty list. */
  lemma NotAgreesExactly(ctx: Context, inner: Filter, row: C.Row, sem: C.Semantics)
    requires PrintableContext(ctx) && Scannable(ctx, inner) && WellFormed(inner)
    ensures var f := Filter([Not(inner)]);
            ClauseTruth(ctx, f, row, sem) == Some(Meaning(ctx, f, row, sem)) <==> NoEmptyList(inner) && !Silent(inner)
  {
    OneEntry(ctx, Not(inner), row, sem);
    ClauseMeansEffective(ctx, Filter([Not(inner)]), row, sem);
    OneEffective(ctx, Not(inner), row, sem);
    EffectiveMeansSame(ctx, inner, row, sem);
    TreeMeansFilter(ctx, inner, row, sem);
    NoFactorsIffSilent(ctx, inner);
  }

  /** What takes effect of one condition on a field. */
  lemma OneConditionMeans(ctx: Context, field: string, c: Condition, row: C.Row, sem: C.Semantics)
    requires PrintableContext(ctx) && ctx.quote !in field && ScannableCondition(c) && HasMembers(c) &&
             !SilentCondition(c)
    ensures var f := Filter([Field(field, [c])]);
            ClauseTruth(ctx, f, row, sem) == Some(ConditionMeaning(ctx, field, EffectiveCondition(c), row, sem)) &&
            Meaning(ctx, f, row, sem) == ConditionMeaning(ctx, field, c, row, sem)
  {
    var e := Field(field, [c]);
    assert c in [c] && [c][1..] == [];
    OneEntry(ctx, e, row, sem);
    ClauseMeansEffective(ctx, Filter([e]), row, sem);
    OneEffective(ctx, e, row, sem);
    assert EffectiveConditions([c]) == [EffectiveCondition(c)];
    AloneMeans(ctx, field, c, row, sem);
    AloneMeans(ctx, field, EffectiveCondition(c), row, sem);
  }

  lemma AloneMeans(ctx: Context, field: string, c: Condition, row: C.Row, sem: C.Semantics)
    ensures All(ConditionMeanings(ctx, field, [c], row, sem)) == ConditionMeaning(ctx, field, c, row, sem)
  {
    assert [c][1..] == [];
    assert ConditionMeanings(ctx, field, [c], row, sem) == [ConditionMeaning(ctx, field, c, row, sem)];
  }

  /** The null tests ignore their value: they agree with their meaning exactly for `true`. */
  lemma NullTestAgreesExactly(ctx: Context, field: string, c: Condition, row: C.Row, sem: C.Semantics)
    requires PrintableContext(ctx) && ctx.quote !in field && ScannableCondition(c)
    requires c.op == IsNull || c.op == IsNotNull
    ensures var f := Filter([Field(field, [c])]);
            ClauseTruth(ctx, f, row, sem) == Some(Meaning(ctx, f, row, sem)) <==> c.operand == One(Bool(true))
  {
    OneConditionMeans(ctx, field, c, row, sem);
  }

  /** A comparison with a list, which nothing equals, compares with its text: it agrees with its meaning exactly on the
      rows where the field is null. */
  lemma ListComparisonAgreesExactly(ctx: Context, field: string, c: Condition, row: C.Row, sem: C.Semantics)
    requires PrintableContext(ctx) && ctx.quote !in field && IsComparison(c.op) && c.operand.Many?
    ensures var f := Filter([Field(field, [c])]);
            ClauseTruth(ctx, f, row, sem) == Some(Meaning(ctx, f, row, sem)) <==> row(field) == C.Null
  {
    OneConditionMeans(ctx, field, c, row, sem);
  }

  /** The emitted text is a search condition if and only if no IN or NOT IN list anywhere in the filter is empty. */
  lemma ClauseIsConditionIff(ctx: Context, f: Filter, row: C.Row, sem: C.Semantics)
    requires PrintableContext(ctx) && Scannable(ctx, f)
    ensures ClauseTruth(ctx, f, row, sem).Some? <==> NoEmptyList(f)
  {
    ClauseMeansEffective(ctx, f, row, sem);
  }

  /** In particular an IN or NOT IN test of one field, for which SQL has no empty list. */
  lemma EmptyListIsNoCondition(ctx: Context, field: string, c: Condition, row: C.Row, sem: C.Semantics)
    requires PrintableContext(ctx) && ctx.quote !in field && ScannableCondition(c) && (c.op == In || c.op == NotIn)
    ensures ClauseTruth(ctx, Filter([Field(field, [c])]), row, sem) == None <==> ListOf(c.operand) == []
  {
    var e := Field(field, [c]);
    OneEntry(ctx, e, row, sem);
    assert c in [c];
    ClauseIsConditionIff(ctx, Filter([e]), row, sem);
  }
}
