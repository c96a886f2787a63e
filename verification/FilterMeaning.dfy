/** What a filter means, entry by entry, in SQL's three-valued logic, and that the tree of
    its factors has that meaning on every row. */
module FilterMeaning {
  import opened SqlText
  import opened FilterCompiler
  import opened FilterScan
  import opened FilterMatch
  import opened FilterText
  import C = SqlCondition
  import opened Wrappers

  // ---------------------------------------------------------------- meaning

  /** The conjunction of any number of truth values: false if one is, else unknown if one is. */
  function All(ts: seq<C.Truth>): C.Truth {
    if C.False in ts then C.False else if C.Unknown in ts then C.Unknown else C.True
  }

  /** The disjunction of any number of truth values: true if one is, else unknown if one is. */
  function Any(ts: seq<C.Truth>): C.Truth {
    if C.True in ts then C.True else if C.Unknown in ts then C.Unknown else C.False
  }

  function ValueOf(ctx: Context, field: string, v: Scalar, sem: C.Semantics): C.Value {
    if v.Str? && ReadAsUuid(ctx, field, v.s) then sem.asUuid(v.s) else PlainValue(v)
  }

  function PlainValue(v: Scalar): C.Value {
    match v
    case Null => C.Null
    case Str(s) => C.String(s)
    case Bool(b) => C.Boolean(b)
    case Num(t) => C.Numeric(t)
    case Composite(t) => C.String(t)
  }

  /** Whether `x` equals each of the values. */
  function Equalities(x: C.Value, vs: seq<Scalar>, sem: C.Semantics): (r: seq<C.Truth>)
    ensures |r| == |vs|
  {
    if vs == [] then [] else [C.Compare(Equal, x, PlainValue(vs[0]), sem)] + Equalities(x, vs[1..], sem)
  }

  function ConditionMeaning(ctx: Context, field: string, c: Condition, row: C.Row, sem: C.Semantics): C.Truth {
    var x := row(field);
    match c.op
    case In => Any(Equalities(x, ListOf(c.operand), sem))
    case NotIn => C.Not(Any(Equalities(x, ListOf(c.operand), sem)))
    case IsNull => C.TruthOf((c.operand == One(Bool(true))) <==> (x == C.Null))
    case IsNotNull => C.TruthOf((c.operand == One(Bool(true))) <==> (x != C.Null))
    case Between =>
      if c.operand.Many? && |c.operand.values| == 2 then
        All([C.Compare(GreaterOrEqual, x, PlainValue(c.operand.values[0]), sem),
             C.Compare(LessOrEqual, x, PlainValue(c.operand.values[1]), sem)])
      else C.True
    case Unrecognised(_) => C.True
    case Contains => SearchTruth(ctx, c.op, x, TextOf(c.operand), sem)
    case StartsWith => SearchTruth(ctx, c.op, x, TextOf(c.operand), sem)
    case EndsWith => SearchTruth(ctx, c.op, x, TextOf(c.operand), sem)
    case _ =>
      if c.operand.One? then C.Compare(RelOpOf(c.op), x, ValueOf(ctx, field, c.operand.value, sem), sem) else C.Unknown
  }

  function ConditionMeanings(ctx: Context, field: string, cs: seq<Condition>, row: C.Row, sem: C.Semantics)
    : seq<C.Truth>
  {
    if cs == [] then []
    else [ConditionMeaning(ctx, field, cs[0], row, sem)] + ConditionMeanings(ctx, field, cs[1..], row, sem)
  }

  /** A filter is the conjunction of its entries. */
  function Meaning(ctx: Context, f: Filter, row: C.Row, sem: C.Semantics): C.Truth
    decreases f, 0
  {
    All(EntryMeanings(ctx, f.entries, row, sem))
  }

  function EntryMeanings(ctx: Context, es: seq<Entry>, row: C.Row, sem: C.Semantics): seq<C.Truth>
    decreases es, 1
  {
    if es == [] then [] else [EntryMeaning(ctx, es[0], row, sem)] + EntryMeanings(ctx, es[1..], row, sem)
  }

  function EntryMeaning(ctx: Context, e: Entry, row: C.Row, sem: C.Semantics): C.Truth
    decreases e, 0
  {
    match e
    case And(ms) => All(MemberMeanings(ctx, ms, row, sem))
    case Or(ms) => Any(MemberMeanings(ctx, ms, row, sem))
    case Not(inner) => C.Not(Meaning(ctx, inner, row, sem))
    case Field(name, cs) => All(ConditionMeanings(ctx, name, cs, row, sem))
    case Shorthand(name, o) => if o.One? then C.Compare(Equal, row(name), PlainValue(o.value), sem) else C.Unknown
  }

  function MemberMeanings(ctx: Context, ms: seq<Filter>, row: C.Row, sem: C.Semantics): (r: seq<C.Truth>)
    ensures |r| == |ms|
    decreases ms, 1
  {
    if ms == [] then [] else [Meaning(ctx, ms[0], row, sem)] + MemberMeanings(ctx, ms[1..], row, sem)
  }

  // ---------------------------------------------------------------- well-formed filters

  /** A filter without any condition in it. */
  predicate Silent(f: Filter)
    decreases f, 0
  {
    SilentEntries(f.entries)
  }

  predicate SilentEntries(es: seq<Entry>)
    decreases es, 1
  {
    es != [] ==> SilentEntry(es[0]) && SilentEntries(es[1..])
  }

  predicate SilentEntry(e: Entry)
    decreases e, 0
  {
    match e
    case And(ms) => SilentMembers(ms)
    case Or(ms) => SilentMembers(ms)
    case Not(inner) => Silent(inner)
    case Field(_, cs) => forall c :: c in cs ==> SilentCondition(c)
    case Shorthand(_, _) => false
  }

  predicate SilentMembers(ms: seq<Filter>)
    decreases ms, 1
  {
    ms != [] ==> Silent(ms[0]) && SilentMembers(ms[1..])
  }

  predicate NoneSilent(ms: seq<Filter>) {
    ms != [] ==> !Silent(ms[0]) && NoneSilent(ms[1..])
  }

  /** The compiler emits nothing exactly for these filters. */
  lemma {:induction false} NothingEmittedIffSilent(ctx: Context, f: Filter)
    ensures Parts(ctx, f) == [] <==> Silent(f)
    decreases f, 0
  {
    NoEntriesEmittedIffSilent(ctx, f.entries);
  }

  lemma {:induction false} NoEntriesEmittedIffSilent(ctx: Context, es: seq<Entry>)
    ensures PartsOf(ctx, es) == [] <==> SilentEntries(es)
    decreases es, 1
  {
    if es != [] {
      NoEntryEmittedIffSilent(ctx, es[0]);
      NoEntriesEmittedIffSilent(ctx, es[1..]);
    }
  }

  lemma {:induction false} NoEntryEmittedIffSilent(ctx: Context, e: Entry)
    ensures EntryParts(ctx, e) == [] <==> SilentEntry(e)
    decreases e, 0
  {
    match e
    case And(ms) => NoMembersEmittedIffSilent(ctx, ms);
    case Or(ms) => NoMembersEmittedIffSilent(ctx, ms);
    case Not(inner) => NothingEmittedIffSilent(ctx, inner);
    case Field(name, cs) => NoConditionEmittedIffSilent(ctx, name, cs);
    case Shorthand(_, _) =>
  }

  lemma NoPartIffSilent(ctx: Context, field: string, c: Condition)
    ensures ConditionParts(ctx, field, c) == [] <==> SilentCondition(c)
  {
  }

  lemma {:induction false} NoConditionEmittedIffSilent(ctx: Context, field: string, cs: seq<Condition>)
    ensures FieldParts(ctx, field, cs) == [] <==> forall c :: c in cs ==> SilentCondition(c)
  {
    if cs != [] {
      NoPartIffSilent(ctx, field, cs[0]);
      NoConditionEmittedIffSilent(ctx, field, cs[1..]);
      var first := ConditionParts(ctx, field, cs[0]);
      assert |FieldParts(ctx, field, cs)| == |first| + |FieldParts(ctx, field, cs[1..])|;
      InEither(cs);
    }
  }

  lemma InEither(cs: seq<Condition>)
    requires cs != []
    ensures (forall c :: c in cs ==> SilentCondition(c)) <==>
            SilentCondition(cs[0]) && forall c :: c in cs[1..] ==> SilentCondition(c)
  {
    assert forall c :: c in cs <==> c == cs[0] || c in cs[1..];
  }

  lemma {:induction false} NoMembersEmittedIffSilent(ctx: Context, ms: seq<Filter>)
    ensures MemberParts(ctx, ms) == [] <==> SilentMembers(ms)
    decreases ms, 1
  {
    if ms != [] {
      NothingEmittedIffSilent(ctx, ms[0]);
      NoMembersEmittedIffSilent(ctx, ms[1..]);
    }
  }

  predicate WellFormedCondition(c: Condition) {
    match c.op
    case IsNull => c.operand == One(Bool(true))
    case IsNotNull => c.operand == One(Bool(true))
    case _ => IsComparison(c.op) ==> c.operand.One?
  }

  predicate WellFormed(f: Filter)
    decreases f, 0
  {
    WellFormedEntries(f.entries)
  }

  predicate WellFormedEntries(es: seq<Entry>)
    decreases es, 1
  {
    es != [] ==> WellFormedEntry(es[0]) && WellFormedEntries(es[1..])
  }

  /** Members of `_or` and the inside of `_not` must hold a condition. */
  predicate WellFormedEntry(e: Entry)
    decreases e, 0
  {
    match e
    case And(ms) => WellFormedMembers(ms)
    case Or(ms) => ms != [] && WellFormedMembers(ms) && NoneSilent(ms)
    case Not(inner) => WellFormed(inner) && !Silent(inner)
    case Field(_, cs) => forall c :: c in cs ==> WellFormedCondition(c)
    case Shorthand(_, o) => o.One?
  }

  predicate WellFormedMembers(ms: seq<Filter>)
    decreases ms, 1
  {
    ms != [] ==> WellFormed(ms[0]) && WellFormedMembers(ms[1..])
  }

  // ---------------------------------------------------------------- folds against collections

  lemma AllCons(t: C.Truth, ts: seq<C.Truth>)
    ensures All([t] + ts) == C.And(t, All(ts))
  {
  }

  lemma AnyCons(t: C.Truth, ts: seq<C.Truth>)
    ensures Any([t] + ts) == C.Or(t, Any(ts))
  {
  }

  lemma {:induction false} EvalFactorsAppend(a: seq<C.BooleanFactor>, b: seq<C.BooleanFactor>, row: C.Row,
                                             sem: C.Semantics)
    ensures C.EvalFactors(a + b, row, sem) == C.And(C.EvalFactors(a, row, sem), C.EvalFactors(b, row, sem))
  {
    if a == [] {
      assert a + b == b;
    } else {
      assert (a + b)[1..] == a[1..] + b;
      EvalFactorsAppend(a[1..], b, row, sem);
    }
  }

  lemma EvalSingle(f: C.BooleanFactor, row: C.Row, sem: C.Semantics)
    ensures C.EvalFactors([f], row, sem) == C.EvalFactor(f, row, sem)
  {
    assert [f][1..] == [];
  }

  lemma AndGroupEvaluates(negated: bool, fs: seq<C.BooleanFactor>, row: C.Row, sem: C.Semantics)
    ensures C.EvalFactor(C.Factor(negated, AndGroup(fs)), row, sem) ==
            if negated then C.Not(C.EvalFactors(fs, row, sem)) else C.EvalFactors(fs, row, sem)
  {
    var ts := [C.Conjunction(fs)];
    assert ts[1..] == [];
    assert C.EvalTerms(ts, row, sem) == C.Or(C.EvalFactors(fs, row, sem), C.EvalTerms([], row, sem));
  }

  lemma {:induction false} InEvaluates(x: C.Value, vs: seq<Scalar>, sem: C.Semantics)
    ensures C.EvalIn(x, MembersOf(vs), sem) == Any(Equalities(x, vs, sem))
  {
    if vs != [] {
      assert MembersOf(vs)[1..] == MembersOf(vs[1..]);
      InEvaluates(x, vs[1..], sem);
      AnyCons(C.Compare(Equal, x, PlainValue(vs[0]), sem), Equalities(x, vs[1..], sem));
    }
  }

  // ---------------------------------------------------------------- the tree means the filter

  lemma ConditionEvaluates(ctx: Context, field: string, c: Condition, row: C.Row, sem: C.Semantics)
    requires WellFormedCondition(c)
    ensures C.EvalFactors(ConditionFactors(ctx, field, c), row, sem) == ConditionMeaning(ctx, field, c, row, sem)
  {
    var fs := ConditionFactors(ctx, field, c);
    if fs != [] { EvalSingle(fs[0], row, sem); }
    if c.op == In || c.op == NotIn { InEvaluates(row(field), ListOf(c.operand), sem); }
    if IsSearch(c.op) { MatchEvaluates(ctx, field, c.op, TextOf(c.operand), row, sem); }
  }

  lemma {:induction false} FieldEvaluates(ctx: Context, field: string, cs: seq<Condition>, row: C.Row, sem: C.Semantics)
    requires forall c :: c in cs ==> WellFormedCondition(c)
    ensures C.EvalFactors(FieldFactors(ctx, field, cs), row, sem) == All(ConditionMeanings(ctx, field, cs, row, sem))
  {
    if cs != [] {
      ConditionEvaluates(ctx, field, cs[0], row, sem);
      FieldEvaluates(ctx, field, cs[1..], row, sem);
      EvalFactorsAppend(ConditionFactors(ctx, field, cs[0]), FieldFactors(ctx, field, cs[1..]), row, sem);
      AllCons(ConditionMeaning(ctx, field, cs[0], row, sem), ConditionMeanings(ctx, field, cs[1..], row, sem));
    }
  }

  /** A filter has as many factors as emitted parts. */
  lemma {:induction false} FactorsAreAsManyAsParts(ctx: Context, f: Filter)
    ensures |Factors(ctx, f)| == |Parts(ctx, f)|
    decreases f, 0
  {
    EntryFactorsAreAsMany(ctx, f.entries);
  }

  lemma {:induction false} EntryFactorsAreAsMany(ctx: Context, es: seq<Entry>)
    ensures |FactorsOf(ctx, es)| == |PartsOf(ctx, es)|
    decreases es, 1
  {
    if es != [] {
      OneEntryFactorsAreAsMany(ctx, es[0]);
      EntryFactorsAreAsMany(ctx, es[1..]);
    }
  }

  lemma {:induction false} OneEntryFactorsAreAsMany(ctx: Context, e: Entry)
    ensures |EntryFactors(ctx, e)| == |EntryParts(ctx, e)|
    decreases e, 0
  {
    match e
    case And(ms) => MemberFactorsAreAsMany(ctx, ms);
    case Or(ms) => MemberFactorsAreAsMany(ctx, ms);
    case Not(inner) => FactorsAreAsManyAsParts(ctx, inner);
    case Field(name, cs) => FieldFactorsAreAsMany(ctx, name, cs);
    case Shorthand(_, _) =>
  }

  lemma {:induction false} FieldFactorsAreAsMany(ctx: Context, field: string, cs: seq<Condition>)
    ensures |FieldFactors(ctx, field, cs)| == |FieldParts(ctx, field, cs)|
  {
    if cs != [] { FieldFactorsAreAsMany(ctx, field, cs[1..]); }
  }

  lemma {:induction false} MemberFactorsAreAsMany(ctx: Context, ms: seq<Filter>)
    ensures |MemberFactors(ctx, ms)| == |MemberParts(ctx, ms)|
    decreases ms, 1
  {
    if ms != [] {
      FactorsAreAsManyAsParts(ctx, ms[0]);
      MemberFactorsAreAsMany(ctx, ms[1..]);
    }
  }

  /** There are factors exactly when there is a condition. */
  lemma NoFactorsIffSilent(ctx: Context, f: Filter)
    ensures Factors(ctx, f) == [] <==> Silent(f)
  {
    FactorsAreAsManyAsParts(ctx, f);
    NothingEmittedIffSilent(ctx, f);
  }

  /** The factors of a well-formed filter mean what it means; those of an empty one are true. */
  lemma {:induction false} TreeMeansFilter(ctx: Context, f: Filter, row: C.Row, sem: C.Semantics)
    requires WellFormed(f)
    ensures C.EvalFactors(Factors(ctx, f), row, sem) == Meaning(ctx, f, row, sem)
    decreases f, 0
  {
    EntriesEvaluate(ctx, f.entries, row, sem);
  }

  lemma {:induction false} EntriesEvaluate(ctx: Context, es: seq<Entry>, row: C.Row, sem: C.Semantics)
    requires WellFormedEntries(es)
    ensures C.EvalFactors(FactorsOf(ctx, es), row, sem) == All(EntryMeanings(ctx, es, row, sem))
    decreases es, 1
  {
    if es != [] {
      EntryEvaluates(ctx, es[0], row, sem);
      EntriesEvaluate(ctx, es[1..], row, sem);
      EvalFactorsAppend(EntryFactors(ctx, es[0]), FactorsOf(ctx, es[1..]), row, sem);
      AllCons(EntryMeaning(ctx, es[0], row, sem), EntryMeanings(ctx, es[1..], row, sem));
    }
  }

  lemma {:induction false} EntryEvaluates(ctx: Context, e: Entry, row: C.Row, sem: C.Semantics)
    requires WellFormedEntry(e)
    ensures C.EvalFactors(EntryFactors(ctx, e), row, sem) == EntryMeaning(ctx, e, row, sem)
    decreases e, 0
  {
    match e
    case And(ms) =>
      MembersEvaluate(ctx, ms, row, sem);
      var fs := MemberFactors(ctx, ms);
      EvalSingle(C.Factor(false, AndGroup(fs)), row, sem);
      AndGroupEvaluates(false, fs, row, sem);
    case Or(ms) =>
      AlternativesEvaluate(ctx, ms, row, sem);
      EvalSingle(C.Factor(false, C.Group(C.Disjunction(EachAlone(MemberFactors(ctx, ms))))), row, sem);
    case Not(inner) =>
      TreeMeansFilter(ctx, inner, row, sem);
      NoFactorsIffSilent(ctx, inner);
      var fs := Factors(ctx, inner);
      EvalSingle(C.Factor(true, AndGroup(fs)), row, sem);
      AndGroupEvaluates(true, fs, row, sem);
    case Field(name, cs) => FieldEvaluates(ctx, name, cs, row, sem);
    case Shorthand(name, o) => EvalSingle(Atom(C.Comparison(C.Column(ctx.table, name), Equal, ShorthandOf(o))), row,
                                          sem);
  }

  lemma {:induction false} MembersEvaluate(ctx: Context, ms: seq<Filter>, row: C.Row, sem: C.Semantics)
    requires WellFormedMembers(ms)
    ensures C.EvalFactors(MemberFactors(ctx, ms), row, sem) == All(MemberMeanings(ctx, ms, row, sem))
    decreases ms, 1
  {
    if ms != [] {
      TreeMeansFilter(ctx, ms[0], row, sem);
      MembersEvaluate(ctx, ms[1..], row, sem);
      var fs := Factors(ctx, ms[0]);
      var head := if fs == [] then [] else [C.Factor(false, AndGroup(fs))];
      if fs != [] {
        EvalSingle(head[0], row, sem);
        AndGroupEvaluates(false, fs, row, sem);
      }
      EvalFactorsAppend(head, MemberFactors(ctx, ms[1..]), row, sem);
      AllCons(Meaning(ctx, ms[0], row, sem), MemberMeanings(ctx, ms[1..], row, sem));
    }
  }

  /** The alternatives of an `_or` whose members all impose a condition. */
  lemma {:induction false} AlternativesEvaluate(ctx: Context, ms: seq<Filter>, row: C.Row, sem: C.Semantics)
    requires WellFormedMembers(ms) && NoneSilent(ms)
    ensures |MemberFactors(ctx, ms)| == |ms|
    ensures C.EvalTerms(EachAlone(MemberFactors(ctx, ms)), row, sem) == Any(MemberMeanings(ctx, ms, row, sem))
    decreases ms, 1
  {
    if ms != [] {
      TreeMeansFilter(ctx, ms[0], row, sem);
      AlternativesEvaluate(ctx, ms[1..], row, sem);
      NoFactorsIffSilent(ctx, ms[0]);
      var fs, all := Factors(ctx, ms[0]), MemberFactors(ctx, ms);
      assert all[0] == C.Factor(false, AndGroup(fs)) && all[1..] == MemberFactors(ctx, ms[1..]);
      EvalSingle(all[0], row, sem);
      AndGroupEvaluates(false, fs, row, sem);
      assert EachAlone(all)[1..] == EachAlone(all[1..]);
      AnyCons(Meaning(ctx, ms[0], row, sem), MemberMeanings(ctx, ms[1..], row, sem));
    }
  }
}
