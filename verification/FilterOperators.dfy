/** What each operator of a filter does to a column, in characters and values: which comparison the clause makes and
    with what, when a text is cast to a uuid, and where the searches look. */
module FilterOperators {
  import opened SqlLike
  import opened SqlText
  import opened FilterCompiler
  import opened FilterScan
  import opened FilterMatch
  import opened FilterText
  import opened FilterMeaning
  import opened FilterClause
  import C = SqlCondition
  import opened Wrappers
  import opened Seqs

  /** The filter that puts one condition on one field. */
  function Only(field: string, op: Operator, operand: Operand): Filter {
    Filter([Field(field, [Condition(op, operand)])])
  }

  lemma OnlyParts(ctx: Context, field: string, op: Operator, operand: Operand)
    ensures Parts(ctx, Only(field, op, operand)) == ConditionParts(ctx, field, Condition(op, operand))
    ensures Factors(ctx, Only(field, op, operand)) == ConditionFactors(ctx, field, Condition(op, operand))
    ensures Scannable(ctx, Only(field, op, operand)) <==> ScannableConditions(ctx, field, [Condition(op, operand)])
    ensures NoEmptyList(Only(field, op, operand)) <==> HasMembers(Condition(op, operand))
  {
    var c := Condition(op, operand);
    var e := Field(field, [c]);
    assert [c][1..] == [] && [e][1..] == [];
    assert FieldParts(ctx, field, [c]) == ConditionParts(ctx, field, c) + FieldParts(ctx, field, []);
    assert PartsOf(ctx, [e]) == EntryParts(ctx, e) + PartsOf(ctx, []);
    assert FieldFactors(ctx, field, [c]) == ConditionFactors(ctx, field, c) + FieldFactors(ctx, field, []);
    assert FactorsOf(ctx, [e]) == EntryFactors(ctx, e) + FactorsOf(ctx, []);
    assert c in [c];
    assert NoEmptyListIn([e]) <==> NoEmptyListAt(e) && NoEmptyListIn([e][1..]);
    assert ScannableEntries(ctx, [e]) <==> ScannableEntry(ctx, e) && ScannableEntries(ctx, [e][1..]);
  }

  // ---------------------------------------------------------------- uuids

  predicate Digits(s: string, n: nat) {
    |s| == n && forall k :: 0 <= k < n ==> s[k] in "0123456789abcdefABCDEF"
  }

  /** Five groups of 8, 4, 4, 4 and 12 hexadecimal digits of either case, joined by hyphens. */
  ghost predicate UuidGroups(s: string) {
    exists a, b, c, d, e ::
      s == a + "-" + b + "-" + c + "-" + d + "-" + e &&
      Digits(a, 8) && Digits(b, 4) && Digits(c, 4) && Digits(d, 4) && Digits(e, 12)
  }

  lemma HexIff(c: char)
    ensures IsHex(c) <==> c in "0123456789abcdefABCDEF"
  {
    var digits, small, big := "0123456789", "abcdef", "ABCDEF";
    assert "0123456789abcdefABCDEF" == digits + small + big;
    if '0' <= c <= '9' { assert digits[c as int - '0' as int] == c; }
    if 'a' <= c <= 'f' { assert small[c as int - 'a' as int] == c; }
    if 'A' <= c <= 'F' { assert big[c as int - 'A' as int] == c; }
  }

  lemma DigitsIff(s: string, n: nat)
    ensures Digits(s, n) <==> |s| == n && forall k :: 0 <= k < n ==> IsHex(s[k])
  {
    forall k | 0 <= k < |s| ensures IsHex(s[k]) <==> s[k] in "0123456789abcdefABCDEF" { HexIff(s[k]); }
  }

  lemma GroupIsHex(s: string, i: nat, j: nat)
    requires i <= j <= |s| && forall k :: i <= k < j ==> IsHex(s[k])
    ensures Digits(s[i..j], j - i)
  {
    DigitsIff(s[i..j], j - i);
  }

  lemma CutInGroups(s: string)
    requires |s| == 36 && s[8] == '-' && s[13] == '-' && s[18] == '-' && s[23] == '-'
    ensures s == s[0..8] + "-" + s[9..13] + "-" + s[14..18] + "-" + s[19..23] + "-" + s[24..36]
  {
  }

  lemma AreUuidGroups(s: string, a: string, b: string, c: string, d: string, e: string)
    requires s == a + "-" + b + "-" + c + "-" + d + "-" + e
    requires Digits(a, 8) && Digits(b, 4) && Digits(c, 4) && Digits(d, 4) && Digits(e, 12)
    ensures UuidGroups(s)
  {
  }

  lemma UuidHasGroups(s: string)
    requires LooksLikeUuid(s)
    ensures UuidGroups(s)
  {
    GroupIsHex(s, 0, 8);
    GroupIsHex(s, 9, 13);
    GroupIsHex(s, 14, 18);
    GroupIsHex(s, 19, 23);
    GroupIsHex(s, 24, 36);
    CutInGroups(s);
    AreUuidGroups(s, s[0..8], s[9..13], s[14..18], s[19..23], s[24..36]);
  }

  lemma LooksLikeUuidIff(s: string)
    ensures LooksLikeUuid(s) <==> UuidGroups(s)
  {
    if LooksLikeUuid(s) { UuidHasGroups(s); }
    if UuidGroups(s) {
      var a, b, c, d, e :|
        s == a + "-" + b + "-" + c + "-" + d + "-" + e &&
        Digits(a, 8) && Digits(b, 4) && Digits(c, 4) && Digits(d, 4) && Digits(e, 12);
      GroupsLookLikeUuid(a, b, c, d, e);
    }
  }

  lemma GroupsLookLikeUuid(a: string, b: string, c: string, d: string, e: string)
    requires Digits(a, 8) && Digits(b, 4) && Digits(c, 4) && Digits(d, 4) && Digits(e, 12)
    ensures LooksLikeUuid(a + "-" + b + "-" + c + "-" + d + "-" + e)
  {
    DigitsIff(a, 8);
    DigitsIff(b, 4);
    DigitsIff(c, 4);
    DigitsIff(d, 4);
    DigitsIff(e, 12);
  }

  // ---------------------------------------------------------------- comparisons

  /** What a value stands for in the clause. */
  predicate StandsForPlainly(v: Scalar, o: C.Operand) {
    match v
    case Null => o == C.NullOperand
    case Str(s) => o == C.Text(s)
    case Bool(b) => o == C.Truthy(b)
    case Num(t) => o == C.Number(t)
    case Composite(t) => o == C.Text(t)
  }

  /** In a comparison a text that is a uuid is cast, on PostgreSQL, for a uuid column. */
  ghost predicate StandsFor(ctx: Context, field: string, v: Scalar, o: C.Operand) {
    if v.Str? && ctx.postgres && field in ctx.uuidColumns && UuidGroups(v.s) then o == C.Uuid(v.s)
    else StandsForPlainly(v, o)
  }

  /** The rendering of a number: digits, and what may stand between and before them. */
  predicate Rendered(t: string) {
    t != "" && t[0] in "-0123456789" && forall k :: 1 <= k < |t| ==> t[k] in "0123456789.e+-"
  }

  lemma RenderedIsNumeral(t: string)
    requires Rendered(t)
    ensures IsNumeral(t)
  {
    assert "-0123456789" == "-" + "0123456789" && "0123456789.e+-" == "0123456789" + ".e+-";
  }

  /** The clause of the filter is this one predicate. */
  predicate ParsesTo(ctx: Context, f: Filter, p: C.Pred) {
    C.Parse(WhereText(ctx, f), ctx.quote) ==
      Some(C.Disjunction([C.Conjunction([C.Factor(false, C.Predicate(p))])]))
  }

  predicate ComparesBy(op: Operator, r: RelOp) {
    (op, r) in {(Eq, Equal), (Neq, NotEqual), (Gt, Greater), (Gte, GreaterOrEqual), (Lt, Less), (Lte, LessOrEqual)}
  }

  /** The clause of one comparison with one value is that comparison of the column with what the value stands for. */
  lemma ComparisonParses(ctx: Context, field: string, op: Operator, r: RelOp, v: Scalar, o: C.Operand)
    requires PrintableContext(ctx) && ctx.quote !in field && (v.Num? ==> Rendered(v.text))
    requires ComparesBy(op, r) && StandsFor(ctx, field, v, o)
    ensures ParsesTo(ctx, Only(field, op, One(v)), C.Comparison(C.Column(ctx.table, field), r, o))
  {
    if v.Num? { RenderedIsNumeral(v.text); }
    if v.Str? { LooksLikeUuidIff(v.s); }
    var c := Condition(op, One(v));
    OnlyParts(ctx, field, op, One(v));
    assert ScannableCondition(c);
    TextParsesToTree(ctx, Only(field, op, One(v)));
  }

  /** The orders in which the column may stand to the value. */
  predicate HoldsFor(op: Operator, order: C.Ordering) {
    match op
    case Eq => order == C.Same
    case Neq => order != C.Same
    case Gt => order == C.Above
    case Gte => order == C.Above || order == C.Same
    case Lt => order == C.Below
    case Lte => order == C.Below || order == C.Same
    case _ => false
  }

  lemma ValueStandsFor(ctx: Context, field: string, v: Scalar, o: C.Operand, sem: C.Semantics)
    requires StandsFor(ctx, field, v, o)
    ensures FilterMeaning.ValueOf(ctx, field, v, sem) == C.ValueOf(o, sem)
  {
    if v.Str? { LooksLikeUuidIff(v.s); }
  }

  lemma ComparedAs(op: Operator, x: C.Value, y: C.Value, sem: C.Semantics)
    requires IsComparison(op)
    ensures C.Compare(RelOpOf(op), x, y, sem) ==
            if x == C.Null || y == C.Null then C.Unknown
            else if HoldsFor(op, sem.compare(x, y)) then C.True else C.False
  {
  }

  /** On a row it is unknown beside a null, and else true exactly when the column and the value compare that way. */
  lemma ComparisonHolds(ctx: Context, field: string, op: Operator, v: Scalar, o: C.Operand, row: C.Row,
                        sem: C.Semantics)
    requires PrintableContext(ctx) && ctx.quote !in field && (v.Num? ==> Rendered(v.text))
    requires op in {Eq, Neq, Gt, Gte, Lt, Lte} && StandsFor(ctx, field, v, o)
    ensures ClauseTruth(ctx, Only(field, op, One(v)), row, sem) ==
            Some(if row(field) == C.Null || C.ValueOf(o, sem) == C.Null then C.Unknown
                 else if HoldsFor(op, sem.compare(row(field), C.ValueOf(o, sem))) then C.True else C.False)
  {
    if v.Num? { RenderedIsNumeral(v.text); }
    OneConditionMeans(ctx, field, Condition(op, One(v)), row, sem);
    ValueStandsFor(ctx, field, v, o, sem);
    ComparedAs(op, row(field), C.ValueOf(o, sem), sem);
    assert EffectiveCondition(Condition(op, One(v))) == Condition(op, One(v));
  }

  lemma AloneParses(ctx: Context, field: string, op: Operator, operand: Operand, p: C.Pred)
    requires PrintableContext(ctx) && ctx.quote !in field
    requires ScannableCondition(Condition(op, operand)) && HasMembers(Condition(op, operand))
    requires ConditionFactors(ctx, field, Condition(op, operand)) == [Atom(p)]
    ensures ParsesTo(ctx, Only(field, op, operand), p)
  {
    OnlyParts(ctx, field, op, operand);
    FactorsAreAsManyAsParts(ctx, Only(field, op, operand));
    TextParsesToTree(ctx, Only(field, op, operand));
  }

  /** A null test tests the column, whatever its value. */
  lemma NullTestParses(ctx: Context, field: string, operand: Operand)
    requires PrintableContext(ctx) && ctx.quote !in field
    ensures ParsesTo(ctx, Only(field, IsNull, operand), C.NullTest(C.Column(ctx.table, field), false))
    ensures ParsesTo(ctx, Only(field, IsNotNull, operand), C.NullTest(C.Column(ctx.table, field), true))
  {
    AloneParses(ctx, field, IsNull, operand, C.NullTest(C.Column(ctx.table, field), false));
    AloneParses(ctx, field, IsNotNull, operand, C.NullTest(C.Column(ctx.table, field), true));
  }

  /** The members of a list, in order; none of them is cast. */
  predicate ListStandsFor(vs: seq<Scalar>, os: seq<C.Operand>) {
    |vs| == |os| &&
    forall i :: 0 <= i < |vs| ==>
      !vs[i].Composite? && (vs[i].Num? ==> Rendered(vs[i].text)) && StandsForPlainly(vs[i], os[i])
  }

  lemma {:induction false} MembersAre(vs: seq<Scalar>, os: seq<C.Operand>)
    requires ListStandsFor(vs, os)
    ensures MembersOf(vs) == os && forall v :: v in vs ==> PrintableScalar(v)
  {
    if vs != [] {
      assert ListStandsFor(vs[1..], os[1..]);
      MembersAre(vs[1..], os[1..]);
      if vs[0].Num? { RenderedIsNumeral(vs[0].text); }
      assert os == [os[0]] + os[1..] && vs == [vs[0]] + vs[1..];
    }
  }

  /** IN and NOT IN test the column against the members of the list; a value alone counts as a list of one. */
  lemma ListParses(ctx: Context, field: string, vs: seq<Scalar>, os: seq<C.Operand>)
    requires PrintableContext(ctx) && ctx.quote !in field && ListStandsFor(vs, os) && vs != []
    ensures ParsesTo(ctx, Only(field, In, Many(vs)), C.InList(C.Column(ctx.table, field), false, os))
    ensures ParsesTo(ctx, Only(field, NotIn, Many(vs)), C.InList(C.Column(ctx.table, field), true, os))
    ensures |vs| == 1 ==> ParsesTo(ctx, Only(field, In, One(vs[0])), C.InList(C.Column(ctx.table, field), false, os))
    ensures |vs| == 1 ==> ParsesTo(ctx, Only(field, NotIn, One(vs[0])), C.InList(C.Column(ctx.table, field), true, os))
  {
    var column := C.Column(ctx.table, field);
    MembersAre(vs, os);
    AloneParses(ctx, field, In, Many(vs), C.InList(column, false, os));
    AloneParses(ctx, field, NotIn, Many(vs), C.InList(column, true, os));
    if |vs| == 1 {
      assert [vs[0]] == vs;
      AloneParses(ctx, field, In, One(vs[0]), C.InList(column, false, os));
      AloneParses(ctx, field, NotIn, One(vs[0]), C.InList(column, true, os));
    }
  }

  /** BETWEEN takes its bounds from a pair, lower bound first, and says nothing for any other value. */
  lemma BetweenParses(ctx: Context, field: string, operand: Operand, os: seq<C.Operand>)
    requires PrintableContext(ctx) && ctx.quote !in field
    ensures operand.Many? && |operand.values| == 2 && ListStandsFor(operand.values, os) ==>
              ParsesTo(ctx, Only(field, Between, operand), C.Between(C.Column(ctx.table, field), os[0], os[1]))
    ensures !(operand.Many? && |operand.values| == 2) ==> WhereText(ctx, Only(field, Between, operand)) == ""
  {
    OnlyParts(ctx, field, Between, operand);
    if operand.Many? && |operand.values| == 2 && ListStandsFor(operand.values, os) {
      MembersAre(operand.values, os);
      var vs := operand.values;
      assert MembersOf(vs)[0] == MemberOf(vs[0]) && MembersOf(vs)[1] == MembersOf(vs[1..])[0] == MemberOf(vs[1]);
      AloneParses(ctx, field, Between, operand, C.Between(C.Column(ctx.table, field), os[0], os[1]));
    }
  }

  /** A value given without an operator is compared for equality, and never cast. */
  lemma ShorthandParses(ctx: Context, field: string, v: Scalar, o: C.Operand)
    requires PrintableContext(ctx) && ctx.quote !in field && !v.Composite? && (v.Num? ==> Rendered(v.text))
    requires StandsForPlainly(v, o)
    ensures ParsesTo(ctx, Filter([Shorthand(field, One(v))]), C.Comparison(C.Column(ctx.table, field), Equal, o))
  {
    if v.Num? { RenderedIsNumeral(v.text); }
    var e, f := Shorthand(field, One(v)), Filter([Shorthand(field, One(v))]);
    assert [e][1..] == [];
    assert ScannableEntries(ctx, [e]) <==> ScannableEntry(ctx, e) && ScannableEntries(ctx, [e][1..]);
    assert NoEmptyListIn([e]) <==> NoEmptyListAt(e) && NoEmptyListIn([e][1..]);
    assert FactorsOf(ctx, [e]) == EntryFactors(ctx, e) + FactorsOf(ctx, []);
    assert PartsOf(ctx, [e]) == EntryParts(ctx, e) + PartsOf(ctx, []);
    var p := C.Comparison(C.Column(ctx.table, field), Equal, o);
    assert ShorthandOf(One(v)) == o;
    assert Factors(ctx, f) == [Atom(p)];
    TextParsesToTree(ctx, f);
  }

  // ---------------------------------------------------------------- arrays where one value is expected

  /** An array is compared with, and searched for, as its members joined by commas; null members are empty. */
  lemma {:induction false} ArrayTextJoins(vs: seq<Scalar>, ws: seq<Scalar>)
    requires vs != [] && ws != []
    ensures ArrayText(vs + ws) == ArrayText(vs) + "," + ArrayText(ws)
  {
    assert (vs + ws)[1..] == vs[1..] + ws;
    if |vs| == 1 {
      assert vs[1..] + ws == ws;
    } else {
      ArrayTextJoins(vs[1..], ws);
      var first := if vs[0].Null? then "" else PlainText(vs[0]);
      Associative(first, ",", ArrayText(vs[1..]));
      Associative(first + ",", ArrayText(vs[1..]), "," + ArrayText(ws));
      Associative(ArrayText(vs[1..]), ",", ArrayText(ws));
      Associative(ArrayText(vs), ",", ArrayText(ws));
    }
  }

  lemma ArrayTextOfOne(s: string)
    ensures ArrayText([Str(s)]) == ArrayText([Num(s)]) == ArrayText([Composite(s)]) == s
    ensures ArrayText([Bool(true)]) == "true" && ArrayText([Bool(false)]) == "false"
    ensures ArrayText([Null]) == "" == ArrayText([])
  {
  }

  /** So a comparison with an array compares with that text. */
  lemma ArrayComparisonParses(ctx: Context, field: string, op: Operator, r: RelOp, vs: seq<Scalar>)
    requires PrintableContext(ctx) && ctx.quote !in field && ComparesBy(op, r)
    ensures ParsesTo(ctx, Only(field, op, Many(vs)),
                     C.Comparison(C.Column(ctx.table, field), r, C.Text(ArrayText(vs))))
  {
    AloneParses(ctx, field, op, Many(vs), C.Comparison(C.Column(ctx.table, field), r, C.Text(ArrayText(vs))));
  }

  // ---------------------------------------------------------------- searches

  /** The text that an operand is searched for as. */
  predicate SearchedAs(operand: Operand, text: string) {
    match operand
    case Many(vs) => text == ArrayText(vs)
    case One(v) =>
      match v
      case Null => text == "null"
      case Str(s) => text == s
      case Bool(b) => text == if b then "true" else "false"
      case Num(t) => text == t
      case Composite(t) => text == t
  }

  /** Both sides are lowered; PostgreSQL also takes the accents off them, and lowers the text sought itself. */
  predicate Folded(ctx: Context, sem: C.Semantics, x: string, text: string, within: string, sought: string) {
    if ctx.postgres then
      within == sem.fold("LOWER", sem.fold("UNACCENT", x)) && sought == sem.fold("LOWER", sem.fold("UNACCENT", text))
    else
      within == sem.fold("LOWER", x) && sought == ctx.toLowerCase(text)
  }

  /** `sought` stands in `within` at `i`: letter by letter the same for ILIKE, or equal. */
  predicate StandsAt(ctx: Context, sem: C.Semantics, sought: string, within: string, i: int) {
    0 <= i <= |within| - |sought| &&
    forall k :: 0 <= k < |sought| ==>
      if ctx.postgres then sem.sameLetter(sought[k], within[i + k]) else sought[k] == within[i + k]
  }

  lemma StandsAtIff(ctx: Context, sem: C.Semantics, sought: string, within: string, i: int)
    ensures StandsAt(ctx, sem, sought, within, i) <==> IsAt(C.SameIn(ctx.postgres, sem), sought, within, i)
  {
    if 0 <= i <= |within| - |sought| {
      var part := within[i..i + |sought|];
      assert forall k :: 0 <= k < |part| ==> part[k] == within[i + k];
    }
  }

  ghost predicate FoundBy(ctx: Context, sem: C.Semantics, op: Operator, sought: string, within: string) {
    (op == Contains && exists i :: StandsAt(ctx, sem, sought, within, i)) ||
    (op == StartsWith && StandsAt(ctx, sem, sought, within, 0)) ||
    (op == EndsWith && StandsAt(ctx, sem, sought, within, |within| - |sought|))
  }

  lemma FoundByIff(ctx: Context, sem: C.Semantics, op: Operator, sought: string, within: string)
    requires op in {Contains, StartsWith, EndsWith}
    ensures FoundBy(ctx, sem, op, sought, within) <==>
            Found(PlaceOf(op), C.SameIn(ctx.postgres, sem), sought, within)
  {
    forall i ensures StandsAt(ctx, sem, sought, within, i) <==> IsAt(C.SameIn(ctx.postgres, sem), sought, within, i) {
      StandsAtIff(ctx, sem, sought, within, i);
    }
    if op == Contains && FoundBy(ctx, sem, op, sought, within) {
      var i :| StandsAt(ctx, sem, sought, within, i);
      assert 0 <= i <= |within| && IsAt(C.SameIn(ctx.postgres, sem), sought, within, i);
    }
    if op == Contains && Found(PlaceOf(op), C.SameIn(ctx.postgres, sem), sought, within) {
      var i :| 0 <= i <= |within| && IsAt(C.SameIn(ctx.postgres, sem), sought, within, i);
      assert StandsAt(ctx, sem, sought, within, i);
    }
  }

  /** A search for a text without wildcards is unknown on null, and else true exactly of the columns that contain the
      text, start with it, or end with it. */
  lemma SearchMeans(ctx: Context, field: string, op: Operator, operand: Operand, text: string, row: C.Row,
                    sem: C.Semantics, within: string, sought: string)
    requires PrintableContext(ctx) && ctx.quote !in field && op in {Contains, StartsWith, EndsWith}
    requires SearchedAs(operand, text)
    requires Folded(ctx, sem, C.CharactersOf(row(field), sem), text, within, sought)
    requires '%' !in sought && '_' !in sought
    ensures ClauseTruth(ctx, Only(field, op, operand), row, sem) ==
            Some(if row(field) == C.Null then C.Unknown
                 else if FoundBy(ctx, sem, op, sought, within) then C.True else C.False)
  {
    OneConditionMeans(ctx, field, Condition(op, operand), row, sem);
    SearchFindsText(ctx, op, row(field), text, sem);
    FoundByIff(ctx, sem, op, sought, within);
  }

  // ---------------------------------------------------------------- no casts elsewhere

  ghost predicate NoCast(fs: seq<C.BooleanFactor>) {
    forall i :: 0 <= i < |fs| ==> DoubleColon !in C.FactorTokens(fs[i])
  }

  lemma {:induction false} NoCastInAnd(fs: seq<C.BooleanFactor>)
    requires NoCast(fs)
    ensures DoubleColon !in C.FactorsTokens(fs)
  {
    if fs != [] {
      assert DoubleColon !in C.FactorTokens(fs[0]);
      assert NoCast(fs[1..]);
      NoCastInAnd(fs[1..]);
    }
  }

  lemma {:induction false} NoCastInOr(fs: seq<C.BooleanFactor>)
    requires NoCast(fs)
    ensures DoubleColon !in C.TermsTokens(EachAlone(fs))
  {
    if fs != [] {
      assert DoubleColon !in C.FactorTokens(fs[0]);
      assert NoCast(fs[1..]);
      NoCastInOr(fs[1..]);
      assert EachAlone(fs)[1..] == EachAlone(fs[1..]);
      assert C.FactorsTokens([fs[0]]) == C.FactorTokens(fs[0]);
    }
  }

  lemma NoCastInGroups(negated: bool, fs: seq<C.BooleanFactor>)
    requires NoCast(fs)
    ensures NoCast([C.Factor(negated, AndGroup(fs))])
    ensures NoCast([C.Factor(false, C.Group(C.Disjunction(EachAlone(fs))))])
  {
    NoCastInAnd(fs);
    NoCastInOr(fs);
    assert C.TermsTokens([C.Conjunction(fs)]) == C.FactorsTokens(fs);
  }

  lemma {:induction false} NoCastInLists(vs: seq<Scalar>)
    ensures DoubleColon !in C.ListTokens(MembersOf(vs))
  {
    if vs != [] {
      NoCastInLists(vs[1..]);
      assert MembersOf(vs)[1..] == MembersOf(vs[1..]);
      assert DoubleColon !in C.OperandTokens(MemberOf(vs[0]));
    }
  }

  lemma NoCastInSearches(ctx: Context, field: string, op: Operator, text: string)
    requires IsSearch(op)
    ensures DoubleColon !in C.LikeTokens(MatchOf(ctx, field, op, text))
  {
    var column := C.Ref(C.Column(ctx.table, field));
    NoCastInFolds(column);
    NoCastInFolds(C.Literal(text));
    NoCastInPattern(PiecesOf(op, text));
    NoCastInPattern([C.Literal(SearchPattern(PlaceOf(op), ctx.toLowerCase(text)))]);
  }

  lemma {:induction false} NoCastInPattern(ps: seq<C.Chars>)
    requires forall p :: p in ps ==> DoubleColon !in C.CharsTokens(p)
    ensures DoubleColon !in C.PatternTokens(ps)
  {
    if ps != [] { NoCastInPattern(ps[1..]); }
  }

  lemma NoCastInFolds(c: C.Chars)
    requires !c.Fold?
    ensures DoubleColon !in C.CharsTokens(c) && DoubleColon !in C.CharsTokens(Folding(c))
    ensures DoubleColon !in C.CharsTokens(C.Fold("LOWER", c))
  {
    assert DoubleColon !in C.CharsTokens(C.Fold("UNACCENT", c));
  }

  lemma NoCastInAtom(p: C.Pred)
    requires DoubleColon !in C.TestTail(p)
    ensures NoCast([Atom(p)])
  {
    assert C.FactorTokens(Atom(p)) == C.PredTokens(p);
  }

  lemma NoCastInIn(column: C.Column, negated: bool, vs: seq<Scalar>)
    ensures NoCast([Atom(C.InList(column, negated, MembersOf(vs)))])
  {
    NoCastInLists(vs);
    NoCastInAtom(C.InList(column, negated, MembersOf(vs)));
  }

  lemma NoCastInCondition(ctx: Context, field: string, c: Condition)
    requires !ctx.postgres
    ensures NoCast(ConditionFactors(ctx, field, c))
  {
    var column := C.Column(ctx.table, field);
    match c.op
    case In => NoCastInIn(column, false, ListOf(c.operand));
    case NotIn => NoCastInIn(column, true, ListOf(c.operand));
    case IsNull => NoCastInAtom(C.NullTest(column, false));
    case IsNotNull => NoCastInAtom(C.NullTest(column, true));
    case Unrecognised(_) =>
    case Between =>
      if c.operand.Many? && |c.operand.values| == 2 {
        NoCastInAtom(C.Between(column, MemberOf(c.operand.values[0]), MemberOf(c.operand.values[1])));
      }
    case Contains => NoCastInSearches(ctx, field, Contains, TextOf(c.operand));
    case StartsWith => NoCastInSearches(ctx, field, StartsWith, TextOf(c.operand));
    case EndsWith => NoCastInSearches(ctx, field, EndsWith, TextOf(c.operand));
    case _ => NoCastInAtom(C.Comparison(column, RelOpOf(c.op), ComparedWith(ctx, field, c.operand)));
  }

  lemma {:induction false} NoCastInField(ctx: Context, field: string, cs: seq<Condition>)
    requires !ctx.postgres
    ensures NoCast(FieldFactors(ctx, field, cs))
  {
    if cs != [] {
      NoCastInCondition(ctx, field, cs[0]);
      NoCastInField(ctx, field, cs[1..]);
    }
  }

  lemma {:induction false} NoCastInFilter(ctx: Context, f: Filter)
    requires !ctx.postgres
    ensures NoCast(Factors(ctx, f))
    decreases f, 0
  {
    NoCastInEntries(ctx, f.entries);
  }

  lemma {:induction false} NoCastInEntries(ctx: Context, es: seq<Entry>)
    requires !ctx.postgres
    ensures NoCast(FactorsOf(ctx, es))
    decreases es, 1
  {
    if es != [] {
      NoCastInEntry(ctx, es[0]);
      NoCastInEntries(ctx, es[1..]);
    }
  }

  lemma {:induction false} NoCastInEntry(ctx: Context, e: Entry)
    requires !ctx.postgres
    ensures NoCast(EntryFactors(ctx, e))
    decreases e, 0
  {
    match e
    case And(ms) => NoCastInMembers(ctx, ms); NoCastInGroups(false, MemberFactors(ctx, ms));
    case Or(ms) => NoCastInMembers(ctx, ms); NoCastInGroups(false, MemberFactors(ctx, ms));
    case Not(inner) => NoCastInFilter(ctx, inner); NoCastInGroups(true, Factors(ctx, inner));
    case Field(name, cs) => NoCastInField(ctx, name, cs);
    case Shorthand(_, _) =>
  }

  lemma {:induction false} NoCastInMembers(ctx: Context, ms: seq<Filter>)
    requires !ctx.postgres
    ensures NoCast(MemberFactors(ctx, ms))
    decreases ms, 1
  {
    if ms != [] {
      NoCastInFilter(ctx, ms[0]);
      NoCastInMembers(ctx, ms[1..]);
      NoCastInGroups(false, Factors(ctx, ms[0]));
    }
  }

  /** Outside PostgreSQL nothing in the clause of any filter is cast. */
  lemma NoCastOutsidePostgres(ctx: Context, f: Filter)
    requires PrintableContext(ctx) && Scannable(ctx, f) && !ctx.postgres
    ensures Lex(WhereText(ctx, f), ctx.quote).Some? && DoubleColon !in Lex(WhereText(ctx, f), ctx.quote).value
  {
    if Parts(ctx, f) != [] {
      ClauseReadsAs(ctx, f);
      NoCastInFilter(ctx, f);
      NoCastInAnd(Factors(ctx, f));
    }
  }
}
