/** Scanning the pieces of a WHERE clause: keywords, quoted fields, values, lists and single predicates are read as
    the tokens they stand for wherever they are put. */
module FilterScan {
  import opened SqlText
  import opened FilterCompiler
  import C = SqlCondition
  import opened Wrappers
  import opened Seqs

  // ---------------------------------------------------------------- what a value stands for

  function OperandOf(ctx: Context, field: string, v: Scalar): C.Operand {
    match v
    case Null => C.NullOperand
    case Str(s) => if ReadAsUuid(ctx, field, s) then C.Uuid(s) else C.Text(s)
    case Bool(b) => C.Truthy(b)
    case Num(t) => C.Number(t)
    case Composite(t) => C.Text(t)
  }

  /** A value that is never read as a uuid: shorthand values, IN members, BETWEEN bounds. */
  function MemberOf(v: Scalar): C.Operand {
    match v
    case Null => C.NullOperand
    case Str(s) => C.Text(s)
    case Bool(b) => C.Truthy(b)
    case Num(t) => C.Number(t)
    case Composite(t) => C.Text(t)
  }

  function ShorthandOf(o: Operand): C.Operand {
    if o.Many? then C.Text(ArrayText(o.values)) else MemberOf(o.value)
  }

  function MembersOf(vs: seq<Scalar>): (r: seq<C.Operand>)
    ensures |r| == |vs|
  {
    if vs == [] then [] else [MemberOf(vs[0])] + MembersOf(vs[1..])
  }

  function ComparedWith(ctx: Context, field: string, o: Operand): C.Operand {
    if o.Many? then C.Text(ArrayText(o.values)) else OperandOf(ctx, field, o.value)
  }

  function Atom(p: C.Pred): C.BooleanFactor { C.Factor(false, C.Predicate(p)) }

  // ---------------------------------------------------------------- what can be printed

  /** Numbers are finite, and nothing is nested in a list, where it would not be quoted. */
  predicate PrintableScalar(v: Scalar) { !v.Composite? && (v.Num? ==> IsNumeral(v.text)) }

  predicate IsFinite(o: Operand) { o.One? && o.value.Num? ==> IsNumeral(o.value.text) }

  /** Lower-casing leaves quotes as they are. */
  ghost predicate LowersAroundQuotes(ctx: Context) {
    forall s :: ctx.toLowerCase(Doubled(s, '\'')) == Doubled(ctx.toLowerCase(s), '\'')
  }

  ghost predicate PrintableContext(ctx: Context) {
    IsIdentifierQuote(ctx.quote) && ctx.quote !in ctx.table && LowersAroundQuotes(ctx)
  }

  // ---------------------------------------------------------------- scanning the fixed texts

  lemma SpaceReads(rest: string, q: char)
    requires IsIdentifierQuote(q)
    ensures Lex(" " + rest, q) == Lex(rest, q)
  {
    assert (" " + rest)[1..] == rest;
  }

  lemma {:induction false} RunEndIs(s: string, i: nat, n: nat, inClass: char -> bool)
    requires i <= n <= |s|
    requires forall k :: i <= k < n ==> inClass(s[k])
    requires n < |s| ==> !inClass(s[n])
    ensures RunEnd(s, i, inClass) == n
    decreases n - i
  {
    if i < n { RunEndIs(s, i + 1, n, inClass); }
  }

  lemma WordReads(w: string, up: string, rest: string, q: char)
    requires IsIdentifierQuote(q)
    requires w != "" && (forall k :: 0 <= k < |w| ==> IsLetter(w[k])) && Upper(w) == up
    requires rest == "" || !IsLetter(rest[0])
    ensures Lex(w + rest, q) == Prepend([Word(up)], Lex(rest, q))
  {
    RunEndIs(w + rest, 1, |w|, IsLetter);
    assert (w + rest)[..|w|] == w && (w + rest)[|w|..] == rest;
  }

  lemma WordReadsAs(w: string, up: string, q: char)
    requires IsIdentifierQuote(q)
    requires w != "" && (forall k :: 0 <= k < |w| ==> IsLetter(w[k])) && Upper(w) == up
    ensures ReadsAs(w, [Word(up)], q)
  {
    forall rest | Delimited(rest) ensures Lex(w + rest, q) == Prepend([Word(up)], Lex(rest, q)) {
      WordReads(w, up, rest, q);
    }
  }

  /** A word with a space on both sides. */
  lemma SpacedWordReads(text: string, w: string, up: string, q: char)
    requires IsIdentifierQuote(q) && text == " " + w + " "
    requires w != "" && (forall k :: 0 <= k < |w| ==> IsLetter(w[k])) && Upper(w) == up
    ensures AlwaysReadsAs(text, [Word(up)], q)
  {
    forall rest ensures Lex(text + rest, q) == Prepend([Word(up)], Lex(rest, q)) {
      Nested(" ", w, " ", rest);
      SpaceReads(w + (" " + rest), q);
      WordReads(w, up, " " + rest, q);
      SpaceReads(rest, q);
    }
  }

  lemma OpenReads(q: char)
    requires IsIdentifierQuote(q)
    ensures AlwaysReadsAs("(", [LeftParen], q)
  {
    forall rest ensures Lex("(" + rest, q) == Prepend([LeftParen], Lex(rest, q)) {
      assert ("(" + rest)[1..] == rest;
    }
  }

  lemma NotOpenReads(q: char)
    requires IsIdentifierQuote(q)
    ensures AlwaysReadsAs("NOT (", [Word("NOT"), LeftParen], q)
  {
    forall rest ensures Lex("NOT (" + rest, q) == Prepend([Word("NOT"), LeftParen], Lex(rest, q)) {
      assert "NOT (" + rest == "NOT" + (" " + ("(" + rest));
      NotIsUpper();
      WordReads("NOT", "NOT", " " + ("(" + rest), q);
      SpaceReads("(" + rest, q);
      OpenReads(q);
      AlwaysReadAt("(", [LeftParen], q, rest);
      PrependTwice([Word("NOT")], [LeftParen], Lex(rest, q));
      assert [Word("NOT")] + [LeftParen] == [Word("NOT"), LeftParen];
    }
  }

  lemma NotIsUpper() ensures Upper("NOT") == "NOT" {
    assert "NOT"[1..] == "OT" && "OT"[1..] == "T" && "T"[1..] == "";
  }

  lemma CommaReads(q: char)
    requires IsIdentifierQuote(q)
    ensures AlwaysReadsAs(", ", [Comma], q)
  {
    forall rest ensures Lex(", " + rest, q) == Prepend([Comma], Lex(rest, q)) {
      assert (", " + rest)[1..] == " " + rest;
      SpaceReads(rest, q);
    }
  }

  function RelationText(op: RelOp): string {
    match op
    case Equal => "="
    case NotEqual => "!="
    case Greater => ">"
    case GreaterOrEqual => ">="
    case Less => "<"
    case LessOrEqual => "<="
  }

  lemma RelationReads(op: RelOp, q: char)
    requires IsIdentifierQuote(q)
    ensures AlwaysReadsAs(" " + RelationText(op) + " ", [Token.Relation(op)], q)
  {
    forall rest ensures Lex(" " + RelationText(op) + " " + rest, q) == Prepend([Token.Relation(op)], Lex(rest, q)) {
      var tail := " " + rest;
      var s := RelationText(op) + tail;
      assert " " + RelationText(op) + " " + rest == " " + s;
      SpaceReads(s, q);
      SpaceReads(rest, q);
      if |RelationText(op)| == 1 {
        assert s[1..] == tail;
      } else {
        assert s[1..][0] == '=' && s[1..][1..] == tail;
      }
    }
  }

  // ---------------------------------------------------------------- scanning the operands

  /** `w` is `u` in capital letters. */
  lemma {:induction false} UpperIs(w: string, u: string)
    requires |w| == |u| && forall k :: 0 <= k < |w| ==> UpperChar(w[k]) == u[k]
    ensures Upper(w) == u
  {
    if w != "" {
      UpperIs(w[1..], u[1..]);
      assert u == [u[0]] + u[1..];
    }
  }

  lemma KeywordsAreUpper()
    ensures Upper("true") == "TRUE" && Upper("false") == "FALSE" && Upper("null") == "NULL" && Upper("NULL") == "NULL"
  {
    UpperIs("true", "TRUE");
    UpperIs("false", "FALSE");
    UpperIs("null", "NULL");
    UpperIs("NULL", "NULL");
  }

  lemma OperatorsAreUpper()
    ensures Upper("AND") == "AND" && Upper("OR") == "OR" && Upper("IN") == "IN" && Upper("IS") == "IS"
  {
    UpperIs("AND", "AND");
    UpperIs("OR", "OR");
    UpperIs("IN", "IN");
    UpperIs("IS", "IS");
  }

  lemma {:induction false} NothingToDouble(s: string, q: char)
    requires q !in s
    ensures Doubled(s, q) == s
  {
    if s != "" { NothingToDouble(s[1..], q); }
  }

  /** A quoted text in front of anything but another quote is one token. */
  lemma QuotedReads(s: string, c: char, rest: string, q: char)
    requires IsIdentifierQuote(q) && (c == q || c == '\'')
    requires rest == "" || rest[0] != c
    ensures Lex(Quote(s, c) + rest, q) ==
            Prepend([if c == '\'' then StringLiteral(s) else Identifier(s)], Lex(rest, q))
  {
    var inside := Doubled(s, c) + [c] + rest;
    assert Quote(s, c) + rest == [c] + inside;
    QuotedReadsBack(s, c, rest);
    QuoteOpens(c, inside, s, rest, q);
  }

  lemma QuoteOpens(c: char, inside: string, value: string, rest: string, q: char)
    requires IsIdentifierQuote(q) && (c == q || c == '\'')
    requires ReadQuoted(inside, c) == Some((value, rest))
    ensures Lex([c] + inside, q) == Prepend([if c == '\'' then StringLiteral(value) else Identifier(value)],
                                            Lex(rest, q))
  {
    assert ([c] + inside)[1..] == inside;
  }

  lemma TextReadsAs(s: string, q: char)
    requires IsIdentifierQuote(q)
    ensures ReadsAs(QuoteText(s), [StringLiteral(s)], q)
  {
    forall rest | Delimited(rest) ensures Lex(QuoteText(s) + rest, q) == Prepend([StringLiteral(s)], Lex(rest, q)) {
      QuotedReads(s, '\'', rest, q);
    }
  }

  lemma UuidReadsAs(s: string, q: char)
    requires IsIdentifierQuote(q) && LooksLikeUuid(s)
    ensures ReadsAs("'" + s + "'" + "::uuid", [StringLiteral(s), DoubleColon, Word("UUID")], q)
  {
    assert '\'' !in s;
    NothingToDouble(s, '\'');
    assert "'" + s + "'" == QuoteText(s);
    forall rest | Delimited(rest)
      ensures Lex(QuoteText(s) + "::uuid" + rest, q)
              == Prepend([StringLiteral(s), DoubleColon, Word("UUID")], Lex(rest, q))
    {
      var tail := "uuid" + rest;
      assert QuoteText(s) + "::uuid" + rest == QuoteText(s) + ("::" + tail);
      QuotedReads(s, '\'', "::" + tail, q);
      assert ("::" + tail)[1..][1..] == tail;
      UpperIs("uuid", "UUID");
      WordReads("uuid", "UUID", rest, q);
      PrependTwice([DoubleColon], [Word("UUID")], Lex(rest, q));
      PrependTwice([StringLiteral(s)], [DoubleColon] + [Word("UUID")], Lex(rest, q));
      assert [StringLiteral(s)] + ([DoubleColon] + [Word("UUID")]) == [StringLiteral(s), DoubleColon, Word("UUID")];
    }
  }

  lemma NumeralReadsAs(t: string, q: char)
    requires IsIdentifierQuote(q) && IsNumeral(t)
    ensures ReadsAs(t, [Numeral(t)], q)
  {
    forall rest | Delimited(rest) ensures Lex(t + rest, q) == Prepend([Numeral(t)], Lex(rest, q)) {
      RunEndIs(t + rest, 1, |t|, IsNumeralChar);
      assert (t + rest)[..|t|] == t && (t + rest)[|t|..] == rest;
    }
  }

  lemma MemberReadsAs(v: Scalar, q: char)
    requires IsIdentifierQuote(q) && PrintableScalar(v)
    ensures ReadsAs(MemberText(v), C.OperandTokens(MemberOf(v)), q)
    ensures ReadsAs(ShorthandText(One(v)), C.OperandTokens(MemberOf(v)), q)
  {
    KeywordsAreUpper();
    match v
    case Null => WordReadsAs("null", "NULL", q); WordReadsAs("NULL", "NULL", q);
    case Str(s) => TextReadsAs(s, q);
    case Bool(b) => if b { WordReadsAs("true", "TRUE", q); } else { WordReadsAs("false", "FALSE", q); }
    case Num(t) => NumeralReadsAs(t, q);
  }

  lemma OperandReadsAs(ctx: Context, field: string, o: Operand)
    requires PrintableContext(ctx) && IsFinite(o)
    ensures ReadsAs(OperandText(ctx, field, o), C.OperandTokens(ComparedWith(ctx, field, o)), ctx.quote)
  {
    if o.Many? {
      TextReadsAs(ArrayText(o.values), ctx.quote);
    } else if o.value.Str? && ReadAsUuid(ctx, field, o.value.s) {
      UuidReadsAs(o.value.s, ctx.quote);
    } else if o.value.Composite? {
      TextReadsAs(o.value.text, ctx.quote);
    } else {
      MemberReadsAs(o.value, ctx.quote);
    }
  }

  function FieldTokens(ctx: Context, field: string): seq<Token> {
    [Identifier(ctx.table), Period, Identifier(field)]
  }

  lemma FieldReadsAs(ctx: Context, field: string)
    requires PrintableContext(ctx) && ctx.quote !in field
    ensures ReadsAs(QuotedField(ctx, field), FieldTokens(ctx, field), ctx.quote)
  {
    var q := ctx.quote;
    NothingToDouble(ctx.table, q);
    NothingToDouble(field, q);
    var t, f := Quote(ctx.table, q), Quote(field, q);
    forall rest | Delimited(rest)
      ensures Lex(QuotedField(ctx, field) + rest, q) == Prepend(FieldTokens(ctx, field), Lex(rest, q))
    {
      var tail := f + rest;
      assert QuotedField(ctx, field) + rest == t + ("." + tail);
      QuotedReads(ctx.table, q, "." + tail, q);
      assert ("." + tail)[1..] == tail;
      QuotedReads(field, q, rest, q);
      PrependTwice([Period], [Identifier(field)], Lex(rest, q));
      PrependTwice([Identifier(ctx.table)], [Period] + [Identifier(field)], Lex(rest, q));
      assert [Identifier(ctx.table)] + ([Period] + [Identifier(field)]) == FieldTokens(ctx, field);
    }
  }

  lemma EmptyReads(q: char)
    ensures ReadsAs("", [], q)
  {
    forall rest | Delimited(rest) ensures Lex("" + rest, q) == Prepend([], Lex(rest, q)) {
      assert "" + rest == rest;
      if Lex(rest, q).Some? { assert [] + Lex(rest, q).value == Lex(rest, q).value; }
    }
  }

  lemma {:induction false} ListReadsAs(vs: seq<Scalar>, q: char)
    requires IsIdentifierQuote(q) && forall v :: v in vs ==> PrintableScalar(v)
    ensures ReadsAs(Join(MemberTexts(vs), ", "), C.ListTokens(MembersOf(vs)), q)
  {
    if vs == [] {
      EmptyReads(q);
    } else {
      MemberReadsAs(vs[0], q);
    }
    if |vs| > 1 {
      ListReadsAs(vs[1..], q);
      CommaReads(q);
      var texts, ops := MemberTexts(vs), MembersOf(vs);
      assert texts[1..] == MemberTexts(vs[1..]) && ops[1..] == MembersOf(vs[1..]);
      ReadsAsSequence(texts[0], C.OperandTokens(ops[0]), ", ", [Comma], Join(texts[1..], ", "),
                      C.ListTokens(ops[1..]), q);
    }
  }

  // ---------------------------------------------------------------- scanning one part

  ghost predicate PartReadsAs(part: string, f: C.BooleanFactor, q: char) {
    ReadsAs(part, C.FactorTokens(f), q)
  }

  /** A predicate part: field, separator, rest. */
  lemma AtomReadsAs(ctx: Context, p: C.Pred, sep: string, head: seq<Token>, b: string, tail: seq<Token>, part: string)
    requires PrintableContext(ctx) && ctx.quote !in p.column.name && p.column.table == ctx.table
    requires sep != "" && Delimited(sep) && AlwaysReadsAs(sep, head, ctx.quote) && ReadsAs(b, tail, ctx.quote)
    requires part == QuotedField(ctx, p.column.name) + sep + b
    requires head + tail == [C.TestHead(p)] + C.TestTail(p)
    ensures PartReadsAs(part, Atom(p), ctx.quote)
  {
    var f := FieldTokens(ctx, p.column.name);
    FieldReadsAs(ctx, p.column.name);
    ReadsAsSequence(QuotedField(ctx, p.column.name), f, sep, head, b, tail, ctx.quote);
    AtomTokens(p, f, head, tail);
  }

  lemma AtomTokens(p: C.Pred, f: seq<Token>, head: seq<Token>, tail: seq<Token>)
    requires f == [Identifier(p.column.table), Period, Identifier(p.column.name)]
    requires head + tail == [C.TestHead(p)] + C.TestTail(p)
    ensures f + head + tail == C.FactorTokens(Atom(p))
  {
    Associative(f, head, tail);
    assert f + ([C.TestHead(p)] + C.TestTail(p)) == C.PredTokens(p);
    assert [] + C.PredTokens(p) == C.PredTokens(p);
  }

  lemma ComparisonReadsAs(ctx: Context, field: string, op: RelOp, o: C.Operand, v: string, part: string)
    requires PrintableContext(ctx) && ctx.quote !in field
    requires ReadsAs(v, C.OperandTokens(o), ctx.quote)
    requires part == QuotedField(ctx, field) + (" " + RelationText(op) + " ") + v
    ensures PartReadsAs(part, Atom(C.Comparison(C.Column(ctx.table, field), op, o)), ctx.quote)
  {
    RelationReads(op, ctx.quote);
    AtomReadsAs(ctx, C.Comparison(C.Column(ctx.table, field), op, o), " " + RelationText(op) + " ",
                [Token.Relation(op)],
                v, C.OperandTokens(o), part);
  }

  lemma NullTestReadsAs(ctx: Context, field: string, negated: bool)
    requires PrintableContext(ctx) && ctx.quote !in field
    ensures PartReadsAs(QuotedField(ctx, field) + (if negated then " IS NOT NULL" else " IS NULL"),
                        Atom(C.NullTest(C.Column(ctx.table, field), negated)), ctx.quote)
  {
    if negated {
      NotNullReadsAs(ctx.quote);
      IsReadsAs(ctx, field, negated, "NOT NULL", [Word("NOT"), Word("NULL")], " IS NOT NULL");
    } else {
      KeywordsAreUpper();
      WordReadsAs("NULL", "NULL", ctx.quote);
      IsReadsAs(ctx, field, negated, "NULL", [Word("NULL")], " IS NULL");
    }
  }

  lemma IsReadsAs(ctx: Context, field: string, negated: bool, what: string, tail: seq<Token>, text: string)
    requires PrintableContext(ctx) && ctx.quote !in field
    requires ReadsAs(what, tail, ctx.quote) && text == " IS " + what
    requires tail == if negated then [Word("NOT"), Word("NULL")] else [Word("NULL")]
    ensures PartReadsAs(QuotedField(ctx, field) + text, Atom(C.NullTest(C.Column(ctx.table, field), negated)),
                        ctx.quote)
  {
    var f := QuotedField(ctx, field);
    OperatorsAreUpper();
    SpacedWordReads(" IS ", "IS", "IS", ctx.quote);
    AppendSplit(f, " IS ", what, text);
    AtomReadsAs(ctx, C.NullTest(C.Column(ctx.table, field), negated), " IS ", [Word("IS")], what, tail, f + text);
  }

  lemma AppendSplit(f: string, a: string, b: string, ab: string)
    requires a + b == ab
    ensures f + a + b == f + ab
  {
  }

  lemma NotNullReadsAs(q: char)
    requires IsIdentifierQuote(q)
    ensures ReadsAs("NOT NULL", [Word("NOT"), Word("NULL")], q)
  {
    KeywordsAreUpper();
    NotIsUpper();
    forall rest | Delimited(rest)
      ensures Lex("NOT NULL" + rest, q) == Prepend([Word("NOT"), Word("NULL")], Lex(rest, q))
    {
      var tail := "NULL" + rest;
      assert "NOT NULL" + rest == "NOT" + (" " + tail);
      WordReads("NOT", "NOT", " " + tail, q);
      SpaceReads(tail, q);
      WordReads("NULL", "NULL", rest, q);
      PrependTwice([Word("NOT")], [Word("NULL")], Lex(rest, q));
      assert [Word("NOT")] + [Word("NULL")] == [Word("NOT"), Word("NULL")];
    }
  }

  lemma InReadsAs(ctx: Context, field: string, negated: bool, vs: seq<Scalar>)
    requires PrintableContext(ctx) && ctx.quote !in field
    requires forall v :: v in vs ==> PrintableScalar(v)
    ensures PartReadsAs(QuotedField(ctx, field) + (if negated then " NOT IN (" else " IN (") +
                        Join(MemberTexts(vs), ", ") + ")",
                        Atom(C.InList(C.Column(ctx.table, field), negated, MembersOf(vs))), ctx.quote)
  {
    var q, f, list, ts := ctx.quote, QuotedField(ctx, field), Join(MemberTexts(vs), ", "), C.ListTokens(MembersOf(vs));
    ListReadsAs(vs, q);
    OpenReads(q);
    ReadsAsParenthesised("(", [LeftParen], list, ts, q);
    var p := C.InList(C.Column(ctx.table, field), negated, MembersOf(vs));
    var inner, listTokens := "(" + list + ")", [LeftParen] + ts + [RightParen];
    if negated {
      NotInReads(q);
      InTextSplits(f, " NOT IN ", list, " NOT IN (");
      InTokensSplit([Word("NOT"), Word("IN")], Word("NOT"), [Word("IN")], ts);
      AtomReadsAs(ctx, p, " NOT IN ", [Word("NOT"), Word("IN")], inner, listTokens, f + " NOT IN (" + list + ")");
    } else {
      OperatorsAreUpper();
      SpacedWordReads(" IN ", "IN", "IN", q);
      InTextSplits(f, " IN ", list, " IN (");
      InTokensSplit([Word("IN")], Word("IN"), [], ts);
      AtomReadsAs(ctx, p, " IN ", [Word("IN")], inner, listTokens, f + " IN (" + list + ")");
    }
  }

  lemma InTextSplits(f: string, sep: string, list: string, open: string)
    requires open == sep + "("
    ensures f + open + list + ")" == f + sep + ("(" + list + ")")
  {
  }

  lemma InTokensSplit(head: seq<Token>, first: Token, second: seq<Token>, ts: seq<Token>)
    requires head == [first] + second
    ensures head + ([LeftParen] + ts + [RightParen]) == [first] + (second + [LeftParen] + ts + [RightParen])
  {
  }

  lemma NotInReads(q: char)
    requires IsIdentifierQuote(q)
    ensures AlwaysReadsAs(" NOT IN ", [Word("NOT"), Word("IN")], q)
  {
    OperatorsAreUpper();
    NotIsUpper();
    forall rest ensures Lex(" NOT IN " + rest, q) == Prepend([Word("NOT"), Word("IN")], Lex(rest, q)) {
      var tail := "IN" + (" " + rest);
      assert " NOT IN " + rest == " " + ("NOT" + (" " + tail));
      SpaceReads("NOT" + (" " + tail), q);
      WordReads("NOT", "NOT", " " + tail, q);
      SpaceReads(tail, q);
      WordReads("IN", "IN", " " + rest, q);
      SpaceReads(rest, q);
      PrependTwice([Word("NOT")], [Word("IN")], Lex(rest, q));
      assert [Word("NOT")] + [Word("IN")] == [Word("NOT"), Word("IN")];
    }
  }

  lemma AndReads(q: char)
    requires IsIdentifierQuote(q)
    ensures AlwaysReadsAs(" AND ", [Word("AND")], q)
  {
    OperatorsAreUpper();
    SpacedWordReads(" AND ", "AND", "AND", q);
  }

  lemma OrReads(q: char)
    requires IsIdentifierQuote(q)
    ensures AlwaysReadsAs(" OR ", [Word("OR")], q)
  {
    OperatorsAreUpper();
    SpacedWordReads(" OR ", "OR", "OR", q);
  }

  lemma BetweenReads(q: char)
    requires IsIdentifierQuote(q)
    ensures AlwaysReadsAs(" BETWEEN ", [Word("BETWEEN")], q)
  {
    UpperIs("BETWEEN", "BETWEEN");
    SpacedWordReads(" BETWEEN ", "BETWEEN", "BETWEEN", q);
  }

  lemma BetweenReadsAs(ctx: Context, field: string, lo: Scalar, hi: Scalar)
    requires PrintableContext(ctx) && ctx.quote !in field && PrintableScalar(lo) && PrintableScalar(hi)
    ensures PartReadsAs(QuotedField(ctx, field) + " BETWEEN " + MemberText(lo) + " AND " + MemberText(hi),
                        Atom(C.Between(C.Column(ctx.table, field), MemberOf(lo), MemberOf(hi))), ctx.quote)
  {
    var q, f := ctx.quote, QuotedField(ctx, field);
    MemberReadsAs(lo, q);
    MemberReadsAs(hi, q);
    AndReads(q);
    BetweenReads(q);
    var tl, th := C.OperandTokens(MemberOf(lo)), C.OperandTokens(MemberOf(hi));
    ReadsAsSequence(MemberText(lo), tl, " AND ", [Word("AND")], MemberText(hi), th, q);
    BoundsSplit(f, " BETWEEN ", MemberText(lo), " AND ", MemberText(hi));
    AtomReadsAs(ctx, C.Between(C.Column(ctx.table, field), MemberOf(lo), MemberOf(hi)), " BETWEEN ", [Word("BETWEEN")],
                MemberText(lo) + " AND " + MemberText(hi), tl + [Word("AND")] + th,
                f + " BETWEEN " + MemberText(lo) + " AND " + MemberText(hi));
  }

  lemma BoundsSplit(f: string, b: string, lo: string, a: string, hi: string)
    ensures f + b + lo + a + hi == f + b + (lo + a + hi)
  {
  }
}
