/** Search conditions after SQL-92 (ISO/IEC 9075:1992): the grammar of section 8.12 with the
    predicates a generated WHERE clause uses (8.2 to 8.6), a parser for it and its three-valued
    meaning. ILIKE and UNACCENT, which are PostgreSQL's, stand beside LIKE and LOWER. NOT binds
    tighter than AND, AND tighter than OR, and a BETWEEN takes the AND that follows it. */
module SqlCondition {
  import opened SqlLike
  import opened SqlText
  import opened Wrappers
  import opened Seqs

  datatype Column = Column(table: string, name: string)

  datatype Operand = NullOperand | Text(value: string) | Truthy(flag: bool) | Number(text: string) | Uuid(value: string)

  datatype Pred =
    | Comparison(column: Column, op: RelOp, operand: Operand)
    | InList(column: Column, negated: bool, operands: seq<Operand>)
    | Between(column: Column, low: Operand, high: Operand)
    | NullTest(column: Column, negated: bool)

  /** A character value: a column, a literal, or `lower(...)` and the like of one. */
  datatype Chars = Ref(column: Column) | Literal(value: string) | Fold(fn: string, arg: Chars)

  /** Section 8.5; the pattern is a concatenation. */
  datatype LikePredicate = LikePredicate(subject: Chars, insensitive: bool, pattern: seq<Chars>)

  datatype SearchCondition = Disjunction(terms: seq<BooleanTerm>)
  datatype BooleanTerm = Conjunction(factors: seq<BooleanFactor>)
  datatype BooleanFactor = Factor(negated: bool, primary: Primary)
  datatype Primary = Predicate(pred: Pred) | Match(like: LikePredicate) | Group(inner: SearchCondition)

  // ---------------------------------------------------------------- tokens of a condition

  function OperandTokens(o: Operand): seq<Token> {
    match o
    case NullOperand => [Word("NULL")]
    case Text(v) => [StringLiteral(v)]
    case Truthy(b) => [Word(if b then "TRUE" else "FALSE")]
    case Number(t) => [Numeral(t)]
    case Uuid(v) => [StringLiteral(v), DoubleColon, Word("UUID")]
  }

  function ListTokens(os: seq<Operand>): seq<Token> {
    if os == [] then [] else if |os| == 1 then OperandTokens(os[0])
      else OperandTokens(os[0]) + [Comma] + ListTokens(os[1..])
  }

  /** The first token of a predicate after its column. */
  function TestHead(p: Pred): Token {
    match p
    case Comparison(_, op, _) => Relation(op)
    case InList(_, negated, _) => Word(if negated then "NOT" else "IN")
    case Between(_, _, _) => Word("BETWEEN")
    case NullTest(_, _) => Word("IS")
  }

  function TestTail(p: Pred): seq<Token> {
    match p
    case Comparison(_, _, o) => OperandTokens(o)
    case InList(_, negated, os) => (if negated then [Word("IN")] else []) + [LeftParen] + ListTokens(os) + [RightParen]
    case Between(_, lo, hi) => OperandTokens(lo) + [Word("AND")] + OperandTokens(hi)
    case NullTest(_, negated) => if negated then [Word("NOT"), Word("NULL")] else [Word("NULL")]
  }

  function PredTokens(p: Pred): seq<Token> {
    [Identifier(p.column.table), Period, Identifier(p.column.name), TestHead(p)] + TestTail(p)
  }

  function CharsTokens(c: Chars): seq<Token> {
    match c
    case Ref(column) => [Identifier(column.table), Period, Identifier(column.name)]
    case Literal(v) => [StringLiteral(v)]
    case Fold(fn, arg) => [Word(fn), LeftParen] + CharsTokens(arg) + [RightParen]
  }

  function PatternTokens(ps: seq<Chars>): seq<Token> {
    if ps == [] then [] else if |ps| == 1 then CharsTokens(ps[0])
      else CharsTokens(ps[0]) + [Concat] + PatternTokens(ps[1..])
  }

  function LikeWord(insensitive: bool): Token { Word(if insensitive then "ILIKE" else "LIKE") }

  function LikeTokens(l: LikePredicate): seq<Token> {
    CharsTokens(l.subject) + [LikeWord(l.insensitive)] + PatternTokens(l.pattern)
  }

  function FactorTokens(f: BooleanFactor): seq<Token>
    decreases f, 0
  {
    (if f.negated then [Word("NOT")] else []) + PrimaryTokens(f.primary)
  }

  function PrimaryTokens(p: Primary): seq<Token>
    decreases p, 1
  {
    match p
    case Predicate(pred) => PredTokens(pred)
    case Match(like) => LikeTokens(like)
    case Group(c) => [LeftParen] + TermsTokens(c.terms) + [RightParen]
  }

  function FactorsTokens(fs: seq<BooleanFactor>): seq<Token>
    decreases fs, 1
  {
    if fs == [] then []
    else if |fs| == 1 then FactorTokens(fs[0])
    else FactorTokens(fs[0]) + [Word("AND")] + FactorsTokens(fs[1..])
  }

  function TermsTokens(ts: seq<BooleanTerm>): seq<Token>
    decreases ts, 2
  {
    if ts == [] then []
    else if |ts| == 1 then FactorsTokens(ts[0].factors)
    else FactorsTokens(ts[0].factors) + [Word("OR")] + TermsTokens(ts[1..])
  }

  // A condition of the grammar: no list in it is empty.

  predicate IsFold(fn: string) { fn == "LOWER" || fn == "UNACCENT" }

  predicate WellFormedChars(c: Chars) { c.Fold? ==> IsFold(c.fn) && WellFormedChars(c.arg) }

  predicate WellFormedLike(l: LikePredicate) {
    l.subject.Fold? && WellFormedChars(l.subject) && l.pattern != [] && forall p :: p in l.pattern ==>
      WellFormedChars(p)
  }

  predicate WellFormedTerms(ts: seq<BooleanTerm>)
    decreases ts, 2
  {
    ts != [] && WellFormedFactors(ts[0].factors) && (|ts| > 1 ==> WellFormedTerms(ts[1..]))
  }

  predicate WellFormedFactors(fs: seq<BooleanFactor>)
    decreases fs, 1
  {
    fs != [] && WellFormedFactor(fs[0]) && (|fs| > 1 ==> WellFormedFactors(fs[1..]))
  }

  predicate WellFormedFactor(f: BooleanFactor)
    decreases f, 0
  {
    match f.primary
    case Predicate(p) => p.InList? ==> p.operands != []
    case Match(like) => WellFormedLike(like)
    case Group(c) => WellFormedTerms(c.terms)
  }

  // ---------------------------------------------------------------- parser

  predicate StartsWith(ts: seq<Token>, t: Token) { ts != [] && ts[0] == t }

  datatype Parsed<T> = Failure | Success(value: T, rest: seq<Token>) {
    predicate IsFailure() { Failure? }
    function PropagateFailure<U>(): Parsed<U>
      requires IsFailure()
    {
      Failure
    }
    function Extract(): (T, seq<Token>)
      requires Success?
    {
      (value, rest)
    }
  }

  function ParseOperand(ts: seq<Token>): (r: Parsed<Operand>)
    ensures r.Success? ==> |r.rest| < |ts|
  {
    if ts == [] then Failure else
      match ts[0]
      case StringLiteral(v) =>
        if |ts| > 2 && ts[1] == DoubleColon && ts[2] == Word("UUID") then Success(Uuid(v), ts[3..])
          else Success(Text(v), ts[1..])
      case Numeral(t) => Success(Number(t), ts[1..])
      case Word(w) =>
        if w == "NULL" then Success(NullOperand, ts[1..])
        else if w == "TRUE" then Success(Truthy(true), ts[1..])
        else if w == "FALSE" then Success(Truthy(false), ts[1..])
        else Failure
      case _ => Failure
  }

  function ParseList(ts: seq<Token>): (r: Parsed<seq<Operand>>)
    ensures r.Success? ==> |r.rest| < |ts|
    decreases |ts|
  {
    var (o, rest) :- ParseOperand(ts);
    if StartsWith(rest, Comma) then
      var (os, rest') :- ParseList(rest[1..]);
      Success([o] + os, rest')
    else Success([o], rest)
  }

  function ParsePred(ts: seq<Token>): (r: Parsed<Pred>)
    ensures r.Success? ==> |r.rest| < |ts|
  {
    if |ts| < 4 || !ts[0].Identifier? || ts[1] != Period || !ts[2].Identifier? then Failure else
      var column := Column(ts[0].name, ts[2].name);
      ParseTest(column, ts[3], ts[4..])
  }

  /** The part of a predicate after its column: `head` and what follows it. */
  function ParseTest(column: Column, head: Token, ts: seq<Token>): (r: Parsed<Pred>)
    ensures r.Success? ==> |r.rest| <= |ts|
  {
    if head.Relation? then
      var (o, rest) :- ParseOperand(ts);
      Success(Comparison(column, head.op, o), rest)
    else if head == Word("IS") then
      if StartsWith(ts, Word("NULL")) then Success(NullTest(column, false), ts[1..])
      else if |ts| > 1 && ts[0] == Word("NOT") && ts[1] == Word("NULL") then Success(NullTest(column, true), ts[2..])
      else Failure
    else if head == Word("IN") then ParseIn(column, false, ts)
    else if head == Word("NOT") && StartsWith(ts, Word("IN")) then ParseIn(column, true, ts[1..])
    else if head == Word("BETWEEN") then
      var (lo, rest) :- ParseOperand(ts);
      if !StartsWith(rest, Word("AND")) then Failure else
        var (hi, rest') :- ParseOperand(rest[1..]);
        Success(Between(column, lo, hi), rest')
    else Failure
  }

  function ParseIn(column: Column, negated: bool, ts: seq<Token>): (r: Parsed<Pred>)
    ensures r.Success? ==> |r.rest| < |ts|
  {
    if !StartsWith(ts, LeftParen) then Failure else
      var (os, rest) :- ParseList(ts[1..]);
      if StartsWith(rest, RightParen) then Success(InList(column, negated, os), rest[1..]) else Failure
  }

  function ParseChars(ts: seq<Token>): (r: Parsed<Chars>)
    ensures r.Success? ==> |r.rest| < |ts|
    decreases |ts|
  {
    if ts == [] then Failure else
      match ts[0]
      case StringLiteral(v) => Success(Literal(v), ts[1..])
      case Identifier(table) =>
        if |ts| > 2 && ts[1] == Period && ts[2].Identifier? then Success(Ref(Column(table, ts[2].name)), ts[3..])
          else Failure
      case Word(fn) =>
        if !IsFold(fn) || !StartsWith(ts[1..], LeftParen) then Failure else
          var (arg, rest) :- ParseChars(ts[2..]);
          if StartsWith(rest, RightParen) then Success(Fold(fn, arg), rest[1..]) else Failure
      case _ => Failure
  }

  function ParsePattern(ts: seq<Token>): (r: Parsed<seq<Chars>>)
    ensures r.Success? ==> |r.rest| < |ts|
    decreases |ts|
  {
    var (c, rest) :- ParseChars(ts);
    if StartsWith(rest, Concat) then
      var (cs, rest') :- ParsePattern(rest[1..]);
      Success([c] + cs, rest')
    else Success([c], rest)
  }

  function ParseLike(ts: seq<Token>): (r: Parsed<LikePredicate>)
    ensures r.Success? ==> |r.rest| < |ts|
  {
    var (subject, rest) :- ParseChars(ts);
    if !StartsWith(rest, LikeWord(false)) && !StartsWith(rest, LikeWord(true)) then Failure else
      var (pattern, rest') :- ParsePattern(rest[1..]);
      Success(LikePredicate(subject, rest[0] == LikeWord(true), pattern), rest')
  }

  function ParseTerms(ts: seq<Token>): (r: Parsed<seq<BooleanTerm>>)
    ensures r.Success? ==> |r.rest| < |ts|
    decreases |ts|, 3
  {
    var (fs, rest) :- ParseFactors(ts);
    if StartsWith(rest, Word("OR")) then
      var (terms, rest') :- ParseTerms(rest[1..]);
      Success([Conjunction(fs)] + terms, rest')
    else Success([Conjunction(fs)], rest)
  }

  function ParseFactors(ts: seq<Token>): (r: Parsed<seq<BooleanFactor>>)
    ensures r.Success? ==> |r.rest| < |ts|
    decreases |ts|, 2
  {
    var (f, rest) :- ParseFactor(ts);
    if StartsWith(rest, Word("AND")) then
      var (fs, rest') :- ParseFactors(rest[1..]);
      Success([f] + fs, rest')
    else Success([f], rest)
  }

  function ParseFactor(ts: seq<Token>): (r: Parsed<BooleanFactor>)
    ensures r.Success? ==> |r.rest| < |ts|
    decreases |ts|, 1
  {
    if StartsWith(ts, Word("NOT")) then
      var (p, rest) :- ParsePrimary(ts[1..]);
      Success(Factor(true, p), rest)
    else
      var (p, rest) :- ParsePrimary(ts);
      Success(Factor(false, p), rest)
  }

  function ParsePrimary(ts: seq<Token>): (r: Parsed<Primary>)
    ensures r.Success? ==> |r.rest| < |ts|
    decreases |ts|, 0
  {
    if StartsWith(ts, LeftParen) then
      var (terms, rest) :- ParseTerms(ts[1..]);
      if StartsWith(rest, RightParen) then Success(Group(Disjunction(terms)), rest[1..]) else Failure
    else if ts != [] && ts[0].Word? then
      var (l, rest) :- ParseLike(ts);
      Success(Match(l), rest)
    else
      var (p, rest) :- ParsePred(ts);
      Success(Predicate(p), rest)
  }

  /** A whole text as a search condition. */
  function Parse(text: string, q: char): Option<SearchCondition> {
    match Lex(text, q)
    case None => None
    case Some(ts) =>
      match ParseTerms(ts)
      case Failure => None
      case Success(terms, rest) => if rest == [] then Some(Disjunction(terms)) else None
  }

  // ---------------------------------------------------------------- parsing undoes printing

  lemma OperandReadsBack(o: Operand, rest: seq<Token>)
    requires !StartsWith(rest, DoubleColon)
    ensures ParseOperand(OperandTokens(o) + rest) == Success(o, rest)
  {
  }

  lemma {:induction false} ListReadsBack(os: seq<Operand>, rest: seq<Token>)
    requires os != [] && !StartsWith(rest, DoubleColon) && !StartsWith(rest, Comma)
    ensures ParseList(ListTokens(os) + rest) == Success(os, rest)
    decreases |os|
  {
    if |os| == 1 {
      OperandReadsBack(os[0], rest);
      assert [os[0]] == os;
    } else {
      var tail := [Comma] + (ListTokens(os[1..]) + rest);
      Nested(OperandTokens(os[0]), [Comma], ListTokens(os[1..]), rest);
      OperandReadsBack(os[0], tail);
      assert tail[1..] == ListTokens(os[1..]) + rest;
      ListReadsBack(os[1..], rest);
      assert [os[0]] + os[1..] == os;
    }
  }

  /** What may follow a predicate. */
  predicate Ends(rest: seq<Token>) {
    rest == [] || rest[0] == Word("AND") || rest[0] == Word("OR") || rest[0] == RightParen
  }

  lemma InReadsBack(column: Column, negated: bool, os: seq<Operand>, rest: seq<Token>)
    requires os != [] && Ends(rest)
    ensures ParseIn(column, negated, [LeftParen] + ListTokens(os) + [RightParen] + rest)
            == Success(InList(column, negated, os), rest)
  {
    var ts, tail := [LeftParen] + ListTokens(os) + [RightParen] + rest, [RightParen] + rest;
    Nested([LeftParen], ListTokens(os), [RightParen], rest);
    ListReadsBack(os, tail);
    assert ([LeftParen] + (ListTokens(os) + tail))[1..] == ListTokens(os) + tail;
    assert tail[1..] == rest;
  }

  lemma NotInReadsBack(column: Column, os: seq<Operand>, rest: seq<Token>)
    requires os != [] && Ends(rest)
    ensures ParseTest(column, Word("NOT"), [Word("IN")] + [LeftParen] + ListTokens(os) + [RightParen] + rest)
            == Success(InList(column, true, os), rest)
  {
    InReadsBack(column, true, os, rest);
    var list := [LeftParen] + ListTokens(os) + [RightParen] + rest;
    assert [Word("IN")] + [LeftParen] + ListTokens(os) + [RightParen] + rest == [Word("IN")] + list;
    assert ([Word("IN")] + list)[1..] == list;
  }

  lemma BetweenReadsBack(column: Column, low: Operand, high: Operand, rest: seq<Token>)
    requires Ends(rest)
    ensures ParseTest(column, Word("BETWEEN"), OperandTokens(low) + [Word("AND")] + OperandTokens(high) + rest)
            == Success(Between(column, low, high), rest)
  {
    var tail := [Word("AND")] + (OperandTokens(high) + rest);
    assert OperandTokens(low) + [Word("AND")] + OperandTokens(high) + rest == OperandTokens(low) + tail;
    OperandReadsBack(low, tail);
    assert tail[1..] == OperandTokens(high) + rest;
    OperandReadsBack(high, rest);
  }

  lemma NullTestReadsBack(column: Column, negated: bool, rest: seq<Token>)
    ensures ParseTest(column, Word("IS"), TestTail(NullTest(column, negated)) + rest)
            == Success(NullTest(column, negated), rest)
  {
    if negated {
      assert ([Word("NOT"), Word("NULL")] + rest)[2..] == rest;
    } else {
      assert ([Word("NULL")] + rest)[1..] == rest;
    }
  }

  lemma TestReadsBack(p: Pred, rest: seq<Token>)
    requires p.InList? ==> p.operands != []
    requires Ends(rest)
    ensures ParseTest(p.column, TestHead(p), TestTail(p) + rest) == Success(p, rest)
  {
    match p
    case Comparison(_, op, o) => OperandReadsBack(o, rest);
    case InList(column, negated, os) =>
      if negated {
        NotInReadsBack(column, os, rest);
      } else {
        assert [] + [LeftParen] + ListTokens(os) + [RightParen] == [LeftParen] + ListTokens(os) + [RightParen];
        InReadsBack(column, false, os, rest);
      }
    case Between(column, lo, hi) => BetweenReadsBack(column, lo, hi, rest);
    case NullTest(column, negated) => NullTestReadsBack(column, negated, rest);
  }

  lemma ColumnReadsBack(column: Column, head: Token, ts: seq<Token>)
    ensures ParsePred([Identifier(column.table), Period, Identifier(column.name), head] + ts)
            == ParseTest(column, head, ts)
  {
    assert ([Identifier(column.table), Period, Identifier(column.name), head] + ts)[4..] == ts;
  }

  lemma PredReadsBack(p: Pred, rest: seq<Token>)
    requires p.InList? ==> p.operands != []
    requires Ends(rest)
    ensures ParsePred(PredTokens(p) + rest) == Success(p, rest)
    ensures PredTokens(p)[0].Identifier?
  {
    TestReadsBack(p, rest);
    ColumnReadsBack(p.column, TestHead(p), TestTail(p) + rest);
    Associative([Identifier(p.column.table), Period, Identifier(p.column.name), TestHead(p)], TestTail(p), rest);
  }

  lemma {:induction false} CharsReadBack(c: Chars, rest: seq<Token>)
    requires WellFormedChars(c)
    ensures CharsTokens(c) != [] && (c.Fold? ==> CharsTokens(c)[0] == Word(c.fn))
    ensures ParseChars(CharsTokens(c) + rest) == Success(c, rest)
  {
    if c.Fold? {
      CharsReadBack(c.arg, [RightParen] + rest);
      FoldReadsBack(c.fn, c.arg, CharsTokens(c.arg), rest);
    } else if c.Ref? {
      assert (CharsTokens(c) + rest)[3..] == rest;
    } else {
      assert (CharsTokens(c) + rest)[1..] == rest;
    }
  }

  lemma FoldReadsBack(fn: string, arg: Chars, ts: seq<Token>, rest: seq<Token>)
    requires IsFold(fn) && ParseChars(ts + ([RightParen] + rest)) == Success(arg, [RightParen] + rest)
    ensures ParseChars([Word(fn), LeftParen] + ts + [RightParen] + rest) == Success(Fold(fn, arg), rest)
  {
    var all := [Word(fn), LeftParen] + ts + [RightParen] + rest;
    Nested([Word(fn), LeftParen], ts, [RightParen], rest);
    assert all[2..] == ts + ([RightParen] + rest);
    assert all[0] == Word(fn) && all[1..][0] == LeftParen && ([RightParen] + rest)[1..] == rest;
  }

  lemma {:induction false} PatternReadsBack(ps: seq<Chars>, rest: seq<Token>)
    requires ps != [] && (forall p :: p in ps ==> WellFormedChars(p)) && !StartsWith(rest, Concat)
    ensures ParsePattern(PatternTokens(ps) + rest) == Success(ps, rest)
    decreases |ps|
  {
    if |ps| == 1 {
      CharsReadBack(ps[0], rest);
      assert [ps[0]] == ps;
    } else {
      var later := PatternTokens(ps[1..]);
      var tail := [Concat] + (later + rest);
      Nested(CharsTokens(ps[0]), [Concat], later, rest);
      CharsReadBack(ps[0], tail);
      assert tail[1..] == later + rest;
      PatternReadsBack(ps[1..], rest);
      assert [ps[0]] + ps[1..] == ps;
    }
  }

  lemma LikeParses(l: LikePredicate, ts: seq<Token>, tail: seq<Token>, rest: seq<Token>)
    requires StartsWith(tail, LikeWord(l.insensitive)) && ParseChars(ts) == Success(l.subject, tail)
    requires ParsePattern(tail[1..]) == Success(l.pattern, rest)
    ensures ParseLike(ts) == Success(l, rest)
  {
  }

  lemma LikeReadsBack(l: LikePredicate, rest: seq<Token>)
    requires WellFormedLike(l) && Ends(rest)
    ensures ParseLike(LikeTokens(l) + rest) == Success(l, rest)
    ensures LikeTokens(l) != [] && LikeTokens(l)[0] == Word(l.subject.fn)
  {
    var subject, pattern := CharsTokens(l.subject), PatternTokens(l.pattern);
    var tail := [LikeWord(l.insensitive)] + (pattern + rest);
    Nested(subject, [LikeWord(l.insensitive)], pattern, rest);
    CharsReadBack(l.subject, tail);
    assert tail[1..] == pattern + rest;
    PatternReadsBack(l.pattern, rest);
    LikeParses(l, subject + tail, tail, rest);
  }

  lemma PrimaryStarts(p: Primary)
    requires WellFormedFactor(Factor(false, p))
    ensures PrimaryTokens(p) != []
    ensures match p
            case Predicate(_) => PrimaryTokens(p)[0].Identifier?
            case Match(like) => PrimaryTokens(p)[0] == Word(like.subject.fn)
            case Group(_) => PrimaryTokens(p)[0] == LeftParen
  {
    if p.Match? { LikeReadsBack(p.like, []); }
  }

  lemma {:induction false} PrimaryReadsBack(p: Primary, rest: seq<Token>)
    requires WellFormedFactor(Factor(false, p)) && Ends(rest)
    ensures ParsePrimary(PrimaryTokens(p) + rest) == Success(p, rest)
    decreases p, 1
  {
    PrimaryStarts(p);
    match p
    case Predicate(pred) => PredReadsBack(pred, rest);
    case Match(like) => LikeReadsBack(like, rest);
    case Group(c) =>
      var ts, tail := PrimaryTokens(p) + rest, [RightParen] + rest;
      TermsReadBack(c.terms, tail);
      assert ts[1..] == TermsTokens(c.terms) + tail;
      assert tail[1..] == rest;
  }

  lemma {:induction false} FactorReadsBack(f: BooleanFactor, rest: seq<Token>)
    requires WellFormedFactor(f) && Ends(rest)
    ensures ParseFactor(FactorTokens(f) + rest) == Success(f, rest)
    decreases f, 0
  {
    PrimaryStarts(f.primary);
    PrimaryReadsBack(f.primary, rest);
    var body := PrimaryTokens(f.primary);
    if f.negated {
      Associative([Word("NOT")], body, rest);
      assert ([Word("NOT")] + (body + rest))[1..] == body + rest;
    } else {
      Associative([], body, rest);
      assert [] + (body + rest) == body + rest;
    }
  }

  lemma {:induction false} FactorsReadBack(fs: seq<BooleanFactor>, rest: seq<Token>)
    requires WellFormedFactors(fs)
    requires Ends(rest) && !StartsWith(rest, Word("AND"))
    ensures ParseFactors(FactorsTokens(fs) + rest) == Success(fs, rest)
    decreases fs, 1
  {
    if |fs| == 1 {
      FactorReadsBack(fs[0], rest);
      assert [fs[0]] == fs;
    } else {
      var later := FactorsTokens(fs[1..]);
      var tail := [Word("AND")] + (later + rest);
      Nested(FactorTokens(fs[0]), [Word("AND")], later, rest);
      FactorReadsBack(fs[0], tail);
      assert tail[1..] == later + rest;
      FactorsReadBack(fs[1..], rest);
      assert [fs[0]] + fs[1..] == fs;
    }
  }

  lemma {:induction false} TermsReadBack(ts: seq<BooleanTerm>, rest: seq<Token>)
    requires WellFormedTerms(ts)
    requires rest == [] || rest[0] == RightParen
    ensures ParseTerms(TermsTokens(ts) + rest) == Success(ts, rest)
    decreases ts, 2
  {
    if |ts| == 1 {
      FactorsReadBack(ts[0].factors, rest);
      assert [ts[0]] == ts;
    } else {
      var tail := [Word("OR")] + (TermsTokens(ts[1..]) + rest);
      assert TermsTokens(ts) + rest == FactorsTokens(ts[0].factors) + tail;
      FactorsReadBack(ts[0].factors, tail);
      assert tail[1..] == TermsTokens(ts[1..]) + rest;
      TermsReadBack(ts[1..], rest);
      assert [ts[0]] + ts[1..] == ts;
    }
  }

  /** A text that is scanned into the tokens of a well-formed condition is parsed back to it. */
  lemma ParseReadsBack(text: string, q: char, c: SearchCondition)
    requires WellFormedTerms(c.terms) && Lex(text, q) == Some(TermsTokens(c.terms))
    ensures Parse(text, q) == Some(c)
  {
    TermsReadBack(c.terms, []);
    assert TermsTokens(c.terms) + [] == TermsTokens(c.terms);
  }

  // ---------------------------------------------------------------- meaning

  datatype Truth = True | False | Unknown

  function Not(t: Truth): Truth {
    match t case True => False case False => True case Unknown => Unknown
  }

  function And(a: Truth, b: Truth): Truth {
    if a == False || b == False then False else if a == True && b == True then True else Unknown
  }

  function Or(a: Truth, b: Truth): Truth { Not(And(Not(a), Not(b))) }

  datatype Value = Null | String(s: string) | Boolean(b: bool) | Numeric(text: string)

  datatype Ordering = Below | Same | Above

  /** What the standard leaves to the data types and the dialect: how two non-null values compare, how a string is
      read as a uuid and a value as characters, what a folding function makes of a string, and which characters
      ILIKE takes for the same. */
  datatype Semantics = Semantics(compare: (Value, Value) -> Ordering, asUuid: string -> Value,
                                 asCharacters: Value -> string, fold: (string, string) -> string,
                                 sameLetter: (char, char) -> bool)

  type Row = string -> Value

  function ValueOf(o: Operand, sem: Semantics): Value {
    match o
    case NullOperand => Null
    case Text(v) => String(v)
    case Truthy(b) => Boolean(b)
    case Number(t) => Numeric(t)
    case Uuid(v) => sem.asUuid(v)
  }

  function TruthOf(b: bool): Truth { if b then True else False }

  /** Section 8.2: a comparison with a null operand is unknown. */
  function Compare(op: RelOp, a: Value, b: Value, sem: Semantics): Truth {
    if a == Null || b == Null then Unknown else
      var c := sem.compare(a, b);
      TruthOf(match op
              case Equal => c == Same
              case NotEqual => c != Same
              case Greater => c == Above
              case GreaterOrEqual => c != Below
              case Less => c == Below
              case LessOrEqual => c != Above)
  }

  /** Section 8.4: `x IN (v1, ..., vn)` is `x = v1 OR ... OR x = vn`. */
  function EvalIn(x: Value, os: seq<Operand>, sem: Semantics): Truth {
    if os == [] then False else Or(Compare(Equal, x, ValueOf(os[0], sem), sem), EvalIn(x, os[1..], sem))
  }

  function EvalPred(p: Pred, row: Row, sem: Semantics): Truth {
    var x := row(p.column.name);
    match p
    case Comparison(_, op, o) => Compare(op, x, ValueOf(o, sem), sem)
    case InList(_, negated, os) => if negated then Not(EvalIn(x, os, sem)) else EvalIn(x, os, sem)
    case Between(_, lo, hi) => And(Compare(GreaterOrEqual, x, ValueOf(lo, sem), sem),
                                   Compare(LessOrEqual, x, ValueOf(hi, sem), sem))
    case NullTest(_, negated) => TruthOf(if negated then x != Null else x == Null)
  }

  function CharactersOf(v: Value, sem: Semantics): string { if v.String? then v.s else sem.asCharacters(v) }

  function Folded(fn: string, v: Value, sem: Semantics): Value {
    if v == Null then Null else String(sem.fold(fn, CharactersOf(v, sem)))
  }

  function Joined(a: Value, b: Value, sem: Semantics): Value {
    if a == Null || b == Null then Null else String(CharactersOf(a, sem) + CharactersOf(b, sem))
  }

  function EvalChars(c: Chars, row: Row, sem: Semantics): Value {
    match c
    case Ref(column) => row(column.name)
    case Literal(v) => String(v)
    case Fold(fn, arg) => Folded(fn, EvalChars(arg, row, sem), sem)
  }

  /** Concatenation is read from the left. */
  function EvalPattern(ps: seq<Chars>, row: Row, sem: Semantics): Value {
    if ps == [] then String("")
    else if |ps| == 1 then EvalChars(ps[0], row, sem)
    else Joined(EvalPattern(ps[..|ps| - 1], row, sem), EvalChars(ps[|ps| - 1], row, sem), sem)
  }

  predicate Exactly(a: char, b: char) { a == b }

  function SameIn(insensitive: bool, sem: Semantics): (char, char) -> bool { if insensitive then sem.sameLetter
      else Exactly }

  /** Section 8.5: a match with a null operand is unknown. */
  function Like(insensitive: bool, x: Value, pattern: Value, sem: Semantics): Truth {
    if x == Null || pattern == Null then Unknown
    else TruthOf(Matches(SameIn(insensitive, sem), CharactersOf(pattern, sem), CharactersOf(x, sem)))
  }

  function EvalFactor(f: BooleanFactor, row: Row, sem: Semantics): Truth
    decreases f, 0
  {
    var t := match f.primary
      case Predicate(p) => EvalPred(p, row, sem)
      case Match(l) => Like(l.insensitive, EvalChars(l.subject, row, sem), EvalPattern(l.pattern, row, sem), sem)
      case Group(c) => EvalTerms(c.terms, row, sem);
    if f.negated then Not(t) else t
  }

  function EvalFactors(fs: seq<BooleanFactor>, row: Row, sem: Semantics): Truth
    decreases fs, 1
  {
    if fs == [] then True else And(EvalFactor(fs[0], row, sem), EvalFactors(fs[1..], row, sem))
  }

  function EvalTerms(ts: seq<BooleanTerm>, row: Row, sem: Semantics): Truth
    decreases ts, 2
  {
    if ts == [] then False else Or(EvalFactors(ts[0].factors, row, sem), EvalTerms(ts[1..], row, sem))
  }

  function Eval(c: SearchCondition, row: Row, sem: Semantics): Truth { EvalTerms(c.terms, row, sem) }
}
