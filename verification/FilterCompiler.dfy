/** `buildWhereFromFilter` of sql-query-executor.ts: the recursive compiler from a nested
    filter to the text of a WHERE clause, and the loops that carry it out. */
module FilterCompiler {
  import opened SqlText

  /** A JSON value beside an operator or in a list. A number carries its decimal rendering; an array in a list, or
      an object, carries what `String(v)` makes of it. */
  datatype Scalar = Null | Str(s: string) | Bool(b: bool) | Num(text: string) | Composite(text: string)

  /** The value beside an operator. */
  datatype Operand = One(value: Scalar) | Many(values: seq<Scalar>)

  /** The operator keys of `buildWhereFromFilter`; a key it does not know emits nothing. */
  datatype Operator =
    | Eq | Neq | Gt | Gte | Lt | Lte
    | IsNull | IsNotNull | In | NotIn | Between
    | Contains | StartsWith | EndsWith
    | Unrecognised(key: string)

  datatype Condition = Condition(op: Operator, operand: Operand)

  /** The entries of a filter object, in key order. */
  datatype Filter = Filter(entries: seq<Entry>)

  datatype Entry =
    | And(members: seq<Filter>)
    | Or(members: seq<Filter>)
    | Not(inner: Filter)
    | Field(name: string, conditions: seq<Condition>)
    | Shorthand(name: string, value: Operand)

  /** What the compiler reads from its surroundings: the table name, the dialect's identifier
      quote, whether it is PostgreSQL, the columns whose type is a uuid, and `toLowerCase`. */
  datatype Context = Context(table: string, quote: char, postgres: bool, uuidColumns: set<string>,
                             toLowerCase: string -> string)

  function Join(parts: seq<string>, separator: string): string {
    if parts == [] then "" else if |parts| == 1 then parts[0] else parts[0] + separator + Join(parts[1..], separator)
  }

  // ---------------------------------------------------------------- values

  predicate IsHex(c: char) { '0' <= c <= '9' || 'a' <= c <= 'f' || 'A' <= c <= 'F' }

  /** The pattern of a uuid: groups of 8, 4, 4, 4 and 12 hexadecimal digits. */
  predicate LooksLikeUuid(s: string) {
    |s| == 36 && forall i :: 0 <= i < 36 ==> if i in {8, 13, 18, 23} then s[i] == '-' else IsHex(s[i])
  }

  predicate ReadAsUuid(ctx: Context, field: string, s: string) {
    field in ctx.uuidColumns && LooksLikeUuid(s) && ctx.postgres
  }

  function QuoteText(s: string): string { Quote(s, '\'') }

  /** `String(v)`. */
  function PlainText(v: Scalar): string {
    match v
    case Null => "null"
    case Str(s) => s
    case Bool(b) => if b then "true" else "false"
    case Num(t) => t
    case Composite(t) => t
  }

  /** `String([v1, ..., vn])`: null members are empty. */
  function ArrayText(vs: seq<Scalar>): string {
    if vs == [] then "" else
      (if vs[0].Null? then "" else PlainText(vs[0])) + (if |vs| == 1 then "" else "," + ArrayText(vs[1..]))
  }

  /** `sqlValue` of an operator's operand. */
  function OperandText(ctx: Context, field: string, o: Operand): string {
    match o
    case Many(vs) => QuoteText(ArrayText(vs))
    case One(v) =>
      match v
      case Null => "NULL"
      case Str(s) => if ReadAsUuid(ctx, field, s) then "'" + s + "'" + "::uuid" else QuoteText(s)
      case Bool(b) => if b then "true" else "false"
      case Num(t) => t
      case Composite(t) => QuoteText(t)
  }

  /** `sqlValue` of a value given without an operator. An array is written as it stands. */
  function ShorthandText(o: Operand): string {
    match o
    case Many(vs) => ArrayText(vs)
    case One(v) =>
      match v
      case Null => "NULL"
      case Str(s) => QuoteText(s)
      case Bool(b) => if b then "true" else "false"
      case Num(t) => t
      case Composite(t) => t
  }

  /** `String(val)` of an operator's operand. */
  function TextOf(o: Operand): string { if o.Many? then ArrayText(o.values) else PlainText(o.value) }

  /** A member of an IN list or a bound of a BETWEEN. */
  function MemberText(v: Scalar): string {
    if v.Str? then QuoteText(v.s) else PlainText(v)
  }

  function MemberTexts(vs: seq<Scalar>): (r: seq<string>)
    ensures |r| == |vs|
  {
    if vs == [] then [] else [MemberText(vs[0])] + MemberTexts(vs[1..])
  }

  function ListOf(o: Operand): seq<Scalar> { if o.Many? then o.values else [o.value] }

  // ---------------------------------------------------------------- the compiled text

  function QuoteIdentifier(name: string, quote: char): string { [quote] + name + [quote] }

  function QuotedField(ctx: Context, field: string): string {
    QuoteIdentifier(ctx.table, ctx.quote) + "." + QuoteIdentifier(field, ctx.quote)
  }

  predicate IsSearch(op: Operator) { op == Contains || op == StartsWith || op == EndsWith }

  /** Percent signs around a pattern that SQL computes. */
  function JoinedPattern(op: Operator, folded: string): string
    requires IsSearch(op)
  {
    match op
    case Contains => "'%' || " + folded + " || '%'"
    case StartsWith => folded + " || '%'"
    case EndsWith => "'%' || " + folded
  }

  /** Percent signs in a literal. */
  function LiteralPattern(op: Operator, lowered: string): string
    requires IsSearch(op)
  {
    match op
    case Contains => "'%" + lowered + "%'"
    case StartsWith => "'" + lowered + "%'"
    case EndsWith => "'%" + lowered + "'"
  }

  /** The text of a search: on PostgreSQL both sides are folded in SQL, elsewhere the text is lowered beforehand. */
  function MatchText(ctx: Context, f: string, op: Operator, text: string): string
    requires IsSearch(op)
  {
    var escaped := Doubled(text, '\'');
    if ctx.postgres
    then "lower(unaccent(" + f + ")) ILIKE " + JoinedPattern(op, "lower(unaccent('" + escaped + "'))")
    else "lower(" + f + ") LIKE " + LiteralPattern(op, ctx.toLowerCase(escaped))
  }

  function ConditionParts(ctx: Context, field: string, c: Condition): seq<string> {
    var f, v := QuotedField(ctx, field), OperandText(ctx, field, c.operand);
    match c.op
    case Eq => [f + " = " + v]
    case Neq => [f + " != " + v]
    case Gt => [f + " > " + v]
    case Gte => [f + " >= " + v]
    case Lt => [f + " < " + v]
    case Lte => [f + " <= " + v]
    case IsNull => [f + " IS NULL"]
    case IsNotNull => [f + " IS NOT NULL"]
    case In => [f + " IN (" + Join(MemberTexts(ListOf(c.operand)), ", ") + ")"]
    case NotIn => [f + " NOT IN (" + Join(MemberTexts(ListOf(c.operand)), ", ") + ")"]
    case Between =>
      if c.operand.Many? && |c.operand.values| == 2
      then [f + " BETWEEN " + MemberText(c.operand.values[0]) + " AND " + MemberText(c.operand.values[1])]
      else []
    case Contains => [MatchText(ctx, f, c.op, TextOf(c.operand))]
    case StartsWith => [MatchText(ctx, f, c.op, TextOf(c.operand))]
    case EndsWith => [MatchText(ctx, f, c.op, TextOf(c.operand))]
    case Unrecognised(_) => []
  }

  function FieldParts(ctx: Context, field: string, cs: seq<Condition>): seq<string> {
    if cs == [] then [] else ConditionParts(ctx, field, cs[0]) + FieldParts(ctx, field, cs[1..])
  }

  function Parenthesised(parts: seq<string>, separator: string): string { "(" + Join(parts, separator) + ")" }

  /** The parts of a filter, to be joined by AND. */
  function Parts(ctx: Context, f: Filter): seq<string>
    decreases f, 0
  {
    PartsOf(ctx, f.entries)
  }

  function PartsOf(ctx: Context, es: seq<Entry>): seq<string>
    decreases es, 1
  {
    if es == [] then [] else EntryParts(ctx, es[0]) + PartsOf(ctx, es[1..])
  }

  function EntryParts(ctx: Context, e: Entry): seq<string>
    decreases e, 0
  {
    match e
    case And(ms) =>
      var ps := MemberParts(ctx, ms);
      if ps == [] then [] else [Parenthesised(ps, " AND ")]
    case Or(ms) =>
      var ps := MemberParts(ctx, ms);
      if ps == [] then [] else [Parenthesised(ps, " OR ")]
    case Not(inner) =>
      var ps := Parts(ctx, inner);
      if ps == [] then [] else ["NOT " + Parenthesised(ps, " AND ")]
    case Field(name, cs) => FieldParts(ctx, name, cs)
    case Shorthand(name, v) => [QuotedField(ctx, name) + " = " + ShorthandText(v)]
  }

  /** One parenthesised text for every member that imposes a condition. */
  function MemberParts(ctx: Context, ms: seq<Filter>): seq<string>
    decreases ms, 1
  {
    if ms == [] then [] else
      var ps := Parts(ctx, ms[0]);
      (if ps == [] then [] else [Parenthesised(ps, " AND ")]) + MemberParts(ctx, ms[1..])
  }

  /** The text of the WHERE clause after `WHERE`, empty when there is none. */
  function WhereText(ctx: Context, f: Filter): string { Join(Parts(ctx, f), " AND ") }

  // ---------------------------------------------------------------- the compiler

  method CompileCondition(ctx: Context, field: string, c: Condition) returns (parts: seq<string>)
    ensures parts == ConditionParts(ctx, field, c)
  {
    parts := [];
    var quotedField := QuotedField(ctx, field);
    var sqlValue := OperandText(ctx, field, c.operand);
    match c.op
    case Eq => parts := parts + [quotedField + " = " + sqlValue];
    case Neq => parts := parts + [quotedField + " != " + sqlValue];
    case Gt => parts := parts + [quotedField + " > " + sqlValue];
    case Gte => parts := parts + [quotedField + " >= " + sqlValue];
    case Lt => parts := parts + [quotedField + " < " + sqlValue];
    case Lte => parts := parts + [quotedField + " <= " + sqlValue];
    case IsNull => parts := parts + [quotedField + " IS NULL"];
    case IsNotNull => parts := parts + [quotedField + " IS NOT NULL"];
    case In =>
      var inSql := Join(MemberTexts(ListOf(c.operand)), ", ");
      parts := parts + [quotedField + " IN (" + inSql + ")"];
    case NotIn =>
      var notInSql := Join(MemberTexts(ListOf(c.operand)), ", ");
      parts := parts + [quotedField + " NOT IN (" + notInSql + ")"];
    case Between =>
      if c.operand.Many? && |c.operand.values| == 2 {
        var v1, v2 := MemberText(c.operand.values[0]), MemberText(c.operand.values[1]);
        parts := parts + [quotedField + " BETWEEN " + v1 + " AND " + v2];
      }
    case Contains => parts := parts + [MatchText(ctx, quotedField, c.op, TextOf(c.operand))];
    case StartsWith => parts := parts + [MatchText(ctx, quotedField, c.op, TextOf(c.operand))];
    case EndsWith => parts := parts + [MatchText(ctx, quotedField, c.op, TextOf(c.operand))];
    case Unrecognised(_) =>
  }

  lemma {:induction false} FieldPartsOneMore(ctx: Context, field: string, cs: seq<Condition>, n: nat)
    requires n < |cs|
    ensures FieldParts(ctx, field, cs[..n + 1]) == FieldParts(ctx, field, cs[..n]) + ConditionParts(ctx, field, cs[n])
  {
    if n == 0 {
      assert cs[..1][1..] == [];
    } else {
      assert cs[..n + 1][1..] == cs[1..][..n] && cs[..n][1..] == cs[1..][..n - 1];
      FieldPartsOneMore(ctx, field, cs[1..], n - 1);
    }
  }

  lemma {:induction false} PartsOfOneMore(ctx: Context, es: seq<Entry>, n: nat)
    requires n < |es|
    ensures PartsOf(ctx, es[..n + 1]) == PartsOf(ctx, es[..n]) + EntryParts(ctx, es[n])
    decreases n
  {
    if n == 0 {
      assert es[..1][1..] == [];
    } else {
      assert es[..n + 1][1..] == es[1..][..n] && es[..n][1..] == es[1..][..n - 1];
      PartsOfOneMore(ctx, es[1..], n - 1);
    }
  }

  lemma {:induction false} MemberPartsOneMore(ctx: Context, ms: seq<Filter>, n: nat)
    requires n < |ms|
    ensures MemberParts(ctx, ms[..n + 1]) ==
            MemberParts(ctx, ms[..n]) + (if Parts(ctx, ms[n]) == [] then []
                                         else [Parenthesised(Parts(ctx, ms[n]), " AND ")])
    decreases n
  {
    if n == 0 {
      assert ms[..1][1..] == [];
    } else {
      assert ms[..n + 1][1..] == ms[1..][..n] && ms[..n][1..] == ms[1..][..n - 1];
      MemberPartsOneMore(ctx, ms[1..], n - 1);
    }
  }

  /** The recursive compiler: a loop over the entries that pushes onto `parts`. */
  method BuildWhereFromFilter(ctx: Context, filter: Filter) returns (parts: seq<string>)
    ensures parts == Parts(ctx, filter)
    decreases filter, 1
  {
    parts := [];
    for i := 0 to |filter.entries|
      invariant parts == PartsOf(ctx, filter.entries[..i])
    {
      PartsOfOneMore(ctx, filter.entries, i);
      match filter.entries[i]
      case And(members) =>
        var andParts := CompileMembers(ctx, members);
        if |andParts| > 0 {
          parts := parts + [Parenthesised(andParts, " AND ")];
        }
      case Or(members) =>
        var orParts := CompileMembers(ctx, members);
        if |orParts| > 0 {
          parts := parts + [Parenthesised(orParts, " OR ")];
        }
      case Not(inner) =>
        var notParts := BuildWhereFromFilter(ctx, inner);
        if |notParts| > 0 {
          parts := parts + ["NOT " + Parenthesised(notParts, " AND ")];
        }
      case Field(name, conditions) =>
        var fieldParts := CompileField(ctx, name, conditions);
        parts := parts + fieldParts;
      case Shorthand(name, value) =>
        parts := parts + [QuotedField(ctx, name) + " = " + ShorthandText(value)];
    }
    assert filter.entries[..|filter.entries|] == filter.entries;
  }

  /** `value.map(...).filter(p => p !== null)` over the members of `_and` and `_or`. */
  method CompileMembers(ctx: Context, members: seq<Filter>) returns (texts: seq<string>)
    ensures texts == MemberParts(ctx, members)
    decreases members, 2
  {
    texts := [];
    for i := 0 to |members|
      invariant texts == MemberParts(ctx, members[..i])
    {
      MemberPartsOneMore(ctx, members, i);
      var subParts := BuildWhereFromFilter(ctx, members[i]);
      if |subParts| > 0 {
        texts := texts + [Parenthesised(subParts, " AND ")];
      }
    }
    assert members[..|members|] == members;
  }

  method CompileField(ctx: Context, field: string, conditions: seq<Condition>) returns (parts: seq<string>)
    ensures parts == FieldParts(ctx, field, conditions)
  {
    parts := [];
    for i := 0 to |conditions|
      invariant parts == FieldParts(ctx, field, conditions[..i])
    {
      FieldPartsOneMore(ctx, field, conditions, i);
      var ps := CompileCondition(ctx, field, conditions[i]);
      parts := parts + ps;
    }
    assert conditions[..|conditions|] == conditions;
  }
}
