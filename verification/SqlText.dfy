/** The lexical side of a generated WHERE clause: SQL tokens and a scanner for them, after
    SQL-92 (ISO/IEC 9075:1992) sections 5.2 and 5.3. A quote inside a quoted text is written
    twice; keywords are read without regard to case. */
module SqlText {

  import opened Wrappers
  import opened Seqs

  datatype RelOp = Equal | NotEqual | Greater | GreaterOrEqual | Less | LessOrEqual

  datatype Token =
    | LeftParen | RightParen | Comma | Period | DoubleColon | Concat
    | Relation(op: RelOp)
    | Identifier(name: string)
    | StringLiteral(value: string)
    | Numeral(text: string)
    | Word(text: string)

  type Scan = Option<seq<Token>>

  function Prepend(ts: seq<Token>, r: Scan): Scan {
    if r.None? then None else Some(ts + r.value)
  }

  lemma PrependTwice(a: seq<Token>, b: seq<Token>, r: Scan)
    ensures Prepend(a, Prepend(b, r)) == Prepend(a + b, r)
  {
    if r.Some? { assert a + (b + r.value) == (a + b) + r.value; }
  }

  // ---------------------------------------------------------------- characters

  predicate IsLetter(c: char) { 'a' <= c <= 'z' || 'A' <= c <= 'Z' || c == '_' }

  predicate IsDigit(c: char) { '0' <= c <= '9' }

  predicate IsNumeralChar(c: char) { IsDigit(c) || c == '.' || c == 'e' || c == 'E' || c == '+' || c == '-' }

  /** The rendering of a finite number. */
  predicate IsNumeral(t: string) {
    t != "" && (IsDigit(t[0]) || t[0] == '-') && forall i :: 1 <= i < |t| ==> IsNumeralChar(t[i])
  }

  function UpperChar(c: char): char {
    if 'a' <= c <= 'z' then 'A' + (c - 'a') else c
  }

  function Upper(s: string): string {
    if s == "" then "" else [UpperChar(s[0])] + Upper(s[1..])
  }

  /** End of the run of characters of a class that starts at `i`. */
  function RunEnd(s: string, i: nat, inClass: char -> bool): (n: nat)
    requires i <= |s|
    ensures i <= n <= |s|
    decreases |s| - i
  {
    if i < |s| && inClass(s[i]) then RunEnd(s, i + 1, inClass) else i
  }

  // ---------------------------------------------------------------- quoted texts

  function Doubled(s: string, q: char): string {
    if s == "" then "" else (if s[0] == q then [q, q] else [s[0]]) + Doubled(s[1..], q)
  }

  /** `'${s.replace(/'/g, "''")}'` for a quote character `q`. */
  function Quote(s: string, q: char): string { [q] + Doubled(s, q) + [q] }

  /** Reading a quoted text after its opening quote: its value and where it ends. */
  function ReadQuoted(s: string, q: char): Option<(string, string)>
    decreases |s|
  {
    if s == "" then None
    else if s[0] == q && (|s| == 1 || s[1] != q) then Some(("", s[1..]))
    else
      var n := if s[0] == q then 2 else 1;
      match ReadQuoted(s[n..], q)
      case None => None
      case Some((value, rest)) => Some(([s[0]] + value, rest))
  }

  lemma {:induction false} ReadQuotedShrinks(s: string, q: char)
    ensures ReadQuoted(s, q).Some? ==> |ReadQuoted(s, q).value.1| < |s|
    decreases |s|
  {
    if s != "" && !(s[0] == q && (|s| == 1 || s[1] != q)) {
      ReadQuotedShrinks(s[if s[0] == q then 2 else 1..], q);
    }
  }

  /** A quote-doubled text reads back to the value it was made from (section 5.3), provided the
      text after it does not start with another quote. */
  lemma {:induction false} QuotedReadsBack(s: string, q: char, rest: string)
    requires rest == "" || rest[0] != q
    ensures ReadQuoted(Doubled(s, q) + [q] + rest, q) == Some((s, rest))
  {
    var text := Doubled(s, q) + [q] + rest;
    if s == "" {
      assert text == [q] + rest;
    } else {
      QuotedReadsBack(s[1..], q, rest);
      var head := if s[0] == q then [q, q] else [s[0]];
      assert text == head + (Doubled(s[1..], q) + [q] + rest);
      assert text[|head|..] == Doubled(s[1..], q) + [q] + rest;
      assert [s[0]] + s[1..] == s;
    }
  }

  // ---------------------------------------------------------------- the scanner

  /** All tokens of a text; `q` is the quote character of delimited identifiers. */
  function Lex(s: string, q: char): Scan
    decreases |s|
  {
    if s == "" then Some([]) else
      var c, rest := s[0], s[1..];
      if c == ' ' then Lex(rest, q)
      else if c == '(' then Prepend([LeftParen], Lex(rest, q))
      else if c == ')' then Prepend([RightParen], Lex(rest, q))
      else if c == ',' then Prepend([Comma], Lex(rest, q))
      else if c == '.' then Prepend([Period], Lex(rest, q))
      else if c == '=' then Prepend([Relation(Equal)], Lex(rest, q))
      else if c == '!' then
        if rest != "" && rest[0] == '=' then Prepend([Relation(NotEqual)], Lex(rest[1..], q)) else None
      else if c == '>' then
        if rest != "" && rest[0] == '=' then Prepend([Relation(GreaterOrEqual)], Lex(rest[1..], q))
        else Prepend([Relation(Greater)], Lex(rest, q))
      else if c == '<' then
        if rest != "" && rest[0] == '=' then Prepend([Relation(LessOrEqual)], Lex(rest[1..], q))
        else Prepend([Relation(Less)], Lex(rest, q))
      else if c == ':' then
        if rest != "" && rest[0] == ':' then Prepend([DoubleColon], Lex(rest[1..], q)) else None
      else if c == '|' then
        if rest != "" && rest[0] == '|' then Prepend([Concat], Lex(rest[1..], q)) else None
      else if c == q || c == '\'' then
        ReadQuotedShrinks(rest, c);
        match ReadQuoted(rest, c)
        case None => None
        case Some((value, after)) => Prepend([if c == '\'' then StringLiteral(value) else Identifier(value)],
                                             Lex(after, q))
      else if IsDigit(c) || c == '-' then
        var n := RunEnd(s, 1, IsNumeralChar);
        Prepend([Numeral(s[..n])], Lex(s[n..], q))
      else if IsLetter(c) then
        var n := RunEnd(s, 1, IsLetter);
        Prepend([Word(Upper(s[..n]))], Lex(s[n..], q))
      else None
  }

  predicate IsIdentifierQuote(q: char) { q == '"' || q == '`' }

  /** What may follow a piece of the clause so that its last token ends there. */
  predicate Delimited(rest: string) {
    rest == "" || rest[0] == ' ' || rest[0] == ')' || rest[0] == ','
  }

  /** The text is read as these tokens wherever a delimiter follows it. */
  ghost predicate ReadsAs(text: string, ts: seq<Token>, q: char) {
    forall rest :: Delimited(rest) ==> Lex(text + rest, q) == Prepend(ts, Lex(rest, q))
  }

  lemma ReadsAsWhole(text: string, ts: seq<Token>, q: char)
    requires ReadsAs(text, ts, q)
    ensures Lex(text, q) == Some(ts)
  {
    assert Delimited("") && text + "" == text;
    assert Lex(text + "", q) == Prepend(ts, Lex("", q));
    assert ts + [] == ts;
  }

  lemma ReadAt(text: string, ts: seq<Token>, q: char, rest: string)
    requires ReadsAs(text, ts, q) && Delimited(rest)
    ensures Lex(text + rest, q) == Prepend(ts, Lex(rest, q))
  {
  }

  /** A fixed text that is read as these tokens whatever follows it. */
  ghost predicate AlwaysReadsAs(text: string, ts: seq<Token>, q: char) {
    forall rest :: Lex(text + rest, q) == Prepend(ts, Lex(rest, q))
  }

  lemma AlwaysReadAt(text: string, ts: seq<Token>, q: char, rest: string)
    requires AlwaysReadsAs(text, ts, q)
    ensures Lex(text + rest, q) == Prepend(ts, Lex(rest, q))
  {
  }

  lemma JoinReads(a: string, ta: seq<Token>, sep: string, ts: seq<Token>, b: string, tb: seq<Token>, q: char,
                  rest: string)
    requires Lex(a + (sep + (b + rest)), q) == Prepend(ta, Lex(sep + (b + rest), q))
    requires Lex(sep + (b + rest), q) == Prepend(ts, Lex(b + rest, q))
    requires Lex(b + rest, q) == Prepend(tb, Lex(rest, q))
    ensures Lex(a + sep + b + rest, q) == Prepend(ta + ts + tb, Lex(rest, q))
  {
    Nested(a, sep, b, rest);
    PrependTwice(ts, tb, Lex(rest, q));
    PrependTwice(ta, ts + tb, Lex(rest, q));
    Associative(ta, ts, tb);
  }

  /** Two pieces with a separator that starts with a delimiter. */
  lemma ReadsAsSequence(a: string, ta: seq<Token>, sep: string, ts: seq<Token>, b: string, tb: seq<Token>, q: char)
    requires ReadsAs(a, ta, q) && ReadsAs(b, tb, q)
    requires sep != "" && Delimited(sep) && AlwaysReadsAs(sep, ts, q)
    ensures ReadsAs(a + sep + b, ta + ts + tb, q)
  {
    forall rest | Delimited(rest)
      ensures Lex(a + sep + b + rest, q) == Prepend(ta + ts + tb, Lex(rest, q))
    {
      var tail := sep + (b + rest);
      assert tail[0] == sep[0];
      ReadAt(a, ta, q, tail);
      AlwaysReadAt(sep, ts, q, b + rest);
      ReadAt(b, tb, q, rest);
      JoinReads(a, ta, sep, ts, b, tb, q, rest);
    }
  }

  lemma CloseReads(q: char, rest: string)
    ensures Lex(")" + rest, q) == Prepend([RightParen], Lex(rest, q))
  {
    assert (")" + rest)[1..] == rest;
  }

  /** A piece between an opening text and a closing parenthesis. */
  lemma ReadsAsParenthesised(open: string, to: seq<Token>, a: string, ta: seq<Token>, q: char)
    requires ReadsAs(a, ta, q) && AlwaysReadsAs(open, to, q)
    ensures ReadsAs(open + a + ")", to + ta + [RightParen], q)
  {
    forall rest | Delimited(rest)
      ensures Lex(open + a + ")" + rest, q) == Prepend(to + ta + [RightParen], Lex(rest, q))
    {
      AlwaysReadAt(open, to, q, a + (")" + rest));
      ReadAt(a, ta, q, ")" + rest);
      CloseReads(q, rest);
      JoinReads(open, to, a, ta, ")", [RightParen], q, rest);
    }
  }
}
