/** Counting the quotes of a text: scanning neither makes nor loses any. So a text that is scanned as given tokens has
    as many quotes of each kind as these write, and every numeral among them is one. */
module SqlCount {
  import opened SqlText
  import opened Wrappers

  function Count(c: char, s: string): nat {
    if s == "" then 0 else (if s[0] == c then 1 else 0) + Count(c, s[1..])
  }

  lemma {:induction false} CountAppend(c: char, a: string, b: string)
    ensures Count(c, a + b) == Count(c, a) + Count(c, b)
  {
    if a == "" {
      assert a + b == b;
    } else {
      assert (a + b)[1..] == a[1..] + b;
      CountAppend(c, a[1..], b);
    }
  }

  lemma {:induction false} CountNone(c: char, s: string)
    requires c !in s
    ensures Count(c, s) == 0
  {
    if s != "" { CountNone(c, s[1..]); }
  }

  lemma {:induction false} CountSome(c: char, s: string)
    requires c in s
    ensures Count(c, s) > 0
  {
    if s[0] != c { CountSome(c, s[1..]); }
  }

  lemma {:induction false} CountDoubled(c: char, s: string, q: char)
    ensures Count(c, Doubled(s, q)) == if c == q then 2 * Count(c, s) else Count(c, s)
  {
    if s != "" {
      CountDoubled(c, s[1..], q);
      var head := if s[0] == q then [q, q] else [s[0]];
      CountAppend(c, head, Doubled(s[1..], q));
      assert head[1..] == (if s[0] == q then [q] else []);
      assert [q][1..] == [];
    }
  }

  lemma CountQuote(c: char, s: string, q: char)
    ensures Count(c, Quote(s, q)) == if c == q then 2 + 2 * Count(c, s) else Count(c, s)
  {
    CountDoubled(c, s, q);
    assert [q][1..] == [];
    CountAppend(c, [q] + Doubled(s, q), [q]);
    CountAppend(c, [q], Doubled(s, q));
  }

  // ---------------------------------------------------------------- tokens

  /** What of a token's text can hold quotes. */
  function TokenText(t: Token, q: char): string {
    match t
    case StringLiteral(v) => Quote(v, '\'')
    case Identifier(v) => Quote(v, q)
    case Numeral(text) => text
    case _ => ""
  }

  function TokensCount(c: char, ts: seq<Token>, q: char): nat {
    if ts == [] then 0 else Count(c, TokenText(ts[0], q)) + TokensCount(c, ts[1..], q)
  }

  lemma {:induction false} TokensCountAppend(c: char, a: seq<Token>, b: seq<Token>, q: char)
    ensures TokensCount(c, a + b, q) == TokensCount(c, a, q) + TokensCount(c, b, q)
  {
    if a == [] {
      assert a + b == b;
    } else {
      assert (a + b)[1..] == a[1..] + b;
      TokensCountAppend(c, a[1..], b, q);
    }
  }

  lemma OneCount(c: char, t: Token, q: char)
    ensures TokensCount(c, [t], q) == Count(c, TokenText(t, q))
  {
    assert [t][1..] == [];
  }

  predicate Numerals(ts: seq<Token>) { forall i :: 0 <= i < |ts| && ts[i].Numeral? ==> IsNumeral(ts[i].text) }

  lemma NumeralsAppend(a: seq<Token>, b: seq<Token>)
    ensures Numerals(a + b) <==> Numerals(a) && Numerals(b)
  {
    if Numerals(a + b) {
      assert forall i :: 0 <= i < |a| ==> (a + b)[i] == a[i];
      forall i | 0 <= i < |b| && b[i].Numeral? ensures IsNumeral(b[i].text) {
        assert (a + b)[|a| + i] == b[i];
      }
    }
  }

  predicate IsQuoteChar(c: char, q: char) { c == q || c == '\'' }

  // ---------------------------------------------------------------- scanning

  /** What was read up to the closing quote is the doubled value. */
  lemma {:induction false} ReadQuotedInverts(s: string, q: char)
    ensures ReadQuoted(s, q).Some? ==> s == Doubled(ReadQuoted(s, q).value.0, q) + [q] + ReadQuoted(s, q).value.1
    decreases |s|
  {
    if s != "" {
      if s[0] == q && (|s| == 1 || s[1] != q) {
        assert s == [q] + s[1..];
      } else {
        var n := if s[0] == q then 2 else 1;
        ReadQuotedInverts(s[n..], q);
        if ReadQuoted(s[n..], q).Some? {
          var (value, rest) := ReadQuoted(s[n..], q).value;
          assert ([s[0]] + value)[1..] == value;
          assert s == s[..n] + s[n..] && s[..n] == (if s[0] == q then [q, q] else [s[0]]);
        }
      }
    }
  }

  lemma {:induction false} RunIsInClass(s: string, i: nat, inClass: char -> bool)
    requires i <= |s|
    ensures forall k :: i <= k < RunEnd(s, i, inClass) ==> inClass(s[k])
    decreases |s| - i
  {
    if i < |s| && inClass(s[i]) { RunIsInClass(s, i + 1, inClass); }
  }

  /** The scanner's first move: the first `n` characters become `first`. */
  ghost predicate Moves(s: string, q: char, n: nat, first: seq<Token>) {
    0 < n <= |s| && Lex(s, q) == Prepend(first, Lex(s[n..], q)) && Numerals(first) &&
    forall c :: IsQuoteChar(c, q) ==> Count(c, s[..n]) == TokensCount(c, first, q)
  }

  /** A move over characters none of which is a quote, to a token that writes none. */
  lemma PlainMove(s: string, q: char, n: nat, first: seq<Token>)
    requires 0 < n <= |s| && Lex(s, q) == Prepend(first, Lex(s[n..], q))
    requires forall k :: 0 <= k < n ==> s[k] != q && s[k] != '\''
    requires forall i :: 0 <= i < |first| ==> TokenText(first[i], q) == "" && !first[i].Numeral?
    requires |first| <= 1
    ensures Moves(s, q, n, first)
  {
    forall c | IsQuoteChar(c, q) ensures Count(c, s[..n]) == TokensCount(c, first, q) {
      CountNone(c, s[..n]);
      if first != [] { OneCount(c, first[0], q); }
    }
  }

  function QuotedToken(c: char, value: string): Token { if c == '\'' then StringLiteral(value) else Identifier(value) }

  lemma QuotedLex(s: string, q: char)
    requires IsIdentifierQuote(q) && s != "" && (s[0] == q || s[0] == '\'') && Lex(s, q).Some?
    ensures ReadQuoted(s[1..], s[0]).Some?
    ensures var (value, after) := ReadQuoted(s[1..], s[0]).value;
            Lex(s, q) == Prepend([QuotedToken(s[0], value)], Lex(after, q))
  {
  }

  lemma QuotedSplits(s: string, value: string, after: string)
    requires s != "" && s[1..] == Doubled(value, s[0]) + [s[0]] + after
    ensures var text := Quote(value, s[0]); |text| <= |s| && s[..|text|] == text && s[|text|..] == after
  {
    assert s == [s[0]] + s[1..];
    assert s == Quote(value, s[0]) + after;
  }

  lemma QuotedMove(s: string, q: char) returns (n: nat, first: seq<Token>)
    requires IsIdentifierQuote(q) && s != "" && (s[0] == q || s[0] == '\'') && Lex(s, q).Some?
    ensures Moves(s, q, n, first)
  {
    QuotedLex(s, q);
    ReadQuotedInverts(s[1..], s[0]);
    var (value, after) := ReadQuoted(s[1..], s[0]).value;
    QuotedSplits(s, value, after);
    first := [QuotedToken(s[0], value)];
    n := |Quote(value, s[0])|;
    forall d | IsQuoteChar(d, q) ensures Count(d, s[..n]) == TokensCount(d, first, q) {
      OneCount(d, first[0], q);
    }
  }

  lemma NumeralMove(s: string, q: char) returns (n: nat, first: seq<Token>)
    requires IsIdentifierQuote(q) && s != "" && (IsDigit(s[0]) || s[0] == '-') && Lex(s, q).Some?
    ensures Moves(s, q, n, first)
  {
    n := RunEnd(s, 1, IsNumeralChar);
    RunIsInClass(s, 1, IsNumeralChar);
    first := [Numeral(s[..n])];
    forall d | IsQuoteChar(d, q) ensures Count(d, s[..n]) == TokensCount(d, first, q) {
      OneCount(d, first[0], q);
    }
  }

  lemma WordMove(s: string, q: char) returns (n: nat, first: seq<Token>)
    requires IsIdentifierQuote(q) && s != "" && IsLetter(s[0]) && Lex(s, q).Some?
    ensures Moves(s, q, n, first)
  {
    n := RunEnd(s, 1, IsLetter);
    RunIsInClass(s, 1, IsLetter);
    first := [Word(Upper(s[..n]))];
    PlainMove(s, q, n, first);
  }

  lemma SymbolMove(s: string, q: char) returns (n: nat, first: seq<Token>)
    requires IsIdentifierQuote(q) && s != "" && Lex(s, q).Some?
    requires !IsQuoteChar(s[0], q) && !IsDigit(s[0]) && s[0] != '-' && !IsLetter(s[0])
    ensures Moves(s, q, n, first)
  {
    var c, rest := s[0], s[1..];
    var double := (c == '!' || c == '>' || c == '<') && rest != "" && rest[0] == '=';
    n := if double || c == ':' || c == '|' then 2 else 1;
    first := if c == ' ' then []
             else if c == '(' then [LeftParen] else if c == ')' then [RightParen]
             else if c == ',' then [Comma] else if c == '.' then [Period]
             else if c == ':' then [DoubleColon] else if c == '|' then [Concat]
             else [Token.Relation(if c == '=' then Equal else if c == '!' then NotEqual
                                  else if c == '>' then (if double then GreaterOrEqual else Greater)
                                  else if double then LessOrEqual else Less)];
    if n == 2 { assert rest[1..] == s[2..] && rest[0] == s[1]; }
    if c == ' ' { assert Lex(s, q)
                 == Prepend([], Lex(rest, q)) by { assert [] + Lex(rest, q).value == Lex(rest, q).value; } }
    PlainMove(s, q, n, first);
  }

  lemma FirstMove(s: string, q: char) returns (n: nat, first: seq<Token>)
    requires IsIdentifierQuote(q) && s != "" && Lex(s, q).Some?
    ensures Moves(s, q, n, first)
  {
    if IsQuoteChar(s[0], q) { n, first := QuotedMove(s, q); }
    else if IsDigit(s[0]) || s[0] == '-' { n, first := NumeralMove(s, q); }
    else if IsLetter(s[0]) { n, first := WordMove(s, q); }
    else { n, first := SymbolMove(s, q); }
  }

  lemma {:induction false} ScanningCounts(s: string, q: char, c: char)
    requires IsIdentifierQuote(q) && IsQuoteChar(c, q) && Lex(s, q).Some?
    ensures Count(c, s) == TokensCount(c, Lex(s, q).value, q) && Numerals(Lex(s, q).value)
    decreases |s|
  {
    if s != "" {
      var n, first := FirstMove(s, q);
      ScanningCounts(s[n..], q, c);
      assert s == s[..n] + s[n..];
      CountAppend(c, s[..n], s[n..]);
      var later := Lex(s[n..], q).value;
      TokensCountAppend(c, first, later, q);
      NumeralsAppend(first, later);
    }
  }

  // ---------------------------------------------------------------- a text against the tokens it stands for

  /** The text has no more quotes of either kind than the tokens write. */
  predicate Fair(s: string, ts: seq<Token>, q: char) {
    Count(q, s) <= TokensCount(q, ts, q) && Count('\'', s) <= TokensCount('\'', ts, q)
  }

  /** It has as many, and the numerals are numerals. */
  predicate Exact(s: string, ts: seq<Token>, q: char) {
    Count(q, s) == TokensCount(q, ts, q) && Count('\'', s) == TokensCount('\'', ts, q) && Numerals(ts)
  }

  lemma ScannedIsExact(s: string, ts: seq<Token>, q: char)
    requires IsIdentifierQuote(q) && Lex(s, q) == Some(ts)
    ensures Exact(s, ts, q)
  {
    ScanningCounts(s, q, q);
    ScanningCounts(s, q, '\'');
  }

  lemma ReadIsExact(s: string, ts: seq<Token>, q: char)
    requires IsIdentifierQuote(q) && ReadsAs(s, ts, q)
    ensures Exact(s, ts, q)
  {
    ReadsAsWhole(s, ts, q);
    ScannedIsExact(s, ts, q);
  }

  lemma JoinTwo(a: string, ta: seq<Token>, b: string, tb: seq<Token>, q: char)
    requires Fair(a, ta, q) && Fair(b, tb, q)
    ensures Fair(a + b, ta + tb, q)
    ensures Exact(a + b, ta + tb, q) <==> Exact(a, ta, q) && Exact(b, tb, q)
  {
    CountAppend(q, a, b);
    CountAppend('\'', a, b);
    TokensCountAppend(q, ta, tb, q);
    TokensCountAppend('\'', ta, tb, q);
    NumeralsAppend(ta, tb);
  }

  /** Three pieces, as the scanner's lemmas put them together. */
  lemma JoinThree(a: string, ta: seq<Token>, b: string, tb: seq<Token>, c: string, tc: seq<Token>, q: char)
    requires Fair(a, ta, q) && Fair(b, tb, q) && Fair(c, tc, q)
    ensures Fair(a + b + c, ta + tb + tc, q)
    ensures Exact(a + b + c, ta + tb + tc, q) <==> Exact(a, ta, q) && Exact(b, tb, q) && Exact(c, tc, q)
  {
    JoinTwo(a, ta, b, tb, q);
    JoinTwo(a + b, ta + tb, c, tc, q);
  }
}
