/** What the rewriter means on the level of tokens: a declarative token grammar, the proof
    that the scanner rewrites any splitting of the input by that grammar token by token, and
    what the output still contains. */
module CodeTokens {
  import opened CodeTransformer
  import opened Seqs

  datatype Token =
    | Literal(text: string)
    | LineComment(text: string)
    | BlockComment(text: string)
    | Name(text: string)
    | Other(c: char)
  {
    function Text(): string {
      if Other? then [c] else text
    }
  }

  /** The inside of a string or template: escape pairs and characters other than the quote. */
  predicate QuoteBody(b: string, q: char)
    decreases |b|
  {
    b == "" ||
    (if b[0] == '\\' then |b| >= 2 && QuoteBody(b[2..], q) else b[0] != q && QuoteBody(b[1..], q))
  }

  predicate HasCommentEnd(t: string, i: nat, n: nat)
    requires n <= |t|
  {
    exists k :: i <= k < n - 1 && t[k] == '*' && t[k + 1] == '/'
  }

  /** A token that ends by itself. */
  predicate Closed(t: Token)
  {
    match t
    case Literal(x) =>
      |x| >= 2 && IsQuote(x[0]) && x[|x| - 1] == x[0] && QuoteBody(x[1..|x| - 1], x[0])
    case LineComment(x) =>
      |x| >= 3 && x[0] == '/' && x[1] == '/' && x[|x| - 1] == '\n' && '\n' !in x[..|x| - 1]
    case BlockComment(x) =>
      |x| >= 4 && x[0] == '/' && x[1] == '*' && x[|x| - 2] == '*' && x[|x| - 1] == '/' &&
      !HasCommentEnd(x, 2, |x| - 1)
    case Name(x) =>
      |x| >= 1 && IsSigil(x[0]) && forall k :: 1 <= k < |x| ==> IsIdentChar(x[k])
    case Other(c) => !IsQuote(c) && !IsSigil(c)
  }

  /** A token that only the end of the input stops. */
  predicate Open(t: Token)
  {
    match t
    case Literal(x) =>
      |x| >= 1 && IsQuote(x[0]) &&
      (QuoteBody(x[1..], x[0]) || (x[|x| - 1] == '\\' && |x| >= 2 && QuoteBody(x[1..|x| - 1], x[0])))
    case LineComment(x) => |x| >= 2 && x[0] == '/' && x[1] == '/' && '\n' !in x
    case BlockComment(x) => |x| >= 2 && x[0] == '/' && x[1] == '*' && !HasCommentEnd(x, 2, |x|)
    case _ => false
  }

  /** What may follow a closed token. */
  predicate Fits(t: Token, follow: string)
  {
    follow == "" ||
    match t
    case Name(_) => !IsIdentChar(follow[0])
    case Other(c) => c == '/' ==> follow[0] != '/' && follow[0] != '*'
    case _ => true
  }

  function Source(ts: seq<Token>): string {
    if ts == [] then "" else ts[0].Text() + Source(ts[1..])
  }

  function Rewritten(table: Table, t: Token): string {
    if t.Name? && t.text != "" then Replacement(table, t.text) else t.Text()
  }

  function Output(table: Table, ts: seq<Token>): string {
    if ts == [] then "" else Rewritten(table, ts[0]) + Output(table, ts[1..])
  }

  predicate Tokens(ts: seq<Token>)
  {
    ts == [] ||
    ((Closed(ts[0]) && Fits(ts[0], Source(ts[1..])) && Tokens(ts[1..])) || (Open(ts[0]) && |ts| == 1))
  }

  // ---------------------------------------------------------------- one token

  lemma {:induction false} QuoteRuns(table: Table, b: string, q: char, r: string)
    requires IsQuote(q) && QuoteBody(b, q)
    ensures Run(table, b + r, StringState(q)) == b + Run(table, r, StringState(q))
    decreases |b|
  {
    if b == "" {
      assert b + r == r;
    } else {
      var n := if b[0] == '\\' then 2 else 1;
      var p, u := b[..n], b[n..];
      assert b == p + u;
      Associative(p, u, r);
      RunPiece(table, p, u + r, StringState(q), StringState(q));
      QuoteRuns(table, u, q, r);
      Associative(p, u, Run(table, r, StringState(q)));
    }
  }

  lemma {:induction false} LineRuns(table: Table, b: string, r: string)
    requires '\n' !in b
    ensures Run(table, b + r, CommentLine) == b + Run(table, r, CommentLine)
  {
    if b == "" { assert b + r == r; } else {
      var p, u := b[..1], b[1..];
      assert b == p + u && p == [b[0]];
      Associative(p, u, r);
      RunPiece(table, p, u + r, CommentLine, CommentLine);
      LineRuns(table, u, r);
      Associative(p, u, Run(table, r, CommentLine));
    }
  }

  /** Inside a block comment everything is copied up to a position before which the text,
      followed by `r`, has no comment end. */
  lemma {:induction false} BlockRuns(table: Table, b: string, r: string)
    requires !HasCommentEnd(b, 0, |b|)
    requires b != "" && b[|b| - 1] == '*' && r != "" ==> r[0] != '/'
    ensures Run(table, b + r, CommentBlock) == b + Run(table, r, CommentBlock)
  {
    if b == "" { assert b + r == r; } else {
      var p, u := b[..1], b[1..];
      assert b == p + u && p == [b[0]];
      Associative(p, u, r);
      if u != "" && b[0] == '*' {
        assert b[0 + 1] != '/';
      }
      RunPiece(table, p, u + r, CommentBlock, CommentBlock);
      assert !HasCommentEnd(u, 0, |u|) by {
        forall k | 0 <= k < |u| - 1 ensures !(u[k] == '*' && u[k + 1] == '/') {
          assert u[k] == b[k + 1] && u[k + 1] == b[(k + 1) + 1];
        }
      }
      BlockRuns(table, u, r);
      Associative(p, u, Run(table, r, CommentBlock));
    }
  }

  /** A piece with an opener `p`, an inside `b` that is copied, and a closer `e`. */
  lemma DelimitedRuns(table: Table, p: string, b: string, e: string, r: string, st: State)
    requires p != "" && e != "" && !IsSigil(p[0]) && !st.Code?
    requires Scan(p + (b + (e + r)), Code) == Move(|p|, st)
    requires Run(table, b + (e + r), st) == b + Run(table, e + r, st)
    requires Scan(e + r, st) == Move(|e|, Code)
    ensures Run(table, p + b + e + r, Code) == p + b + e + Run(table, r, Code)
  {
    RunPiece(table, p, b + (e + r), Code, st);
    RunPiece(table, e, r, st, Code);
    Nested(p, b, e, r);
    Nested(p, b, e, Run(table, r, Code));
  }

  lemma CutInThree(x: string, i: nat, j: nat)
    requires i <= j <= |x|
    ensures x == x[..i] + x[i..j] + x[j..]
  {
  }

  lemma LiteralRuns(table: Table, x: string, r: string)
    requires Closed(Literal(x))
    ensures Run(table, x + r, Code) == x + Run(table, r, Code)
  {
    var p, b, e := x[..1], x[1..|x| - 1], x[|x| - 1..];
    CutInThree(x, 1, |x| - 1);
    QuoteRuns(table, b, x[0], e + r);
    DelimitedRuns(table, p, b, e, r, StringState(x[0]));
  }

  lemma LineCommentRuns(table: Table, x: string, r: string)
    requires Closed(LineComment(x))
    ensures Run(table, x + r, Code) == x + Run(table, r, Code)
  {
    var p, b, e := x[..2], x[2..|x| - 1], x[|x| - 1..];
    CutInThree(x, 2, |x| - 1);
    assert '\n' !in b by { assert b == x[..|x| - 1][2..]; }
    LineRuns(table, b, e + r);
    DelimitedRuns(table, p, b, e, r, CommentLine);
  }

  lemma BlockCommentRuns(table: Table, x: string, r: string)
    requires Closed(BlockComment(x))
    ensures Run(table, x + r, Code) == x + Run(table, r, Code)
  {
    var p, b, e := x[..2], x[2..|x| - 2], x[|x| - 2..];
    CutInThree(x, 2, |x| - 2);
    NoEndInside(x, b);
    BlockRuns(table, b, e + r);
    DelimitedRuns(table, p, b, e, r, CommentBlock);
  }

  lemma NoEndInside(x: string, b: string)
    requires |x| >= 2 + |b| && x[2..2 + |b|] == b
    requires !HasCommentEnd(x, 2, 2 + |b|)
    ensures !HasCommentEnd(b, 0, |b|)
  {
    forall k | 0 <= k < |b| - 1 ensures !(b[k] == '*' && b[k + 1] == '/') {
      assert b[k] == x[k + 2] && b[k + 1] == x[(k + 2) + 1];
    }
  }

  lemma ClosedTokenRuns(table: Table, t: Token, r: string)
    requires Closed(t) && Fits(t, r)
    ensures Run(table, t.Text() + r, Code) == Rewritten(table, t) + Run(table, r, Code)
  {
    match t
    case Literal(x) => LiteralRuns(table, x, r);
    case LineComment(x) => LineCommentRuns(table, x, r);
    case BlockComment(x) => BlockCommentRuns(table, x, r);
    case Name(x) =>
      IdentEndIs(x + r, 1, |x|);
      RunPiece(table, x, r, Code, Code);
    case Other(c) => RunPiece(table, [c], r, Code, Code);
  }

  /** A piece with an opener `p` and an inside `b` that the end of the input stops. */
  lemma UnfinishedRuns(table: Table, p: string, b: string, st: State)
    requires p != "" && !IsSigil(p[0])
    requires Scan(p + b, Code) == Move(|p|, st)
    requires Run(table, b, st) == b
    ensures Run(table, p + b, Code) == p + b
  {
    RunPiece(table, p, b, Code, st);
  }

  lemma UnfinishedQuoteRuns(table: Table, b: string, q: char)
    requires IsQuote(q)
    requires QuoteBody(b, q) || (b != "" && b[|b| - 1] == '\\' && QuoteBody(b[..|b| - 1], q))
    ensures Run(table, b, StringState(q)) == b
  {
    if QuoteBody(b, q) {
      QuoteRuns(table, b, q, "");
      assert b + "" == b;
    } else {
      var a, e := b[..|b| - 1], "\\";
      QuoteRuns(table, a, q, e);
      LastBackslashRuns(table, q);
      assert b == a + e;
    }
  }

  lemma LastBackslashRuns(table: Table, q: char)
    requires IsQuote(q)
    ensures Run(table, "\\", StringState(q)) == "\\"
  {
    var e := "\\";
    assert e + "" == e;
    RunPiece(table, e, "", StringState(q), StringState(q));
  }

  lemma OpenTokenRuns(table: Table, t: Token)
    requires Open(t)
    ensures Run(table, t.Text(), Code) == t.Text()
  {
    var x := t.text;
    if t.Literal? {
      var p, b := [x[0]], x[1..];
      if !QuoteBody(b, x[0]) { assert b[..|b| - 1] == x[1..|x| - 1]; }
      UnfinishedQuoteRuns(table, b, x[0]);
      UnfinishedRuns(table, p, b, StringState(x[0]));
      assert x == p + b;
    } else {
      var p, b := x[..2], x[2..];
      assert x == p + b && b + "" == b;
      if t.LineComment? {
        LineRuns(table, b, "");
        UnfinishedRuns(table, p, b, CommentLine);
      } else {
        NoEndInside(x, b);
        BlockRuns(table, b, "");
        UnfinishedRuns(table, p, b, CommentBlock);
      }
    }
  }

  /** However the input is split by the token grammar, the scanner writes every token back
      unchanged except the sigil names, which it replaces one by one. */
  lemma {:induction false} RunIsTokenwise(table: Table, ts: seq<Token>)
    requires Tokens(ts)
    ensures Run(table, Source(ts), Code) == Output(table, ts)
  {
    if ts != [] {
      if Open(ts[0]) && |ts| == 1 {
        OpenTokenRuns(table, ts[0]);
        assert Source(ts[1..]) == "" && Output(table, ts[1..]) == "";
        assert Source(ts) == ts[0].Text();
      } else {
        ClosedTokenRuns(table, ts[0], Source(ts[1..]));
        RunIsTokenwise(table, ts[1..]);
      }
    }
  }

  // ---------------------------------------------------------------- every input splits

  lemma {:induction false} FindQuote(s: string, q: char) returns (n: nat)
    requires IsQuote(q)
    ensures n <= |s| && QuoteBody(s[..n], q)
    ensures n < |s| && s[n] != q ==> n == |s| - 1 && s[n] == '\\'
    decreases |s|
  {
    if s == "" || s[0] == q || s == "\\" {
      n := 0;
    } else {
      var k := if s[0] == '\\' then 2 else 1;
      var m := FindQuote(s[k..], q);
      n := m + k;
      assert s[..n][k..] == s[k..][..m];
    }
  }

  lemma FindLineEnd(s: string) returns (n: nat)
    ensures n <= |s| && '\n' !in s[..n]
    ensures n < |s| ==> s[n] == '\n'
  {
    n := 0;
    while n < |s| && s[n] != '\n'
      invariant n <= |s| && '\n' !in s[..n]
    {
      n := n + 1;
    }
  }

  lemma FindCommentEnd(s: string) returns (n: nat)
    requires |s| >= 2
    ensures 2 <= n <= |s|
    ensures n == |s| ==> !HasCommentEnd(s, 2, n)
    ensures n < |s| ==> n < |s| - 1 && s[n] == '*' && s[n + 1] == '/' && !HasCommentEnd(s, 2, n + 1)
  {
    n := 2;
    while n < |s| && !(n < |s| - 1 && s[n] == '*' && s[n + 1] == '/')
      invariant 2 <= n <= |s|
      invariant forall k :: 2 <= k < n && k < |s| - 1 ==> !(s[k] == '*' && s[k + 1] == '/')
    {
      n := n + 1;
    }
  }

  /** The first token of a non-empty input. */
  lemma FirstToken(s: string) returns (t: Token)
    requires s != ""
    ensures t.Text() <= s && 1 <= |t.Text()|
    ensures (Closed(t) && Fits(t, s[|t.Text()|..])) || (Open(t) && t.Text() == s)
  {
    if IsQuote(s[0]) {
      var n := FindQuote(s[1..], s[0]);
      if n + 1 < |s| && s[n + 1] == s[0] {
        t := Literal(s[..n + 2]);
        assert s[..n + 2][1..n + 1] == s[1..][..n];
      } else {
        t := Literal(s);
        if n + 1 == |s| {
          assert s[1..][..n] == s[1..];
        } else {
          assert s[1..][..n] == s[1..|s| - 1];
        }
      }
    } else if |s| > 1 && s[0] == '/' && s[1] == '/' {
      var n := FindLineEnd(s);
      if n < |s| {
        t := LineComment(s[..n + 1]);
        assert s[..n + 1][..n] == s[..n];
      } else {
        t := LineComment(s);
        assert s[..n] == s;
      }
    } else if |s| > 1 && s[0] == '/' && s[1] == '*' {
      var n := FindCommentEnd(s);
      if n < |s| {
        t := BlockComment(s[..n + 2]);
      } else {
        t := BlockComment(s);
      }
    } else if IsSigil(s[0]) {
      t := Name(s[..IdentEnd(s, 1)]);
    } else {
      t := Other(s[0]);
    }
  }

  lemma {:induction false} TokensExist(s: string) returns (ts: seq<Token>)
    ensures Tokens(ts) && Source(ts) == s
    decreases |s|
  {
    if s == "" {
      ts := [];
    } else {
      var t := FirstToken(s);
      var n := |t.Text()|;
      assert s == t.Text() + s[n..];
      if Open(t) && t.Text() == s {
        ts := [t];
        assert Source(ts[1..]) == "";
        assert Source(ts) == t.Text() + "";
      } else {
        var rest := TokensExist(s[n..]);
        ts := [t] + rest;
        assert ts[1..] == rest;
      }
    }
  }

  /** The rewriter on the level of tokens: every input has a splitting, and every splitting
      gives the output. */
  lemma TransformIsTokenwise(code: string)
    ensures exists ts :: Tokens(ts) && Source(ts) == code
    ensures forall ts :: Tokens(ts) && Source(ts) == code ==> Transformed(code) == Output(MAPPINGS, ts)
  {
    var us := TokensExist(code);
    forall ts | Tokens(ts) && Source(ts) == code
      ensures Transformed(code) == Output(MAPPINGS, ts)
    {
      RunIsTokenwise(MAPPINGS, ts);
    }
  }

  // ---------------------------------------------------------------- what is left in the output

  /** The sigil names that the scanner meets in code position, in order. */
  function Names(s: string, st: State): seq<string>
    decreases |s|
  {
    if s == "" then [] else
      var m := Scan(s, st);
      (if st.Code? && IsSigil(s[0]) then [s[..m.taken]] else []) + Names(s[m.taken..], m.next)
  }

  /** A name the rewriter leaves alone: an '@' name without a replacement. */
  predicate Unmapped(table: Table, name: string)
  {
    name != "" && name[0] == '@' && !(name in table && table[name] != "")
  }

  function UnmappedOnly(table: Table, names: seq<string>): seq<string> {
    if names == [] then [] else
      (if Unmapped(table, names[0]) then [names[0]] else []) + UnmappedOnly(table, names[1..])
  }

  lemma NamesPiece(text: string, r: string, st: State, next: State)
    requires text != ""
    requires Scan(text + r, st) == Move(|text|, next)
    ensures Names(text + r, st) == (if st.Code? && IsSigil(text[0]) then [text] else []) + Names(r, next)
  {
    assert (text + r)[..|text|] == text && (text + r)[|text|..] == r;
  }

  lemma {:induction false} NeutralHasNoNames(t: string, r: string)
    requires Neutral(t)
    ensures Names(t + r, Code) == Names(r, Code)
    decreases |t|
  {
    if t == "" {
      assert t + r == r;
    } else {
      assert t + r == t[..1] + (t[1..] + r);
      if t[0] == '\'' {
        NamesPiece(t[..1], t[1..] + r, Code, StringSingle);
        NeutralQuoteHasNoNames(t[1..], r);
      } else {
        NamesPiece(t[..1], t[1..] + r, Code, Code);
        NeutralHasNoNames(t[1..], r);
      }
    }
  }

  lemma {:induction false} NeutralQuoteHasNoNames(t: string, r: string)
    requires NeutralQuote(t)
    ensures Names(t + r, StringSingle) == Names(r, Code)
    decreases |t|
  {
    assert t + r == t[..1] + (t[1..] + r);
    if t[0] == '\'' {
      NamesPiece(t[..1], t[1..] + r, StringSingle, Code);
      NeutralHasNoNames(t[1..], r);
    } else {
      NamesPiece(t[..1], t[1..] + r, StringSingle, StringSingle);
      NeutralQuoteHasNoNames(t[1..], r);
    }
  }

  /** The names of what one step wrote, read in front of the rest of the output. */
  lemma NamesAfterStep(table: Table, s: string, st: State)
    requires s != "" && NeutralTable(table)
    ensures var m := Scan(s, st);
            var w, r := Written(table, st, s[..m.taken]), Run(table, s[m.taken..], m.next);
            Names(w + r, st) ==
              (if st.Code? && Unmapped(table, s[..m.taken]) then [s[..m.taken]] else []) + Names(r, m.next)
  {
    var m := Scan(s, st);
    var text, rest := s[..m.taken], s[m.taken..];
    var w, r := Written(table, st, text), Run(table, rest, m.next);
    OutputStart(table, rest, m.next);
    if st.Code? && IsSigil(s[0]) {
      if Unmapped(table, text) {
        IdentEndIs(text + r, 1, |text|);
        NamesPiece(text, r, st, m.next);
      } else {
        ReplacementIsNeutral(table, text);
        NeutralHasNoNames(w, r);
      }
    } else {
      NamesPiece(text, r, st, m.next);
    }
  }

  /** The sigil names of the output are exactly the unmapped '@' names of the input, in their
      order: every '#' and '%' name and every mapped '@' name is gone. */
  lemma {:induction false} OnlyUnmappedNamesAreLeft(table: Table, s: string, st: State)
    requires NeutralTable(table)
    ensures Names(Run(table, s, st), st) == UnmappedOnly(table, Names(s, st))
    decreases |s|
  {
    if s != "" {
      var m := Scan(s, st);
      NamesAfterStep(table, s, st);
      OnlyUnmappedNamesAreLeft(table, s[m.taken..], m.next);
      var names := Names(s, st);
      if st.Code? && IsSigil(s[0]) {
        assert names[1..] == Names(s[m.taken..], m.next);
      } else {
        assert names == Names(s[m.taken..], m.next);
      }
    }
  }

  // ---------------------------------------------------------------- lines

  function Newlines(s: string): nat {
    if s == "" then 0 else (if s[0] == '\n' then 1 else 0) + Newlines(s[1..])
  }

  lemma {:induction false} NewlinesAdd(s: string, t: string)
    ensures Newlines(s + t) == Newlines(s) + Newlines(t)
  {
    if s == "" { assert s + t == t; } else {
      assert (s + t)[1..] == s[1..] + t;
      NewlinesAdd(s[1..], t);
    }
  }

  lemma {:induction false} NoNewlines(s: string)
    requires '\n' !in s
    ensures Newlines(s) == 0
  {
    if s != "" { NoNewlines(s[1..]); }
  }

  lemma RewrittenKeepsLines(table: Table, t: Token)
    requires NeutralTable(table) && (Closed(t) || Open(t))
    ensures Newlines(Rewritten(table, t)) == Newlines(t.Text())
  {
    if t.Name? {
      NoNewlines(t.text);
      NoNewlines(Rewritten(table, t));
    }
  }

  /** Every token of a splitting starts on the same line of the output as of the input, so
      line numbers reported for the rewritten script are those of the stored one. */
  lemma {:induction false} TokensKeepTheirLine(table: Table, ts: seq<Token>, k: nat)
    requires NeutralTable(table) && Tokens(ts) && k <= |ts|
    ensures Newlines(Output(table, ts[..k])) == Newlines(Source(ts[..k]))
    decreases k
  {
    if k > 0 {
      assert ts[..k][0] == ts[0] && ts[..k][1..] == ts[1..][..k - 1];
      RewrittenKeepsLines(table, ts[0]);
      TokensKeepTheirLine(table, ts[1..], k - 1);
      NewlinesAdd(Rewritten(table, ts[0]), Output(table, ts[1..][..k - 1]));
      NewlinesAdd(ts[0].Text(), Source(ts[1..][..k - 1]));
    }
  }
}
