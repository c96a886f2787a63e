/** The script rewriter: a six-state scanner that replaces sigil identifiers
    (@NAME, #NAME, %NAME) outside strings, templates and comments.

    `TransformCode` is the in-place loop of code-transformer.ts; `Run` is the function it
    is proved against; the lemmas below it are about `Run`. */
module CodeTransformer {

  import opened Seqs

  datatype State = Code | StringDouble | StringSingle | Template | CommentLine | CommentBlock

  type Table = map<string, string>

  // The MAPPINGS record of the source, in three parts.
  const SERVICE_MAPPINGS: Table := map[
    "@CACHE" := "$ctx.$cache",
    "@REPOS" := "$ctx.$repos",
    "@HELPERS" := "$ctx.$helpers",
    "@LOGS" := "$ctx.$logs",
    "@BODY" := "$ctx.$body",
    "@DATA" := "$ctx.$data",
    "@STATUS" := "$ctx.$statusCode",
    "@PARAMS" := "$ctx.$params",
    "@QUERY" := "$ctx.$query"
  ]

  const REQUEST_MAPPINGS: Table := map[
    "@USER" := "$ctx.$user",
    "@REQ" := "$ctx.$req",
    "@RES" := "$ctx.$res",
    "@SHARE" := "$ctx.$share",
    "@API" := "$ctx.$api",
    "@UPLOADED_FILE" := "$ctx.$uploadedFile",
    "@PKGS" := "$ctx.$pkgs",
    "@SOCKET" := "$ctx.$socket",
    "@THROW" := "$ctx.$throw"
  ]

  function ThrowPath(code: string): string { "$ctx.$throw['" + code + "']" }

  const THROW_MAPPINGS: Table := map[
    "@THROW400" := ThrowPath("400"),
    "@THROW401" := ThrowPath("401"),
    "@THROW403" := ThrowPath("403"),
    "@THROW404" := ThrowPath("404"),
    "@THROW409" := ThrowPath("409"),
    "@THROW422" := ThrowPath("422"),
    "@THROW429" := ThrowPath("429"),
    "@THROW500" := ThrowPath("500"),
    "@THROW503" := ThrowPath("503")
  ]

  const MAPPINGS: Table := SERVICE_MAPPINGS + REQUEST_MAPPINGS + THROW_MAPPINGS

  const REPOS_PREFIX := "$ctx.$repos."
  const PKGS_PREFIX := "$ctx.$pkgs."

  // ---------------------------------------------------------------- characters

  predicate IsSigil(c: char) { c == '@' || c == '#' || c == '%' }

  predicate IsIdentChar(c: char) { 'A' <= c <= 'Z' || '0' <= c <= '9' || c == '_' }

  predicate IsQuote(c: char) { c == '"' || c == '\'' || c == '`' }

  /** A character the scanner copies in code position without looking further. */
  predicate IsPlain(c: char) { !IsSigil(c) && !IsQuote(c) && c != '/' }

  predicate InString(st: State) { st.StringDouble? || st.StringSingle? || st.Template? }

  function Delimiter(st: State): char
    requires InString(st)
  {
    match st
    case StringDouble => '"'
    case StringSingle => '\''
    case Template => '`'
  }

  function StringState(q: char): State
    requires IsQuote(q)
  {
    if q == '"' then StringDouble else if q == '\'' then StringSingle else Template
  }

  /** End of the run of identifier characters of `s` that starts at `i`. */
  function IdentEnd(s: string, i: nat): (n: nat)
    requires i <= |s|
    ensures i <= n <= |s|
    ensures forall k :: i <= k < n ==> IsIdentChar(s[k])
    ensures n < |s| ==> !IsIdentChar(s[n])
    decreases |s| - i
  {
    if i < |s| && IsIdentChar(s[i]) then IdentEnd(s, i + 1) else i
  }

  /** The text written for a sigil identifier. An '@' name missing from the table, or mapped
      to the empty string, is written back as it was read. */
  function Replacement(table: Table, identifier: string): string
    requires identifier != ""
  {
    if identifier[0] == '@' then
      if identifier in table && table[identifier] != "" then table[identifier] else identifier
    else if identifier[0] == '#' then REPOS_PREFIX + identifier[1..]
    else PKGS_PREFIX + identifier[1..]
  }

  // ---------------------------------------------------------------- the scanner

  /** One step of the scanner: how many characters it consumes and the state it goes on in. */
  datatype Move = Move(taken: nat, next: State)

  function Scan(s: string, st: State): (m: Move)
    requires s != ""
    ensures 0 < m.taken <= |s|
  {
    var c := s[0];
    if st.Code? then
      if IsQuote(c) then Move(1, StringState(c))
      else if c == '/' && |s| > 1 && s[1] == '/' then Move(2, CommentLine)
      else if c == '/' && |s| > 1 && s[1] == '*' then Move(2, CommentBlock)
      else if IsSigil(c) then Move(IdentEnd(s, 1), Code)
      else Move(1, Code)
    else if st.CommentLine? then Move(1, if c == '\n' then Code else CommentLine)
    else if st.CommentBlock? then
      if c == '*' && |s| > 1 && s[1] == '/' then Move(2, Code) else Move(1, CommentBlock)
    else
      if c == '\\' then Move(if |s| > 1 then 2 else 1, st)
      else Move(1, if c == Delimiter(st) then Code else st)
  }

  /** What is written for the text one step consumes. */
  function Written(table: Table, st: State, text: string): string
    requires text != ""
  {
    if st.Code? && IsSigil(text[0]) then Replacement(table, text) else text
  }

  function Run(table: Table, s: string, st: State): string
    decreases |s|
  {
    if s == "" then "" else
      var m := Scan(s, st);
      Written(table, st, s[..m.taken]) + Run(table, s[m.taken..], m.next)
  }

  function Transformed(code: string): string { Run(MAPPINGS, code, Code) }

  /** The body of the source's loop: the branch its switch takes at `pos`, with the text that
      branch appends to the result. */
  method Step(table: Table, code: string, pos: nat, state: State)
    returns (written: string, pos': nat, state': State)
    requires pos < |code|
    ensures pos < pos' <= |code|
    ensures Move(pos' - pos, state') == Scan(code[pos..], state)
    ensures written == Written(table, state, code[pos..pos'])
  {
    var c := code[pos];
    written, pos', state' := [c], pos + 1, state;
    match state
    case Code =>
      if c == '"' {
        state' := StringDouble;
      } else if c == '\'' {
        state' := StringSingle;
      } else if c == '`' {
        state' := Template;
      } else if c == '/' && pos + 1 < |code| && code[pos + 1] == '/' {
        state' := CommentLine;
        written := written + [code[pos + 1]];
        pos' := pos + 2;
      } else if c == '/' && pos + 1 < |code| && code[pos + 1] == '*' {
        state' := CommentBlock;
        written := written + [code[pos + 1]];
        pos' := pos + 2;
      } else if c == '@' || c == '#' || c == '%' {
        while pos' < |code| && IsIdentChar(code[pos'])
          invariant pos < pos' <= |code|
          invariant IdentEnd(code[pos..], 1) == IdentEnd(code[pos..], pos' - pos)
        {
          pos' := pos' + 1;
        }
        var identifier := code[pos..pos'];
        assert identifier == code[pos..][..pos' - pos];
        if c == '@' {
          if identifier in table && table[identifier] != "" {
            written := table[identifier];
          } else {
            written := identifier;
          }
        } else if c == '#' {
          written := REPOS_PREFIX + identifier[1..];
        } else {
          written := PKGS_PREFIX + identifier[1..];
        }
      }
    case StringDouble | StringSingle | Template =>
      if c == '\\' {
        if pos' < |code| {
          written := written + [code[pos']];
          pos' := pos' + 1;
        }
      } else if c == Delimiter(state) {
        state' := Code;
      }
    case CommentLine =>
      if c == '\n' {
        state' := Code;
      }
    case CommentBlock =>
      if c == '*' && pos + 1 < |code| && code[pos + 1] == '/' {
        written := written + [code[pos + 1]];
        pos' := pos + 2;
        state' := Code;
      }
  }

  /** What is written plus what is still to be written does not change over one step. */
  lemma StepKeepsOutput(table: Table, code: string, pos: nat, st: State, result: string,
                        written: string, pos': nat, st': State)
    requires pos < pos' <= |code|
    requires Move(pos' - pos, st') == Scan(code[pos..], st)
    requires written == Written(table, st, code[pos..pos'])
    ensures result + Run(table, code[pos..], st) == (result + written) + Run(table, code[pos'..], st')
  {
    var here, n := code[pos..], pos' - pos;
    assert here[..n] == code[pos..pos'] && here[n..] == code[pos'..];
    RunStep(table, here, st, n, st');
    Associative(result, written, Run(table, code[pos'..], st'));
  }

  lemma RunStep(table: Table, s: string, st: State, n: nat, next: State)
    requires s != "" && Scan(s, st) == Move(n, next)
    ensures n <= |s| && Run(table, s, st) == Written(table, st, s[..n]) + Run(table, s[n..], next)
  {
  }

  /** The loop of the source. */
  method Rewrite(table: Table, code: string) returns (result: string)
    ensures result == Run(table, code, Code)
  {
    result := "";
    var pos, state := 0, Code;
    assert code[0..] == code;
    while pos < |code|
      invariant 0 <= pos <= |code|
      invariant result + Run(table, code[pos..], state) == Run(table, code, Code)
    {
      var written, pos', state' := Step(table, code, pos, state);
      StepKeepsOutput(table, code, pos, state, result, written, pos', state');
      result, pos, state := result + written, pos', state';
    }
  }

  method TransformCode(code: string) returns (result: string)
    ensures result == Transformed(code)
  {
    result := Rewrite(MAPPINGS, code);
  }

  // ---------------------------------------------------------------- neutral replacement texts

  /** A text that the scanner, started in code position, copies and leaves in code position:
      plain characters and closed single-quoted pieces without a backslash. */
  predicate Neutral(t: string)
    decreases |t|
  {
    t != "" ==> if t[0] == '\'' then NeutralQuote(t[1..]) else IsPlain(t[0]) && Neutral(t[1..])
  }

  predicate NeutralQuote(t: string)
    decreases |t|
  {
    t != "" && if t[0] == '\'' then Neutral(t[1..]) else t[0] != '\\' && NeutralQuote(t[1..])
  }

  /** A character that completes neither the comment opener nor the identifier before it. */
  predicate SafeStart(c: char) { c != '/' && c != '*' && !IsIdentChar(c) }

  predicate NeutralTable(table: Table)
  {
    forall k :: k in table ==>
      Neutral(table[k]) && '\n' !in table[k] && (table[k] != "" ==> SafeStart(table[k][0]))
  }

  lemma {:induction false} PlainIsNeutral(t: string)
    requires forall k :: 0 <= k < |t| ==> IsPlain(t[k])
    ensures Neutral(t)
  {
    if t != "" { PlainIsNeutral(t[1..]); }
  }

  lemma {:induction false} PlainThenNeutral(t: string, u: string)
    requires forall k :: 0 <= k < |t| ==> IsPlain(t[k])
    requires Neutral(u)
    ensures Neutral(t + u)
  {
    if t == "" { assert t + u == u; } else {
      assert (t + u)[1..] == t[1..] + u;
      PlainThenNeutral(t[1..], u);
    }
  }

  lemma {:induction false} PlainThenQuoteEnd(t: string, u: string)
    requires forall k :: 0 <= k < |t| ==> IsPlain(t[k]) && t[k] != '\\'
    requires NeutralQuote(u)
    ensures NeutralQuote(t + u)
  {
    if t == "" { assert t + u == u; } else {
      assert (t + u)[1..] == t[1..] + u;
      PlainThenQuoteEnd(t[1..], u);
    }
  }

  /** Unfolding `Run` at a text whose consumption by one step is known. */
  lemma RunPiece(table: Table, text: string, r: string, st: State, next: State)
    requires text != ""
    requires Scan(text + r, st) == Move(|text|, next)
    ensures Run(table, text + r, st) == Written(table, st, text) + Run(table, r, next)
  {
    assert (text + r)[..|text|] == text && (text + r)[|text|..] == r;
  }

  lemma CharIsCopied(table: Table, c: char, u: string, r: string, st: State, next: State)
    requires Scan([c] + (u + r), st) == Move(1, next) && !(st.Code? && IsSigil(c))
    requires Run(table, u + r, next) == u + Run(table, r, Code)
    ensures Run(table, [c] + u + r, st) == [c] + u + Run(table, r, Code)
  {
    Associative([c], u, r);
    RunPiece(table, [c], u + r, st, next);
    Associative([c], u, Run(table, r, Code));
  }

  lemma {:induction false} NeutralIsCopied(table: Table, t: string, r: string)
    requires Neutral(t)
    ensures Run(table, t + r, Code) == t + Run(table, r, Code)
    decreases |t|
  {
    if t == "" {
      assert t + r == r;
    } else if t[0] == '\'' {
      NeutralQuoteIsCopied(table, t[1..], r);
      CharIsCopied(table, t[0], t[1..], r, Code, StringSingle);
      assert t == [t[0]] + t[1..];
    } else {
      NeutralIsCopied(table, t[1..], r);
      CharIsCopied(table, t[0], t[1..], r, Code, Code);
      assert t == [t[0]] + t[1..];
    }
  }

  lemma {:induction false} NeutralQuoteIsCopied(table: Table, t: string, r: string)
    requires NeutralQuote(t)
    ensures Run(table, t + r, StringSingle) == t + Run(table, r, Code)
    decreases |t|
  {
    if t[0] == '\'' {
      NeutralIsCopied(table, t[1..], r);
      CharIsCopied(table, t[0], t[1..], r, StringSingle, Code);
    } else {
      NeutralQuoteIsCopied(table, t[1..], r);
      CharIsCopied(table, t[0], t[1..], r, StringSingle, StringSingle);
    }
    assert t == [t[0]] + t[1..];
  }

  predicate Harmless(t: string) { Neutral(t) && '\n' !in t && t != "" && SafeStart(t[0]) }

  lemma ContextPathIsHarmless(t: string)
    requires t != "" && t[0] == '$' && forall k :: 0 <= k < |t| ==> IsPlain(t[k]) && t[k] != '\n'
    ensures Harmless(t)
  {
    PlainIsNeutral(t);
  }

  lemma ThrowPathIsHarmless(code: string)
    requires forall k :: 0 <= k < |code| ==> IsIdentChar(code[k])
    ensures Harmless(ThrowPath(code))
  {
    assert NeutralQuote("']") by { assert "']"[1..] == "]"; PlainIsNeutral("]"); }
    PlainThenQuoteEnd(code, "']");
    var quoted := "'" + (code + "']");
    assert quoted[1..] == code + "']";
    PlainThenNeutral("$ctx.$throw[", quoted);
    assert ThrowPath(code) == "$ctx.$throw[" + quoted;
  }

  /** Adding a harmless entry keeps a table neutral. */
  lemma AddEntry(table: Table, name: string, t: string)
    requires NeutralTable(table) && Harmless(t)
    ensures NeutralTable(table[name := t])
  {
  }

  lemma ServiceMappingsAreNeutral()
    ensures NeutralTable(SERVICE_MAPPINGS)
  {
    var m0: Table := map[];
    var m1 := m0["@CACHE" := "$ctx.$cache"];
    assert NeutralTable(m1) by { ContextPathIsHarmless("$ctx.$cache"); AddEntry(m0, "@CACHE", "$ctx.$cache"); }
    var m2 := m1["@REPOS" := "$ctx.$repos"];
    assert NeutralTable(m2) by { ContextPathIsHarmless("$ctx.$repos"); AddEntry(m1, "@REPOS", "$ctx.$repos"); }
    var m3 := m2["@HELPERS" := "$ctx.$helpers"];
    assert NeutralTable(m3) by { ContextPathIsHarmless("$ctx.$helpers"); AddEntry(m2, "@HELPERS", "$ctx.$helpers"); }
    var m4 := m3["@LOGS" := "$ctx.$logs"];
    assert NeutralTable(m4) by { ContextPathIsHarmless("$ctx.$logs"); AddEntry(m3, "@LOGS", "$ctx.$logs"); }
    var m5 := m4["@BODY" := "$ctx.$body"];
    assert NeutralTable(m5) by { ContextPathIsHarmless("$ctx.$body"); AddEntry(m4, "@BODY", "$ctx.$body"); }
    var m6 := m5["@DATA" := "$ctx.$data"];
    assert NeutralTable(m6) by { ContextPathIsHarmless("$ctx.$data"); AddEntry(m5, "@DATA", "$ctx.$data"); }
    var m7 := m6["@STATUS" := "$ctx.$statusCode"];
    assert NeutralTable(m7) by {
      ContextPathIsHarmless("$ctx.$statusCode");
      AddEntry(m6, "@STATUS", "$ctx.$statusCode");
    }
    var m8 := m7["@PARAMS" := "$ctx.$params"];
    assert NeutralTable(m8) by { ContextPathIsHarmless("$ctx.$params"); AddEntry(m7, "@PARAMS", "$ctx.$params"); }
    var m9 := m8["@QUERY" := "$ctx.$query"];
    assert NeutralTable(m9) by { ContextPathIsHarmless("$ctx.$query"); AddEntry(m8, "@QUERY", "$ctx.$query"); }
  }

  lemma RequestMappingsAreNeutral()
    ensures NeutralTable(REQUEST_MAPPINGS)
  {
    var m0: Table := map[];
    var m1 := m0["@USER" := "$ctx.$user"];
    assert NeutralTable(m1) by { ContextPathIsHarmless("$ctx.$user"); AddEntry(m0, "@USER", "$ctx.$user"); }
    var m2 := m1["@REQ" := "$ctx.$req"];
    assert NeutralTable(m2) by { ContextPathIsHarmless("$ctx.$req"); AddEntry(m1, "@REQ", "$ctx.$req"); }
    var m3 := m2["@RES" := "$ctx.$res"];
    assert NeutralTable(m3) by { ContextPathIsHarmless("$ctx.$res"); AddEntry(m2, "@RES", "$ctx.$res"); }
    var m4 := m3["@SHARE" := "$ctx.$share"];
    assert NeutralTable(m4) by { ContextPathIsHarmless("$ctx.$share"); AddEntry(m3, "@SHARE", "$ctx.$share"); }
    var m5 := m4["@API" := "$ctx.$api"];
    assert NeutralTable(m5) by { ContextPathIsHarmless("$ctx.$api"); AddEntry(m4, "@API", "$ctx.$api"); }
    var m6 := m5["@UPLOADED_FILE" := "$ctx.$uploadedFile"];
    assert NeutralTable(m6) by {
      ContextPathIsHarmless("$ctx.$uploadedFile");
      AddEntry(m5, "@UPLOADED_FILE", "$ctx.$uploadedFile");
    }
    var m7 := m6["@PKGS" := "$ctx.$pkgs"];
    assert NeutralTable(m7) by { ContextPathIsHarmless("$ctx.$pkgs"); AddEntry(m6, "@PKGS", "$ctx.$pkgs"); }
    var m8 := m7["@SOCKET" := "$ctx.$socket"];
    assert NeutralTable(m8) by { ContextPathIsHarmless("$ctx.$socket"); AddEntry(m7, "@SOCKET", "$ctx.$socket"); }
    var m9 := m8["@THROW" := "$ctx.$throw"];
    assert NeutralTable(m9) by { ContextPathIsHarmless("$ctx.$throw"); AddEntry(m8, "@THROW", "$ctx.$throw"); }
  }

  lemma ThrowMappingsAreNeutral()
    ensures NeutralTable(THROW_MAPPINGS)
  {
    var m0: Table := map[];
    var m1 := m0["@THROW400" := ThrowPath("400")];
    assert NeutralTable(m1) by { ThrowPathIsHarmless("400"); AddEntry(m0, "@THROW400", ThrowPath("400")); }
    var m2 := m1["@THROW401" := ThrowPath("401")];
    assert NeutralTable(m2) by { ThrowPathIsHarmless("401"); AddEntry(m1, "@THROW401", ThrowPath("401")); }
    var m3 := m2["@THROW403" := ThrowPath("403")];
    assert NeutralTable(m3) by { ThrowPathIsHarmless("403"); AddEntry(m2, "@THROW403", ThrowPath("403")); }
    var m4 := m3["@THROW404" := ThrowPath("404")];
    assert NeutralTable(m4) by { ThrowPathIsHarmless("404"); AddEntry(m3, "@THROW404", ThrowPath("404")); }
    var m5 := m4["@THROW409" := ThrowPath("409")];
    assert NeutralTable(m5) by { ThrowPathIsHarmless("409"); AddEntry(m4, "@THROW409", ThrowPath("409")); }
    var m6 := m5["@THROW422" := ThrowPath("422")];
    assert NeutralTable(m6) by { ThrowPathIsHarmless("422"); AddEntry(m5, "@THROW422", ThrowPath("422")); }
    var m7 := m6["@THROW429" := ThrowPath("429")];
    assert NeutralTable(m7) by { ThrowPathIsHarmless("429"); AddEntry(m6, "@THROW429", ThrowPath("429")); }
    var m8 := m7["@THROW500" := ThrowPath("500")];
    assert NeutralTable(m8) by { ThrowPathIsHarmless("500"); AddEntry(m7, "@THROW500", ThrowPath("500")); }
    var m9 := m8["@THROW503" := ThrowPath("503")];
    assert NeutralTable(m9) by { ThrowPathIsHarmless("503"); AddEntry(m8, "@THROW503", ThrowPath("503")); }
  }

  /** The rewriter's own table is neutral. */
  lemma MappingsAreNeutral()
    ensures NeutralTable(MAPPINGS)
  {
    ServiceMappingsAreNeutral();
    RequestMappingsAreNeutral();
    ThrowMappingsAreNeutral();
  }

  // ---------------------------------------------------------------- idempotence

  /** The output starts with the character the input starts with, or with one that can
      neither close a comment opener nor lengthen an identifier. */
  lemma OutputStart(table: Table, s: string, st: State)
    requires NeutralTable(table)
    ensures s == "" ==> Run(table, s, st) == ""
    ensures s != "" ==> Run(table, s, st) != "" &&
                        var c := Run(table, s, st)[0];
                        c == s[0] || (st.Code? && SafeStart(c))
  {
    if s != "" {
      var m := Scan(s, st);
      assert Written(table, st, s[..m.taken]) != "";
    }
  }

  lemma {:induction false} IdentEndIs(s: string, i: nat, n: nat)
    requires i <= n <= |s|
    requires forall k :: i <= k < n ==> IsIdentChar(s[k])
    requires n < |s| ==> !IsIdentChar(s[n])
    ensures IdentEnd(s, i) == n
    decreases n - i
  {
    if i < n { IdentEndIs(s, i + 1, n); }
  }

  /** Scanning what one step wrote, followed by the rest of the output, writes it again. */
  lemma StepIsStable(table: Table, s: string, st: State)
    requires s != "" && NeutralTable(table)
    ensures var m := Scan(s, st);
            var w, r := Written(table, st, s[..m.taken]), Run(table, s[m.taken..], m.next);
            Run(table, w + r, st) == w + Run(table, r, m.next)
  {
    var m := Scan(s, st);
    var text, rest := s[..m.taken], s[m.taken..];
    var w, r := Written(table, st, text), Run(table, rest, m.next);
    OutputStart(table, rest, m.next);
    if st.Code? && IsSigil(s[0]) {
      if w == text {
        IdentEndIs(text + r, 1, |text|);
        RunPiece(table, text, r, st, m.next);
      } else {
        ReplacementIsNeutral(table, text);
        NeutralIsCopied(table, w, r);
      }
    } else {
      RunPiece(table, text, r, st, m.next);
    }
  }

  lemma ReplacementIsNeutral(table: Table, identifier: string)
    requires NeutralTable(table)
    requires identifier != "" && IsSigil(identifier[0])
    requires forall k :: 1 <= k < |identifier| ==> IsIdentChar(identifier[k])
    ensures Replacement(table, identifier) == identifier || Neutral(Replacement(table, identifier))
  {
    if identifier[0] != '@' { PlainIsNeutral(Replacement(table, identifier)); }
  }

  /** Rewriting what was rewritten changes nothing, from every state of the scanner. */
  lemma {:induction false} RunIsIdempotent(table: Table, s: string, st: State)
    requires NeutralTable(table)
    ensures Run(table, Run(table, s, st), st) == Run(table, s, st)
    decreases |s|
  {
    if s != "" {
      var m := Scan(s, st);
      StepIsStable(table, s, st);
      RunIsIdempotent(table, s[m.taken..], m.next);
    }
  }

  lemma TransformIsIdempotent(code: string)
    ensures Transformed(Transformed(code)) == Transformed(code)
  {
    MappingsAreNeutral();
    RunIsIdempotent(MAPPINGS, code, Code);
  }
}
