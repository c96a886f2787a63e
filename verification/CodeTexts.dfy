/** What the rewriter does to a text, spelled out in characters: the names it replaces and the
    texts it writes for them, and the strings, comments and other characters it leaves alone.
    Each law is about a piece in front of any further code. */
module CodeTexts {
  import opened CodeTokens
  import opened CodeTransformer
  import opened Seqs

  const NAME_CHARS := "ABCDEFGHIJKLMNOPQRSTUVWXYZ0123456789_"

  /** A part of a name: upper-case letters, digits and underscores. */
  predicate NameText(n: string) {
    forall k :: 0 <= k < |n| ==> n[k] in NAME_CHARS
  }

  /** Code that does not lengthen a name in front of it. */
  predicate EndsName(rest: string) {
    rest == "" || rest[0] !in NAME_CHARS
  }

  lemma NameCharIff(c: char)
    ensures IsIdentChar(c) <==> c in NAME_CHARS
  {
    var letters, digits := "ABCDEFGHIJKLMNOPQRSTUVWXYZ", "0123456789";
    assert NAME_CHARS == letters + digits + "_";
    LettersIff(c, letters);
    DigitsIff(c, digits);
  }

  lemma LettersIff(c: char, letters: string)
    requires letters == "ABCDEFGHIJKLMNOPQRSTUVWXYZ"
    ensures c in letters <==> 'A' <= c <= 'Z'
  {
    if 'A' <= c <= 'Z' { assert letters[c as int - 'A' as int] == c; }
  }

  lemma DigitsIff(c: char, digits: string)
    requires digits == "0123456789"
    ensures c in digits <==> '0' <= c <= '9'
  {
    if '0' <= c <= '9' { assert digits[c as int - '0' as int] == c; }
  }

  lemma NameIsOneToken(sigil: char, n: string, rest: string)
    requires sigil in "@#%" && NameText(n) && EndsName(rest)
    ensures Run(MAPPINGS, [sigil] + n + rest, Code) ==
            Replacement(MAPPINGS, [sigil] + n) + Run(MAPPINGS, rest, Code)
  {
    forall k | 0 <= k < |n| ensures IsIdentChar(n[k]) { NameCharIff(n[k]); }
    if rest != "" { NameCharIff(rest[0]); }
    ClosedTokenRuns(MAPPINGS, Name([sigil] + n), rest);
  }

  /** A '#' name becomes the repository of that name, a '%' name the package of that name. */
  lemma RepositoryAndPackageNames(n: string, rest: string)
    requires NameText(n) && EndsName(rest)
    ensures Transformed("#" + n + rest) == "$ctx.$repos." + n + Transformed(rest)
    ensures Transformed("%" + n + rest) == "$ctx.$pkgs." + n + Transformed(rest)
  {
    NameIsOneToken('#', n, rest);
    NameIsOneToken('%', n, rest);
    assert ("#" + n)[1..] == n && ("%" + n)[1..] == n;
  }

  /** A name of the table in code position. */
  predicate IsEntry(x: string, text: string) {
    x != "" && x[0] == '@' && (forall k :: 1 <= k < |x| ==> IsIdentChar(x[k])) && text != ""
  }

  lemma EntryIsWritten(x: string, rest: string)
    requires x in MAPPINGS && IsEntry(x, MAPPINGS[x]) && EndsName(rest)
    ensures Transformed(x + rest) == MAPPINGS[x] + Transformed(rest)
  {
    if rest != "" { NameCharIff(rest[0]); }
    ClosedTokenRuns(MAPPINGS, Name(x), rest);
  }

  lemma TablesAreApart()
    ensures SERVICE_MAPPINGS.Keys !! REQUEST_MAPPINGS.Keys
    ensures (SERVICE_MAPPINGS.Keys + REQUEST_MAPPINGS.Keys) !! THROW_MAPPINGS.Keys
  {
    ServiceAndRequestAreApart();
    ServiceAndThrowAreApart();
    RequestAndThrowAreApart();
  }

  lemma ServiceAndRequestAreApart()
    ensures SERVICE_MAPPINGS.Keys !! REQUEST_MAPPINGS.Keys
  {
  }

  lemma ServiceAndThrowAreApart()
    ensures SERVICE_MAPPINGS.Keys !! THROW_MAPPINGS.Keys
  {
  }

  lemma RequestAndThrowAreApart()
    ensures REQUEST_MAPPINGS.Keys !! THROW_MAPPINGS.Keys
  {
  }

  lemma ServiceEntries(x: string)
    requires x in SERVICE_MAPPINGS
    ensures IsEntry(x, SERVICE_MAPPINGS[x])
  {
  }

  lemma ServiceEntry(x: string, rest: string)
    requires x in SERVICE_MAPPINGS && EndsName(rest)
    ensures Transformed(x + rest) == SERVICE_MAPPINGS[x] + Transformed(rest)
  {
    TablesAreApart();
    ServiceEntries(x);
    EntryIsWritten(x, rest);
  }

  /** The services and the data of the request. */
  lemma ServiceNames(rest: string)
    requires EndsName(rest)
    ensures Transformed("@CACHE" + rest) == "$ctx.$cache" + Transformed(rest)
    ensures Transformed("@REPOS" + rest) == "$ctx.$repos" + Transformed(rest)
    ensures Transformed("@HELPERS" + rest) == "$ctx.$helpers" + Transformed(rest)
    ensures Transformed("@LOGS" + rest) == "$ctx.$logs" + Transformed(rest)
    ensures Transformed("@BODY" + rest) == "$ctx.$body" + Transformed(rest)
    ensures Transformed("@DATA" + rest) == "$ctx.$data" + Transformed(rest)
    ensures Transformed("@STATUS" + rest) == "$ctx.$statusCode" + Transformed(rest)
    ensures Transformed("@PARAMS" + rest) == "$ctx.$params" + Transformed(rest)
    ensures Transformed("@QUERY" + rest) == "$ctx.$query" + Transformed(rest)
  {
    ServiceEntry("@CACHE", rest);
    ServiceEntry("@REPOS", rest);
    ServiceEntry("@HELPERS", rest);
    ServiceEntry("@LOGS", rest);
    ServiceEntry("@BODY", rest);
    ServiceEntry("@DATA", rest);
    ServiceEntry("@STATUS", rest);
    ServiceEntry("@PARAMS", rest);
    ServiceEntry("@QUERY", rest);
  }

  lemma RequestEntries(x: string)
    requires x in REQUEST_MAPPINGS
    ensures IsEntry(x, REQUEST_MAPPINGS[x])
  {
  }

  lemma RequestEntry(x: string, rest: string)
    requires x in REQUEST_MAPPINGS && EndsName(rest)
    ensures Transformed(x + rest) == REQUEST_MAPPINGS[x] + Transformed(rest)
  {
    TablesAreApart();
    RequestEntries(x);
    EntryIsWritten(x, rest);
  }

  /** The request itself, what comes with it, and the bare throw helper. */
  lemma RequestNames(rest: string)
    requires EndsName(rest)
    ensures Transformed("@USER" + rest) == "$ctx.$user" + Transformed(rest)
    ensures Transformed("@REQ" + rest) == "$ctx.$req" + Transformed(rest)
    ensures Transformed("@RES" + rest) == "$ctx.$res" + Transformed(rest)
    ensures Transformed("@SHARE" + rest) == "$ctx.$share" + Transformed(rest)
    ensures Transformed("@API" + rest) == "$ctx.$api" + Transformed(rest)
    ensures Transformed("@UPLOADED_FILE" + rest) == "$ctx.$uploadedFile" + Transformed(rest)
    ensures Transformed("@PKGS" + rest) == "$ctx.$pkgs" + Transformed(rest)
    ensures Transformed("@SOCKET" + rest) == "$ctx.$socket" + Transformed(rest)
    ensures Transformed("@THROW" + rest) == "$ctx.$throw" + Transformed(rest)
  {
    RequestEntry("@USER", rest);
    RequestEntry("@REQ", rest);
    RequestEntry("@RES", rest);
    RequestEntry("@SHARE", rest);
    RequestEntry("@API", rest);
    RequestEntry("@UPLOADED_FILE", rest);
    RequestEntry("@PKGS", rest);
    RequestEntry("@SOCKET", rest);
    RequestEntry("@THROW", rest);
  }

  lemma ThrowEntries(x: string)
    requires x in THROW_MAPPINGS
    ensures IsEntry(x, THROW_MAPPINGS[x])
  {
  }

  lemma ThrowEntry(x: string, rest: string)
    requires x in THROW_MAPPINGS && EndsName(rest)
    ensures Transformed(x + rest) == THROW_MAPPINGS[x] + Transformed(rest)
  {
    TablesAreApart();
    ThrowEntries(x);
    EntryIsWritten(x, rest);
  }

  lemma ThrowEntryIs(code: string)
    requires code in {"400", "401", "403", "404", "409", "422", "429", "500", "503"}
    ensures "@THROW" + code in THROW_MAPPINGS && THROW_MAPPINGS["@THROW" + code] == ThrowPath(code)
  {
    assert "@THROW" + "400" == "@THROW400" && "@THROW" + "401" == "@THROW401" && "@THROW" + "403" == "@THROW403";
    assert "@THROW" + "404" == "@THROW404" && "@THROW" + "409" == "@THROW409" && "@THROW" + "422" == "@THROW422";
    assert "@THROW" + "429" == "@THROW429" && "@THROW" + "500" == "@THROW500" && "@THROW" + "503" == "@THROW503";
  }

  /** The throw helpers of one status each. */
  lemma ThrowNames(code: string, rest: string)
    requires code in {"400", "401", "403", "404", "409", "422", "429", "500", "503"} && EndsName(rest)
    ensures Transformed("@THROW" + code + rest) == "$ctx.$throw['" + code + "']" + Transformed(rest)
  {
    ThrowEntryIs(code);
    ThrowEntry("@THROW" + code, rest);
  }

  /** The names with a text of their own. */
  const MAPPED_NAMES: set<string> := {
    "@CACHE", "@REPOS", "@HELPERS", "@LOGS", "@BODY", "@DATA", "@STATUS", "@PARAMS", "@QUERY",
    "@USER", "@REQ", "@RES", "@SHARE", "@API", "@UPLOADED_FILE", "@PKGS", "@SOCKET", "@THROW",
    "@THROW400", "@THROW401", "@THROW403", "@THROW404", "@THROW409", "@THROW422", "@THROW429", "@THROW500", "@THROW503"
  }

  /** Every other '@' name is written back as it was read. */
  lemma OtherAtNames(n: string, rest: string)
    requires NameText(n) && EndsName(rest) && "@" + n !in MAPPED_NAMES
    ensures Transformed("@" + n + rest) == "@" + n + Transformed(rest)
  {
    NameIsOneToken('@', n, rest);
  }

  /** Strings and templates, with their escapes, are left alone. */
  lemma QuotedTexts(q: char, b: string, rest: string)
    requires q in "\"'`" && QuoteBody(b, q)
    ensures Transformed([q] + b + [q] + rest) == [q] + b + [q] + Transformed(rest)
  {
    var x := [q] + b + [q];
    assert x[1..|x| - 1] == b;
    ClosedTokenRuns(MAPPINGS, Literal(x), rest);
  }

  /** A comment ends at the first star and slash after its opener. */
  predicate NoCommentEnd(b: string) {
    forall k :: 0 <= k < |b| - 1 ==> !(b[k] == '*' && b[k + 1] == '/')
  }

  lemma NoEndInOpened(b: string, e: string)
    requires NoCommentEnd(b)
    requires e == "" || e == "*/"
    ensures var x := "/*" + b + e; !HasCommentEnd(x, 2, if e == "" then |x| else |x| - 1)
  {
    var x := "/*" + b + e;
    forall k | 2 <= k < |b| + 1 ensures !(x[k] == '*' && x[k + 1] == '/') {
      assert x[k] == b[k - 2] && x[k + 1] == b[(k - 2) + 1];
    }
  }

  /** Comments are left alone. */
  lemma LineComments(b: string, rest: string)
    requires '\n' !in b
    ensures Transformed("//" + b + "\n" + rest) == "//" + b + "\n" + Transformed(rest)
  {
    var x := "//" + b + "\n";
    assert x[..|x| - 1] == "//" + b;
    ClosedTokenRuns(MAPPINGS, LineComment(x), rest);
  }

  lemma BlockComments(b: string, rest: string)
    requires NoCommentEnd(b)
    ensures Transformed("/*" + b + "*/" + rest) == "/*" + b + "*/" + Transformed(rest)
  {
    NoEndInOpened(b, "*/");
    ClosedTokenRuns(MAPPINGS, BlockComment("/*" + b + "*/"), rest);
  }

  /** So are strings that only the end of the code stops, a last escape included. */
  lemma UnfinishedStrings(q: char, b: string, last: string)
    requires q in "\"'`" && QuoteBody(b, q) && (last == "" || last == "\\")
    ensures Transformed([q] + b + last) == [q] + b + last
  {
    assert IsQuote(q);
    QuoteRuns(MAPPINGS, b, q, last);
    LastBackslashRuns(MAPPINGS, q);
    UnfinishedRuns(MAPPINGS, [q], b + last, StringState(q));
    Associative([q], b, last);
  }

  /** So are comments that only the end of the code stops. */
  lemma UnfinishedComments(b: string)
    ensures '\n' !in b ==> Transformed("//" + b) == "//" + b
    ensures NoCommentEnd(b) ==> Transformed("/*" + b) == "/*" + b
  {
    if '\n' !in b { OpenTokenRuns(MAPPINGS, LineComment("//" + b)); }
    if NoCommentEnd(b) {
      NoEndInOpened(b, "");
      assert "/*" + b + "" == "/*" + b;
      OpenTokenRuns(MAPPINGS, BlockComment("/*" + b));
    }
  }

  /** Every other character is left alone, a slash when neither a slash nor a star follows. */
  lemma OtherCharacters(c: char, rest: string)
    requires c !in "@#%\"'`"
    requires c == '/' && rest != "" ==> rest[0] !in "/*"
    ensures Transformed([c] + rest) == [c] + Transformed(rest)
  {
    ClosedTokenRuns(MAPPINGS, Other(c), rest);
  }
}
