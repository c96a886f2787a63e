# Enfyra server: a verified model of its core logic

The project models, in Dafny 4.11, the parts of the server whose correctness depends on all inputs, all runs or all
interleavings, and proves what they promise:

- **Script rewriting.** A six-state scanner replaces `@NAME`, `#NAME` and `%NAME` outside strings, templates and
  comments. It is idempotent, it is a token-wise rewrite, no mapped name is left, and lines keep their numbers; so the
  route cache, which runs it again and again on hook objects shared by routes, ends with every hook rewritten once.
  (`CodeTransformer`, `CodeTokens`, `CodeTexts`, `RouteScripts`)
- **Route trie.** The mutable trie with backtracking search is refined against the plain list of inserted patterns,
  and every entry of the parameter map it fills and empties in place is traced to the step of the search that decides
  it. (`RoutePaths`, `RouteView`, `RouteParams`, `RouteBindings`, `RouteTrie`, `RouteLookup`, `RouteExamples`)
- **Filter compiler.** The WHERE clause built from a nested filter is scanned and parsed as SQL-92 text and, in
  three-valued logic, is true, false or unknown on exactly the rows on which the filter is. Every filter compiles as a
  well-formed one that is given; which filters are not scanned as their own names and values, and which are no search
  condition, is described exactly. (`SqlText`, `SqlCount`, `SqlLike`, `SqlCondition`, `SqlParsed`, `FilterCompiler`,
  `FilterScan`, `FilterMatch`, `FilterText`, `FilterExact`, `FilterMeaning`, `FilterClause`, `FilterOperators`, `FilterEscapes`)
- **Script executions.** Timeouts, messages, exits and errors race for one pooled child process: each execution hands
  its child back once; and calls and streams of scripts are answered by their own results, over all executions of one
  child. Executions whose set-up threw, and what they leave behind, are part of the runs. (`ExecutorProtocol`,
  `ExecutorEvents`, `Executor`, `CallProtocol`)
- **Rate limiter.** A trimmed, expiring sorted set decides the same as the full log of the members ever admitted,
  which are the requests admitted exactly when no two of these draw the same member. (`RateLimit`)
- **Locks and cache broadcast.** The Redis lock with expiry, the Mongo migration lock, and the reload that loads,
  assigns and publishes while other instances listen, also when locks expire under it and steps of it fail.
  (`CacheLock`, `MigrationLock`, `CacheSync`)
- **Relations.** Generating inverse relations while iterating over the lists that grow; keeping both ends of a relation
  in step in MongoDB; cascading a payload into child rows and junction rows. (`InverseRelations`, `MongoRelations`,
  `MongoWrites`, `Cascade`, `CascadePayload`)
- **Slugs.** The loop that looks for a free slug. (`AutoSlug`)

`Wrappers` and `Seqs` hold an option type and two lemmas about concatenation. Code that the server runs step by step on
shared objects is a class or a loop here too, proved against a function of the old state; the properties are lemmas
about those functions and about runs of them. Where a property fails for some inputs, a lemma gives the exact condition
under which it holds, over all inputs or runs, often beside a concrete one in which it does not. SQL is that of ISO/IEC
9075:1992: sections 5.2 and 5.3 for tokens and literals, 8.2 to 8.6 for predicates, 8.12 for search conditions;
PostgreSQL's `ILIKE`, `UNACCENT` and `::uuid` are added to it.

## Model

| member | source | states |
|---|---|---|
| `CodeTransformer.Step` | src/infrastructure/handler-executor/code-transformer.ts:45-166 | The branch taken at one position consumes and writes what the scanner's transition function says, and always advances |
| `CodeTransformer.Rewrite` | src/infrastructure/handler-executor/code-transformer.ts:44-169 | The loop ends and returns the recursive rewrite of the whole input from code position |
| `CodeTransformer.TransformCode` | src/infrastructure/handler-executor/code-transformer.ts:38-170 | The exported function is the rewrite with the built-in table |
| `CodeTransformer.MappingsAreNeutral` | src/infrastructure/handler-executor/code-transformer.ts:1-29 | No replacement text opens or closes a string or comment, contains a sigil, or merges with a neighbour |
| `CodeTransformer.StepIsStable` | src/infrastructure/handler-executor/code-transformer.ts:48-166 | Scanning what one step wrote, in front of the rest of the output, writes the same again |
| `CodeTransformer.RunIsIdempotent` | src/infrastructure/handler-executor/code-transformer.ts:38-170 | For every neutral table and every scanner state, rewriting the output changes nothing |
| `CodeTransformer.TransformIsIdempotent` | src/infrastructure/handler-executor/code-transformer.ts:38-170 | `transformCode(transformCode(s)) == transformCode(s)` for every string |
| `CodeTokens.RunIsTokenwise` | src/infrastructure/handler-executor/code-transformer.ts:44-169 | For every splitting of the input by the token grammar, the output is the tokens with only sigil names replaced |
| `CodeTokens.TokensExist` | src/infrastructure/handler-executor/code-transformer.ts:44-169 | Every input, unfinished strings and comments included, has such a splitting |
| `CodeTokens.TransformIsTokenwise` | src/infrastructure/handler-executor/code-transformer.ts:38-170 | The rewriter agrees with every splitting, and there is one |
| `CodeTokens.OnlyUnmappedNamesAreLeft` | src/infrastructure/handler-executor/code-transformer.ts:70-93 | The names in code position of the output are exactly the unmapped `@` names of the input in order; no `#` or `%` name is left |
| `CodeTokens.TokensKeepTheirLine` | src/infrastructure/handler-executor/code-transformer.ts:44-169 | Every token starts on the same line in the output as in the input |
| `CodeTexts.RepositoryAndPackageNames` | src/infrastructure/handler-executor/code-transformer.ts:70-93 | In front of any code that does not lengthen it, `#` and a name become `$ctx.$repos.` and the name, `%` and a name `$ctx.$pkgs.` and the name, for every text of upper-case letters, digits and underscores |
| `CodeTexts.ServiceNames` | src/infrastructure/handler-executor/code-transformer.ts:2-10 | The nine names of services and request data, from `@CACHE` to `@QUERY`, each become their own text |
| `CodeTexts.RequestNames` | src/infrastructure/handler-executor/code-transformer.ts:11-28 | So do the nine names from `@USER` to `@SOCKET` and bare `@THROW` |
| `CodeTexts.ThrowNames` | src/infrastructure/handler-executor/code-transformer.ts:19-27 | And `@THROW` with one of the nine statuses, which becomes an entry of `$ctx.$throw` |
| `CodeTexts.OtherAtNames` | src/infrastructure/handler-executor/code-transformer.ts:86-88 | Every other `@` name is written back as it was read |
| `CodeTexts.QuotedTexts` | src/infrastructure/handler-executor/code-transformer.ts:100-147 | A closed string or template, escapes included, is left alone, and the code behind it is rewritten as code |
| `CodeTexts.LineComments` | src/infrastructure/handler-executor/code-transformer.ts:148-154 | So is a line comment with its line end |
| `CodeTexts.BlockComments` | src/infrastructure/handler-executor/code-transformer.ts:156-165 | So is a block comment up to its first end |
| `CodeTexts.UnfinishedStrings` | src/infrastructure/handler-executor/code-transformer.ts:100-147 | A string that only the end of the code stops, perhaps in an escape, is left alone |
| `CodeTexts.UnfinishedComments` | src/infrastructure/handler-executor/code-transformer.ts:148-165 | So is such a comment |
| `CodeTexts.OtherCharacters` | src/infrastructure/handler-executor/code-transformer.ts:94-97 | So is every character that is no sigil and no quote, a slash when no comment starts with it |
| `RouteScripts.UniqueHooksKeepsFirst` | src/infrastructure/cache/services/route-cache.service.ts:148-156 | The kept hooks have distinct ids, and of each id it is the first hook that is kept |
| `RouteScripts.UniqueKeepsOrder` | src/infrastructure/cache/services/route-cache.service.ts:148-156 | The kept hooks stay in the order of their first occurrences |
| `RouteScripts.OwnHooksAreOwn` | src/infrastructure/cache/services/route-cache.service.ts:133-142 | A route's own hooks that take part are those enabled and explicitly not global |
| `RouteScripts.OwnHooksKeepOrder` | src/infrastructure/cache/services/route-cache.service.ts:133-142 | They stay in order, each as often as it is listed |
| `RouteScripts.MergedHooksComeFrom` | src/infrastructure/cache/services/route-cache.service.ts:132-146 | Merging adds no hook from elsewhere |
| `RouteScripts.GlobalHooksComeFirst` | src/infrastructure/cache/services/route-cache.service.ts:137-145 | The merged list starts with the unique global hooks; behind them come enabled, explicitly non-global hooks of the route whose id no global hook has |
| `RouteScripts.MergeHooks` | src/infrastructure/cache/services/route-cache.service.ts:132-146 | The route's lists become the unique hooks of the global ones followed by its own |
| `RouteScripts.TransformScripts` | src/infrastructure/cache/services/route-cache.service.ts:158-182 | Each object of the list holds its rewritten code, even when listed more than once |
| `RouteScripts.TransformRouteCode` | src/infrastructure/cache/services/route-cache.service.ts:158-182 | All handlers and hooks of the route are rewritten, and nothing else changes |
| `RouteScripts.LoadRoute` | src/infrastructure/cache/services/route-cache.service.ts:98-106 | One round of the load merges one route's hooks and rewrites exactly its scripts |
| `RouteScripts.LoadGlobalHooks` | src/infrastructure/cache/services/route-cache.service.ts:111-130 | Exactly the global hooks are rewritten |
| `RouteScripts.LoadRoutes` | src/infrastructure/cache/services/route-cache.service.ts:93-109 | After the load every reachable hook and handler holds exactly the rewrite of its stored code, however many routes share it; others are untouched |
| `RouteScripts.AllScriptsAre` | src/infrastructure/cache/services/route-cache.service.ts:158-182 | The scripts of routes are their handlers, pre-hooks and post-hooks |
| `RoutePaths.SegmentsAreNonEmptyPieces` | src/shared/utils/enfyra-route-engine.ts:170-182 | Normalising does not change the segments: they are the non-empty pieces between slashes |
| `RoutePaths.SplitIff` | src/shared/utils/enfyra-route-engine.ts:179-182 | The pieces of a path are the only non-empty list of texts without a slash that, joined by slashes, gives the path back |
| `RoutePaths.SegmentsAtSlash` | src/shared/utils/enfyra-route-engine.ts:170-182 | Cut at any slash, a path has the segments of the part before it and then those of the part behind it; the empty path has none |
| `RoutePaths.OneSegment` | src/shared/utils/enfyra-route-engine.ts:170-182 | A non-empty text without a slash is its one segment, whatever other characters it has |
| `RoutePaths.SegmentsReadBack` | src/shared/utils/enfyra-route-engine.ts:170-182 | Segments joined by slashes, with one in front or not, are read back, and segments are never empty and hold no slash |
| `RouteView.InsertBelowStores` | src/shared/utils/enfyra-route-engine.ts:54-80 | One insertion sets the handler at the position of its shape and no other; wildcard and empty patterns store nothing |
| `RouteView.BuildLeavesWildcardsEmpty` | src/shared/utils/enfyra-route-engine.ts:58-63 | After any insertions no wildcard node has a handler |
| `RouteView.FoundIfCandidate` | src/shared/utils/enfyra-route-engine.ts:118-149 | The search finds a handler whenever one is reachable, and prefers static over parameter at the earliest difference |
| `RouteView.FoundIsCandidate` | src/shared/utils/enfyra-route-engine.ts:118-149 | What the search finds matches the path and has a handler |
| `RouteView.FindAfterInsertions` | src/shared/utils/enfyra-route-engine.ts:39-149 | A path has a route exactly when some inserted pattern of the method matches it; the route is that of the most static matching shape and the last inserted of that shape |
| `RouteLookup.FindAnswersBest` | src/shared/utils/enfyra-route-engine.ts:39-149 | The same with patterns read character by character: a path is answered if and only if a pattern without a segment that starts with `*` has its segments where its own do not start with `:`; the answer is static where it first differs in shape from any other, and the last of its shape |
| `RouteParams.FailedSearchRemovesVisited` | src/shared/utils/enfyra-route-engine.ts:136-148 | A failed search removes exactly the names of the parameter nodes it visited, `splat` aside |
| `RouteBindings.FailedSearchKeepsIff` | src/shared/utils/enfyra-route-engine.ts:136-148 | On every trie a failed search leaves the map as it found it if and only if it visited no name bound there and did to `splat` nothing that shows |
| `RouteBindings.LastTouchDecides` | src/shared/utils/enfyra-route-engine.ts:124-148 | On every trie: after a successful search each entry is what the last step of the matched path that touched it left, by its own binding or through the branch it gave up |
| `RouteBindings.KeptUnlessLost` | src/shared/utils/enfyra-route-engine.ts:124-148 | A name other than `splat` has the entry that the matched path binds unless, and only unless, it is visited in a branch given up after it was bound and not bound again; without wildcards `splat` too |
| `RouteBindings.SearchBindsIff` | src/shared/utils/enfyra-route-engine.ts:124-148 | On every trie a successful search leaves exactly the bindings of the matched path if and only if no name is lost that way and the last step that touched `splat` did not give up a branch that left it another entry |
| `RouteBindings.NameIsInResultIff` | src/shared/utils/enfyra-route-engine.ts:124-148 | On every trie a name is in the result if and only if it was there before, or a step of the path left it, and no later step erased it |
| `RouteBindings.SplatIsInResultIff` | src/shared/utils/enfyra-route-engine.ts:143-146 | When no parameter is called `splat`, that entry is in the result if and only if it was there before or a branch given up along the path reached a node with a wildcard child |
| `RouteBindings.DistinctNamesAreNotLost` | src/shared/utils/enfyra-route-engine.ts:136-141 | With distinct names on each trie path no name is lost |
| `RouteBindings.SuccessfulSearchBinds` | src/shared/utils/enfyra-route-engine.ts:124-148 | So with distinct names and no wildcards a successful search adds exactly the bindings of the matched path |
| `RouteBindings.FindAnswersPathIff` | src/shared/utils/enfyra-route-engine.ts:83-116 | On every trie `find` binds each parameter node of the matched path to its own decoded segment, and nothing else, if and only if its bindings stay intact in that sense and nodes that share a name stand for equal segments |
| `RouteBindings.FindBindsMatchedPath` | src/shared/utils/enfyra-route-engine.ts:83-116 | In particular without wildcards and with distinct names on each path |
| `RouteParams.NamesAtOneIndexAreDistinct` | src/shared/utils/enfyra-route-engine.ts:64-69 | If each name is used at one segment index only, the names along every trie path are distinct |
| `RouteParams.NoWildcardsInserted` | src/shared/utils/enfyra-route-engine.ts:58-63 | If no pattern has a wildcard the trie has no wildcard node |
| `RouteTrie.EnfyraRouteEngine.Descend` | src/shared/utils/enfyra-route-engine.ts:58-75 | Takes or creates the child for a segment; an existing parameter node keeps its first name |
| `RouteTrie.EnfyraRouteEngine.InsertSegment` | src/shared/utils/enfyra-route-engine.ts:54-80 | One round of the loop does one step of the abstract insertion, and breaks exactly at a wildcard |
| `RouteTrie.EnfyraRouteEngine.InsertPath` | src/shared/utils/enfyra-route-engine.ts:47-80 | The in-place loop has the effect of one insertion on the abstract trie |
| `RouteTrie.EnfyraRouteEngine.Insert` | src/shared/utils/enfyra-route-engine.ts:39-81 | Inserting a path extends the list of insertions that the trie represents |
| `RouteTrie.EnfyraRouteEngine.Search` | src/shared/utils/enfyra-route-engine.ts:118-149 | The recursive search returns the node, and leaves the parameter map, that the abstract search gives |
| `RouteTrie.EnfyraRouteEngine.Find` | src/shared/utils/enfyra-route-engine.ts:83-116 | Finding returns the abstract route and parameters and changes no node |
| `RouteTrie.InsertRouteToEngine` | src/infrastructure/cache/services/route-cache.service.ts:235-257 | A route is inserted for each of its methods, and with `/:id` for DELETE and PATCH; none without a path |
| `RouteTrie.BuildRouteEngine` | src/infrastructure/cache/services/route-cache.service.ts:228-233 | The new engine represents the insertions of all routes in order |
| `RouteLookup.EngineFindsIff` | src/infrastructure/cache/services/route-cache.service.ts:228-257 | The engine built from the stored routes finds a route for a method and a path if and only if one has a path, is open to the method and stands for the path, or for the path before a last segment when the method is DELETE or PATCH; what it finds is such a route |
| `RouteExamples.BuildsSharedNameTrie` | src/shared/utils/enfyra-route-engine.ts:64-69 | Two patterns, each with distinct names, build a trie in which a name repeats along a path |
| `RouteExamples.BoundParameterIsLost` | src/shared/utils/enfyra-route-engine.ts:136-141 | In that trie a matched path loses a parameter to a branch given up later |
| `RouteExamples.BuildsWildcardTrie` | src/shared/utils/enfyra-route-engine.ts:58-63 | The trie of the next row is built by two insertions |
| `RouteExamples.SplatIsLeftBehind` | src/shared/utils/enfyra-route-engine.ts:143-146 | A failed wildcard leaves its `splat` entry in the parameters of another route |
| `SqlText.QuotedReadsBack` | src/infrastructure/query-builder/executors/sql-query-executor.ts:179-179 | A quote-doubled literal reads back to its value (section 5.3) |
| `SqlCount.ScanningCounts` | src/infrastructure/query-builder/executors/sql-query-executor.ts:142-267 | A text that is scanned has as many quotes of each kind as its tokens write, and its numerals are numerals |
| `SqlParsed.ParseIff` | src/infrastructure/query-builder/executors/sql-query-executor.ts:142-267 | The parser with SQL's precedence reads a text as a condition if and only if this is well-formed and its tokens are those of the text (section 8.12) |
| `FilterText.ConditionReadsAs` | src/infrastructure/query-builder/executors/sql-query-executor.ts:168-249 | The text of one operator on a name without the identifier quote is scanned as exactly the tokens of one predicate on that column with that value, or there is none |
| `FilterClause.ConditionMeansEffective` | src/infrastructure/query-builder/executors/sql-query-executor.ts:188-249 | And that predicate evaluates, on every row, to the meaning of the operator as it takes effect |
| `FilterMatch.MatchReadsAs` | src/infrastructure/query-builder/executors/sql-query-executor.ts:222-242 | The text of `_contains`, `_starts_with` and `_ends_with` is scanned as one LIKE or ILIKE predicate, whatever quotes the text sought contains |
| `FilterMatch.MatchEvaluates` | src/infrastructure/query-builder/executors/sql-query-executor.ts:222-242 | That predicate is the search of the folded column for the folded text, on PostgreSQL and elsewhere |
| `FilterMatch.SearchFindsText` | src/infrastructure/query-builder/executors/sql-query-executor.ts:222-242 | With no wildcard in the text sought, the search is true of exactly the values that hold the text at the place asked for |
| `SqlLike.SearchIsExactIff` | src/infrastructure/query-builder/executors/sql-query-executor.ts:222-242 | A search by pattern finds exactly the strings that hold the text if and only if the text has no `%` and no `_` in it, which the compiler does not escape |
| `FilterCompiler.CompileField` | src/infrastructure/query-builder/executors/sql-query-executor.ts:166-250 | The loop over a field's operators emits its parts in order |
| `FilterCompiler.CompileMembers` | src/infrastructure/query-builder/executors/sql-query-executor.ts:146-157 | The members of `_and` and `_or` are parenthesised and the empty ones dropped |
| `FilterCompiler.BuildWhereFromFilter` | src/infrastructure/query-builder/executors/sql-query-executor.ts:142-267 | The recursive compiler emits exactly the specified parts |
| `FilterExact.ClauseReadsAsIff` | src/infrastructure/query-builder/executors/sql-query-executor.ts:142-271 | The emitted text is scanned as the tokens of the filter's own names and values if and only if no name in effect contains the identifier quote, no array stands without an operator or within a list, and no number is infinite |
| `FilterExact.ClauseParsesToTreeIff` | src/infrastructure/query-builder/executors/sql-query-executor.ts:268-271 | And at any nesting depth it is parsed as exactly the tree of the filter if and only if, besides, no `_in` or `_not_in` list is empty |
| `FilterExact.FieldReadsBackIff` | src/infrastructure/knex/utils/migration/sql-dialect.ts:3-17 | A quoted field is read back as its name if and only if the name does not contain the identifier quote, which is not escaped |
| `FilterExact.MemberReadsBackIff` | src/infrastructure/query-builder/executors/sql-query-executor.ts:204-248 | A member of a list, or a bound, is read back if and only if it is no array, object or infinite number |
| `FilterExact.ShorthandReadsBackIff` | src/infrastructure/query-builder/executors/sql-query-executor.ts:251-263 | So is a value without an operator |
| `FilterOperators.NoCastOutsidePostgres` | src/infrastructure/query-builder/executors/sql-query-executor.ts:173-181 | Outside PostgreSQL there is no `::` among the tokens of the clause of any filter |
| `FilterOperators.ComparisonParses` | src/infrastructure/query-builder/executors/sql-query-executor.ts:170-199 | The clause of one comparison with one value is parsed as that comparison of the column with the value; a text is cast if and only if the database is PostgreSQL, the column a uuid, and the text five groups of 8, 4, 4, 4 and 12 hexadecimal digits of either case joined by hyphens |
| `FilterOperators.ComparisonHolds` | src/infrastructure/query-builder/executors/sql-query-executor.ts:188-199 | On a row it is unknown beside a null, and else true exactly for the orders that its operator names |
| `FilterOperators.NullTestParses` | src/infrastructure/query-builder/executors/sql-query-executor.ts:200-203 | `_is_null` tests for null and `_is_not_null` for not null, whatever their value |
| `FilterOperators.ListParses` | src/infrastructure/query-builder/executors/sql-query-executor.ts:204-221 | `_in` and `_not_in` test the column against the members in order, none of them cast; one value alone counts as a list of one |
| `FilterOperators.BetweenParses` | src/infrastructure/query-builder/executors/sql-query-executor.ts:243-249 | `_between` takes its bounds from a pair in order, and emits nothing for any other value |
| `FilterOperators.ShorthandParses` | src/infrastructure/query-builder/executors/sql-query-executor.ts:251-263 | A value without an operator is compared for equality and never cast |
| `FilterOperators.ArrayTextJoins` | src/infrastructure/query-builder/executors/sql-query-executor.ts:185-187 | The text of an array where one value is expected is its members joined by commas |
| `FilterOperators.ArrayComparisonParses` | src/infrastructure/query-builder/executors/sql-query-executor.ts:185-199 | A comparison with an array compares with that text |
| `FilterOperators.SearchMeans` | src/infrastructure/query-builder/executors/sql-query-executor.ts:222-242 | On a row `_contains`, `_starts_with` and `_ends_with` of a text without wildcards are unknown on null and else true exactly when the folded text stands anywhere, at the start, or at the end of the folded column, on PostgreSQL and elsewhere |
| `FilterEscapes.QuoteInNameEscapes` | src/infrastructure/knex/utils/migration/sql-dialect.ts:3-17 | For any two comparisons there is a field name that makes one entry compile to their disjunction |
| `FilterEscapes.ArrayShorthandEscapes` | src/infrastructure/query-builder/executors/sql-query-executor.ts:251-263 | So does an array given without an operator, which is written as it stands |
| `FilterEscapes.NestedMemberEscapes` | src/infrastructure/query-builder/executors/sql-query-executor.ts:206-220 | An array within a list is written as it stands: whatever list its text spells takes its place |
| `FilterMeaning.NothingEmittedIffSilent` | src/infrastructure/query-builder/executors/sql-query-executor.ts:142-267 | Nothing is emitted exactly for the filters that hold no condition: no operator that says anything and no shorthand, at any depth |
| `FilterClause.EffectiveKeepsFactors` | src/infrastructure/query-builder/executors/sql-query-executor.ts:142-267 | That filter compiles to the same factors |
| `FilterClause.TreeMeansEffective` | src/infrastructure/query-builder/executors/sql-query-executor.ts:142-267 | The tree of every filter evaluates, in three-valued logic, to the meaning of the filter that takes effect: conditions that say nothing are dropped at any depth, null tests count as `true`, a comparison with a list as one with its text |
| `FilterClause.ClauseMeansEffective` | src/infrastructure/query-builder/executors/sql-query-executor.ts:142-271 | For every filter that keeps to its names and values, and every row: the clause has a truth value if and only if no list is empty, and that is the meaning of the filter that takes effect |
| `FilterClause.ClauseMeansFilter` | src/infrastructure/query-builder/executors/sql-query-executor.ts:142-271 | So for a well-formed filter the clause is true, false or unknown exactly when the filter is |
| `FilterClause.OrAgreesExactly` | src/infrastructure/query-builder/executors/sql-query-executor.ts:153-160 | In particular for one `_or`: the exact condition under which dropping members that hold no condition does no harm on a row |
| `FilterClause.NotAgreesExactly` | src/infrastructure/query-builder/executors/sql-query-executor.ts:161-165 | For one `_not`: it agrees with its meaning if and only if its inside holds a condition, and no empty list |
| `FilterClause.NullTestAgreesExactly` | src/infrastructure/query-builder/executors/sql-query-executor.ts:200-203 | For one null test, which ignores its value: exactly for `true` |
| `FilterClause.ListComparisonAgreesExactly` | src/infrastructure/query-builder/executors/sql-query-executor.ts:185-199 | For one comparison with a list, which is written as its text: exactly on the rows where the field is null |
| `FilterClause.EmptyListIsNoCondition` | src/infrastructure/query-builder/executors/sql-query-executor.ts:204-221 | For `_in` and `_not_in` of one field: the clause has no truth value exactly for an empty list |
| `ExecutorProtocol.MisusedIffStray` | src/infrastructure/handler-executor/services/handler-executor.service.ts:26-56 | In every run, failing set-ups included and each message delivered to all who listen as it comes, a child that is not on loan to the caller is released or destroyed if and only if an execution whose set-up failed is still reached by an event that ends it |
| `ExecutorProtocol.NoFailureNoMisuse` | src/infrastructure/handler-executor/utils/child-process-manager.ts:231-337 | So never when no set-up throws |
| `ExecutorProtocol.HandedBackAtMostOnce` | src/infrastructure/handler-executor/utils/child-process-manager.ts:231-337 | In every interleaving, failing set-ups included, the callbacks of an execution call the pool at most once, exactly when it is over, and release exactly after `done` |
| `ExecutorProtocol.NoSharedChild` | src/infrastructure/handler-executor/services/handler-executor.service.ts:26-56 | Unless there was such a stray call, no child is held by two running executions, and a held child is neither idle nor gone |
| `ExecutorProtocol.OverIsFinal` | src/infrastructure/handler-executor/utils/error-handler.ts:162-164 | In every run, once over, no later event changes an execution |
| `ExecutorProtocol.TimeoutAlwaysEnds` | src/infrastructure/handler-executor/utils/child-process-manager.ts:28-48 | Unless there was a stray call, a running execution always has its timer armed, and firing it ends it and destroys its child |
| `ExecutorEvents.OverIffEnded` | src/infrastructure/handler-executor/utils/child-process-manager.ts:36-337 | In every run an execution is over if and only if a timeout, a done message, an error message, an exit or a process error reached it while it was running, and one of these is its last event |
| `ExecutorEvents.CallsLeaveAllRunning` | src/infrastructure/handler-executor/utils/child-process-manager.ts:68-229 | A call or stream message ends no execution and changes no listener, timer or pool; a call that throws settles those that listen and run, and nothing else changes |
| `ExecutorEvents.EachEndingEnds` | src/infrastructure/handler-executor/utils/child-process-manager.ts:36-337 | Unless there was a stray call, each of the five can reach every running execution and ends it with one call of the pool; after done its child is idle, after the others it is gone |
| `ExecutorEvents.SettledIff` | src/infrastructure/handler-executor/utils/child-process-manager.ts:139-147 | In every run an execution has settled its promise if and only if it is over or a call that throws reached it while it was running |
| `ExecutorProtocol.SharedIsReached` | src/infrastructure/handler-executor/services/handler-executor.service.ts:52-55 | A set-up that throws can leave its timer and listeners on a child that another execution then borrows |
| `ExecutorProtocol.FailedSetupEndsAnotherChild` | src/infrastructure/handler-executor/services/handler-executor.service.ts:52-55 | The timer left behind by a set-up that threw destroys the released child while another execution holds it; that one is left deaf and unfinished |
| `ExecutorProtocol.DoneReachesBoth` | src/infrastructure/handler-executor/utils/child-process-manager.ts:231-249 | A `done` message then ends both, and both call the pool about one child |
| `Executor.Run.constructor` | src/infrastructure/handler-executor/services/handler-executor.service.ts:26-49 | A new execution has its own `isDone` cell, an armed timer and its listeners on the child |
| `Executor.Run.OnTimeout` | src/infrastructure/handler-executor/utils/child-process-manager.ts:36-47 | The timer's callback reacts as the protocol says |
| `Executor.Run.HandleChildError` | src/infrastructure/handler-executor/utils/error-handler.ts:150-175 | So does the guarded terminal step |
| `Executor.Run.OnMessage` | src/infrastructure/handler-executor/utils/child-process-manager.ts:66-276 | So does the message listener, for done, error, throwing calls and all others |
| `Executor.Run.OnExit` | src/infrastructure/handler-executor/utils/child-process-manager.ts:277-316 | So does the exit listener |
| `Executor.Run.OnProcessError` | src/infrastructure/handler-executor/utils/child-process-manager.ts:317-337 | So does the process error listener |
| `CallProtocol.ScriptRunner.Call` | src/infrastructure/handler-executor/utils/build-fn-proxy.ts:49-92 | A call takes the next number and is pending under it |
| `CallProtocol.ScriptRunner.StreamId` | src/infrastructure/handler-executor/utils/build-fn-proxy.ts:99-99 | A stream takes the next number of the same counter, under another prefix, so calls never reuse it |
| `CallProtocol.ScriptRunner.AwaitStream` | src/infrastructure/handler-executor/utils/build-fn-proxy.ts:127-131 | After its last chunk a stream is pending under its own id |
| `CallProtocol.ScriptRunner.OnCallResult` | src/infrastructure/handler-executor/runner.ts:102-114 | A result settles the call pending under its id, if any, and removes it |
| `CallProtocol.ScriptRunner.OnStreamResult` | src/infrastructure/handler-executor/runner.ts:102-114 | A result for a stream settles the stream pending under its id, if any, and removes it |
| `CallProtocol.ResultSettlesIff` | src/infrastructure/handler-executor/runner.ts:105-113 | A result of a call that arrives, however late, settles it for its own caller if and only if it was not settled before; and always when no call was taken by two listeners, which needs a set-up that threw |
| `CallProtocol.CallsAreSettledByTheirOwnResult` | src/infrastructure/handler-executor/utils/child-process-manager.ts:208-229 | Over all runs of any number of executions on one child, ids never repeat, no call is settled twice, and a result settles only the call it answers |
| `CallProtocol.PendingUntilSettled` | src/infrastructure/handler-executor/utils/build-fn-proxy.ts:79-92 | A call is pending exactly until it is settled |
| `CallProtocol.StreamsAreSettledByTheirOwnResult` | src/infrastructure/handler-executor/utils/child-process-manager.ts:107-136 | Over all runs a stream is settled at most once and only for its own caller, and is pending exactly from its wait to its settlement |
| `CallProtocol.StreamResultSettlesIff` | src/infrastructure/handler-executor/utils/child-process-manager.ts:68-136 | A result for a stream settles it if and only if the stream has come to its wait and is not settled; an earlier answer is lost |
| `RateLimit.RateLimiter.Trim` | src/infrastructure/cache/services/rate-limit.service.ts:32-32 | An expired key is dropped and admissions older than the window are removed |
| `RateLimit.RateLimiter.Check` | src/infrastructure/cache/services/rate-limit.service.ts:26-45 | The script's answer and its effect on the key, the failing script and a member that is there already included |
| `RateLimit.RateLimiter.Status` | src/infrastructure/cache/services/rate-limit.service.ts:136-150 | The answer of `status` and its trimming of the key |
| `RateLimit.RateLimiter.Reset` | src/infrastructure/cache/services/rate-limit.service.ts:115-119 | The key is gone |
| `RateLimit.RunAgrees` | src/infrastructure/cache/services/rate-limit.service.ts:32-38 | After any calls the trimmed, expiring set and the full log of the members admitted agree on every window that is still open |
| `RateLimit.CheckAnswersFromTheLog` | src/infrastructure/cache/services/rate-limit.service.ts:32-44 | `check` answers from exactly the admissions the full log holds in the window |
| `RateLimit.CheckDecidesAsTheLog` | src/infrastructure/cache/services/rate-limit.service.ts:36-39 | It admits exactly when the log has room (or the script fails), and reports how much is left |
| `RateLimit.CheckAnswerIs` | src/infrastructure/cache/services/rate-limit.service.ts:36-44 | The whole answer: a request that passes is given the room left, a full window from now and no wait; one that is denied no room, the instant the oldest entry leaves, and the least whole seconds until then |
| `RateLimit.AtMostLimitMembersPerWindow` | src/infrastructure/cache/services/rate-limit.service.ts:26-45 | In every half-open interval of the window's length at most `limit` members are admitted since the last reset, with limits from 1 to `limit` |
| `RateLimit.AdmissionsAreLoggedIff` | src/infrastructure/cache/services/rate-limit.service.ts:37-37 | The requests admitted are as many as the members logged plus those that drew the member of an earlier one, and the same exactly when none did |
| `RateLimit.AtMostLimitPerWindow` | src/infrastructure/cache/services/rate-limit.service.ts:26-45 | So when no member is drawn twice, at most `limit` requests are admitted in every such interval |
| `RateLimit.EqualDrawsAreAllAdmitted` | src/infrastructure/cache/services/rate-limit.service.ts:36-39 | When all checks of an instant draw the same number, any limit above one admits all of them |
| `RateLimit.NonPositiveLimitAdmitsAll` | src/infrastructure/cache/services/rate-limit.service.ts:41-42 | With limits of zero or less the script fails each time and every request passes |
| `RateLimit.DenialFillsTheWindow` | src/infrastructure/cache/services/rate-limit.service.ts:40-43 | A denial means a full window, and `resetAt` is when its oldest admission leaves |
| `RateLimit.DenialLastsUntilReset` | src/infrastructure/cache/services/rate-limit.service.ts:40-43 | After a denial a check is admitted if and only if it comes at or after `resetAt` |
| `RateLimit.RetryAfterReachesReset` | src/infrastructure/cache/services/rate-limit.service.ts:43-43 | `retryAfter` is at least 1 and the least number of seconds that reaches `resetAt` |
| `RateLimit.StatusPredictsCheck` | src/infrastructure/cache/services/rate-limit.service.ts:137-149 | `status` predicts whether `check` at that instant admits and what it reports if and only if the script does not fail then, and never changes its answer |
| `RateLimit.StatusResetIsTheNewest` | src/infrastructure/cache/services/rate-limit.service.ts:140-141 | `status` gives the time the newest admission leaves, `check` the oldest: equal exactly when these are |
| `RateLimit.StatusAnswerIs` | src/infrastructure/cache/services/rate-limit.service.ts:136-150 | The whole answer of `status`: whether there is room, how much, and when the newest entry leaves or a full window from now |
| `CacheLock.CacheService.DecorationKeepsKeysApart` | src/infrastructure/cache/services/cache.service.ts:21-26 | Distinct keys of one service never share a Redis key |
| `CacheLock.CacheService.NodesAreApart` | src/infrastructure/cache/services/cache.service.ts:21-26 | Services of two nodes whose names have no colon in them never share one either |
| `CacheLock.CacheService.Acquire` | src/infrastructure/cache/services/cache.service.ts:39-50 | Succeeds exactly when the key is absent or expired, and touches no other key |
| `CacheLock.CacheService.Release` | src/infrastructure/cache/services/cache.service.ts:51-66 | Deletes exactly a live entry with the releaser's value |
| `CacheLock.HoldHasLockIffUndisturbed` | src/infrastructure/cache/services/cache.service.ts:39-66 | In every run a hold within its time to live still has the lock if and only if no other hold of its own instance was released while it was open |
| `CacheLock.OverlapNeedsDisturbance` | src/infrastructure/cache/services/cache.service.ts:39-66 | So of two holds open at once within their time, one was disturbed by its own instance |
| `CacheLock.PunctualInstanceOwns` | src/infrastructure/cache/services/cache.service.ts:39-66 | An instance whose holds finish in time owns the entry throughout each of them |
| `CacheLock.PunctualSectionsNeverOverlap` | src/infrastructure/cache/services/cache.service.ts:39-66 | Critical sections of instances that finish within the time to live never overlap, whatever others do |
| `CacheLock.OnlyItsInstanceFreesTheLock` | src/infrastructure/cache/services/cache.service.ts:53-58 | In every run a live entry is removed only by a release of its own instance |
| `CacheLock.LateReleaseFreesOwnLaterHold` | src/infrastructure/cache/services/cache.service.ts:53-58 | A late release frees a later hold of the same instance, and another instance enters |
| `MigrationLock.SchemaMigrationLock.FindOneAndUpdate` | src/infrastructure/mongo/services/mongo-schema-migration-lock.service.ts:40-61 | Takes the document exactly when it is unlocked, expired or without expiry |
| `MigrationLock.SchemaMigrationLock.InsertOne` | src/infrastructure/mongo/services/mongo-schema-migration-lock.service.ts:67-82 | Creates the document exactly when there is none |
| `MigrationLock.SchemaMigrationLock.Acquire` | src/infrastructure/mongo/services/mongo-schema-migration-lock.service.ts:33-86 | Undisturbed, it succeeds exactly when there is no document or a free one, and else names the holder |
| `MigrationLock.SchemaMigrationLock.Release` | src/infrastructure/mongo/services/mongo-schema-migration-lock.service.ts:88-107 | Clears the document exactly when it stores the handle's token |
| `MigrationLock.HolderInTimeIsRecorded` | src/infrastructure/mongo/services/mongo-schema-migration-lock.service.ts:33-107 | In every interleaving a holder within its time is the one the document records |
| `MigrationLock.AtMostOneHolderInTime` | src/infrastructure/mongo/services/mongo-schema-migration-lock.service.ts:33-107 | Two holders within their time are the same |
| `MigrationLock.ReleaseTouchesOnlyItsOwn` | src/infrastructure/mongo/services/mongo-schema-migration-lock.service.ts:93-106 | A release changes the document exactly when its own token is still stored, never under a holder in time |
| `MigrationLock.LockChangesHandsWhenFree` | src/infrastructure/mongo/services/mongo-schema-migration-lock.service.ts:40-46 | The lock is given away only when absent, released or expired |
| `MigrationLock.RefusalIff` | src/infrastructure/mongo/services/mongo-schema-migration-lock.service.ts:40-86 | In every run an acquire that comes to its insert is refused if and only if a document is there; a free one then means that its deadline has passed or another acquirer has written since the update |
| `MigrationLock.UndisturbedRefusalIff` | src/infrastructure/mongo/services/mongo-schema-migration-lock.service.ts:40-86 | When no other acquirer writes in between, it is refused exactly when there was a document, and that is free exactly when its deadline has passed meanwhile |
| `MigrationLock.RefusedThoughFree` | src/infrastructure/mongo/services/mongo-schema-migration-lock.service.ts:80-83 | An interleaving in which an acquire is refused although the lock is free |
| `CacheSync.BaseCacheService.HandleIncomingMessage` | src/infrastructure/cache/services/base-cache.service.ts:52-74 | Own and unreadable messages change nothing; any other replaces the cache |
| `CacheSync.BaseCacheService.Reload` | src/infrastructure/cache/services/base-cache.service.ts:76-117 | What a reload leaves in the cache and sends, for each way it can end, the swallowed failure of the broadcast included |
| `CacheSync.ReloadedNodes` | src/infrastructure/cache/services/base-cache.service.ts:76-117 | The protocol's steps, uninterrupted, leave the instance as `Reload` says and a message with the loaded data in every inbox |
| `CacheSync.OnlyOwnLockIsFreed` | src/infrastructure/cache/services/base-cache.service.ts:110-112 | The lock is freed by its expiry or by the end of a reload of the instance that holds it, and by nothing else |
| `CacheSync.DeliverySettles` | src/infrastructure/cache/services/base-cache.service.ts:52-65 | Handling a message never changes what an instance is bound to end up with |
| `CacheSync.CachesAgreeIffNoneAstray` | src/infrastructure/cache/services/base-cache.service.ts:52-133 | In every run, whatever expires or fails: when all is quiet every cache equals the last published data if and only if no instance is astray, that is, neither sent it over an older message left to handle nor assigned itself other data since without publishing |
| `CacheSync.CachesAgreeExactlyWhenClean` | src/infrastructure/cache/services/base-cache.service.ts:52-133 | When what is assigned is published, even if locks expire: when all is quiet every cache equals the last published data if and only if its sender had no older message with other data left |
| `CacheSync.QuietCachesAgree` | src/infrastructure/cache/services/base-cache.service.ts:76-117 | With one holder and inboxes handled before acquiring, all caches hold what the last reload loaded, which is the database unless written since |
| `CacheSync.OlderMessageOverwrites` | src/infrastructure/cache/services/base-cache.service.ts:63-65 | Without the inbox condition an older broadcast overwrites the publisher's own newer data |
| `CacheSync.FailureAfterAssignDiverges` | src/infrastructure/cache/services/base-cache.service.ts:99-103 | A failure between assignment and broadcast, or of the broadcast, leaves the one cache ahead of the others exactly when the database differs from what was published last |
| `InverseRelations.Visit` | src/infrastructure/cache/services/metadata-cache.service.ts:373-448 | One relation adds its inverse to its target table exactly when that is known and lacks the name |
| `InverseRelations.VisitTable` | src/infrastructure/cache/services/metadata-cache.service.ts:372-449 | The loop over a list that grows under it ends, and amounts to visiting the originals |
| `InverseRelations.GenerateInverseRelations` | src/infrastructure/cache/services/metadata-cache.service.ts:370-451 | The nested loops end with the specified schema, which is closed |
| `InverseRelations.GenerationExtends` | src/infrastructure/cache/services/metadata-cache.service.ts:403-448 | Originals are unchanged and come first; each added relation is the inverse of an original that had none |
| `InverseRelations.AddedAreOtherEnds` | src/infrastructure/cache/services/metadata-cache.service.ts:373-448 | Each added relation names a property its table did not have and is, property by property, the other end of an original relation that targets this table: types, tables, flags, foreign key and junction columns |
| `InverseRelations.GenerationKeepsUnique` | src/infrastructure/cache/services/metadata-cache.service.ts:384-390 | Property names stay unique within each table |
| `InverseRelations.GenerationCloses` | src/infrastructure/cache/services/metadata-cache.service.ts:370-451 | Every relation naming an inverse on a known table has one of that name there |
| `InverseRelations.EveryInverseExists` | src/infrastructure/cache/services/metadata-cache.service.ts:373-390 | In particular by name: whatever relation names an inverse, original or added, there is a relation of that name on the table that its target name, or else its target, gives, if that is a table |
| `InverseRelations.SecondRunAddsNothing` | src/infrastructure/cache/services/metadata-cache.service.ts:370-451 | A second run adds nothing |
| `InverseRelations.InverseOfInverse` | src/infrastructure/cache/services/metadata-cache.service.ts:392-443 | Inverting swaps the junction columns and reverses the type, and inverting twice leads back |
| `InverseRelations.ForeignKeysAgree` | src/infrastructure/cache/services/metadata-cache.service.ts:417-429 | When the two ends name the same foreign key column: for many-to-one exactly when it is the derived one |
| `MongoRelations.MoveInverse` | src/infrastructure/mongo/services/mongo.service.ts:297-339 | The pulls and additions give each target the array that the new list asks for |
| `MongoRelations.Cleanup` | src/infrastructure/mongo/services/mongo.service.ts:541-566 | A deletion pulls the record from those it lists, or from all that list it |
| `MongoRelations.ManyToMany.InsertOwner` | src/infrastructure/mongo/services/mongo.service.ts:180-217 | The stored field and the targets' arrays after an insert |
| `MongoRelations.ManyToMany.UpdateOwner` | src/infrastructure/mongo/services/mongo.service.ts:479-497 | The same after an update, also of a document that does not exist |
| `MongoRelations.ManyToMany.DeleteOwner` | src/infrastructure/mongo/services/mongo.service.ts:499-512 | The same after a delete |
| `MongoRelations.ManyToMany.DeleteTarget` | src/infrastructure/mongo/services/mongo.service.ts:499-512 | The owners' fields after a target is deleted |
| `MongoRelations.ManyToMany.InsertTarget` | src/infrastructure/mongo/services/mongo.service.ts:180-217 | A new target has an empty inverse field; the owners it names are updated all the same |
| `MongoRelations.ManyToMany.UpdateTarget` | src/infrastructure/mongo/services/mongo.service.ts:479-497 | A write to the inverse field changes the owners but not the target |
| `MongoRelations.OwnerInsertKeepsLinks` | src/infrastructure/mongo/services/mongo.service.ts:210-210 | Inserting an owner keeps both ends in step |
| `MongoRelations.OwnerUpdateKeepsLinks` | src/infrastructure/mongo/services/mongo.service.ts:494-494 | So does updating one |
| `MongoRelations.OwnerWriteIsDenseIff` | src/infrastructure/mongo/services/mongo.service.ts:297-339 | Such a write leaves no dangling id if and only if all the ids given exist |
| `MongoRelations.OwnerDeleteKeepsLinks` | src/infrastructure/mongo/services/mongo.service.ts:541-566 | Deleting an owner keeps the ends in step, and nobody lists it any more |
| `MongoRelations.TargetDeleteKeepsLinks` | src/infrastructure/mongo/services/mongo.service.ts:541-566 | Nor a deleted target |
| `MongoRelations.LinksStayInStep` | src/infrastructure/mongo/services/mongo.service.ts:180-568 | After any sequence of these writes "t is in a's field if and only if a is in t's" holds for all documents |
| `MongoWrites.OwnerInsertWrites` | src/infrastructure/mongo/services/mongo.service.ts:180-217 | An insert stores the list sent, an empty one if none is; exactly the existing targets on it list the new owner, and every array keeps its other entries in order |
| `MongoWrites.OwnerUpdateWrites` | src/infrastructure/mongo/services/mongo.service.ts:479-497 | An update replaces the list by the one sent and leaves other owners' fields alone; exactly the existing targets on it list the owner afterwards, and every array keeps its other entries; without a list nothing changes |
| `MongoWrites.MissingOwnerUpdateWrites` | src/infrastructure/mongo/services/mongo.service.ts:479-497 | An update of a missing document stores nothing, yet exactly the targets sent list it |
| `MongoWrites.OwnerDeleteWrites` | src/infrastructure/mongo/services/mongo.service.ts:499-568 | A delete removes the owner and its entries from all arrays, and nothing else |
| `MongoWrites.TargetDeleteWrites` | src/infrastructure/mongo/services/mongo.service.ts:499-568 | So does the delete of a target |
| `MongoWrites.TargetInsertWrites` | src/infrastructure/mongo/services/mongo.service.ts:159-217 | An insert from the inverse end stores an empty array; exactly the existing owners sent list the target |
| `MongoWrites.TargetUpdateWrites` | src/infrastructure/mongo/services/mongo.service.ts:159-178 | An update from the inverse end stores nothing there; exactly the existing owners sent list the target afterwards |
| `MongoWrites.RunHoldsLastSent` | src/infrastructure/mongo/services/mongo.service.ts:180-568 | After any sequence of these writes an owner's field is the list last sent for it without the targets deleted since, and exactly the targets on it list the owner |
| `MongoRelations.TargetUpdateKeepsLinksIff` | src/infrastructure/mongo/services/mongo.service.ts:159-178 | Writing from the inverse end keeps the ends in step if and only if it would add and remove no existing owner |
| `MongoRelations.TargetInsertKeepsLinksIff` | src/infrastructure/mongo/services/mongo.service.ts:159-178 | Inserting with an inverse field does so if and only if it names no existing owner |
| `MongoRelations.ManyToOne.MoveReference` | src/infrastructure/mongo/services/mongo.service.ts:265-296 | The old target loses the record and the new one gains it |
| `MongoRelations.ManyToOne.InsertOwner` | src/infrastructure/mongo/services/mongo.service.ts:180-217 | The stored reference and the target's array after an insert, with the reference sent or not |
| `MongoRelations.ManyToOne.UpdateOwner` | src/infrastructure/mongo/services/mongo.service.ts:479-497 | The same after an update |
| `MongoRelations.ManyToOne.MoveOwners` | src/infrastructure/mongo/services/mongo.service.ts:297-339 | Writing the one-to-many end clears the references of the owners it drops and sets those of the owners it adds |
| `MongoRelations.ManyToOne.InsertTarget` | src/infrastructure/mongo/services/mongo.service.ts:180-217 | A new target has an empty array; the owners it names are pointed to it all the same |
| `MongoRelations.ManyToOne.UpdateTarget` | src/infrastructure/mongo/services/mongo.service.ts:479-497 | A write to the array changes the owners but not the target |
| `MongoRelations.ManyToOne.DeleteOwner` | src/infrastructure/mongo/services/mongo.service.ts:531-540 | Deleting the owner pulls nothing from any array |
| `MongoRelations.ManyToOne.DeleteTarget` | src/infrastructure/mongo/services/mongo.service.ts:541-559 | The owners that refer to a deleted target are cleared |
| `MongoRelations.ReferenceWritesKeepMatch` | src/infrastructure/mongo/services/mongo.service.ts:265-296 | Insert and update of a many-to-one owner keep "a refers to t if and only if t lists a" |
| `MongoRelations.StaleEntryIff` | src/infrastructure/mongo/services/mongo.service.ts:483-494 | An update leaves an entry for a missing document exactly when there is no such document and its new target exists |
| `MongoRelations.ReferenceDeleteLeavesEntry` | src/infrastructure/mongo/services/mongo.service.ts:531-540 | Deleting an owner leaves a stale entry if and only if it refers to an existing target |
| `MongoRelations.ReferredDeleteKeepsMatch` | src/infrastructure/mongo/services/mongo.service.ts:541-559 | Deleting a target clears exactly the references to it |
| `MongoRelations.ReferredUpdateKeepsMatchIff` | src/infrastructure/mongo/services/mongo.service.ts:159-178 | Writing from the one-to-many end keeps the ends matched if and only if it would add and remove no existing owner or, for a target that does not exist, takes none from an existing one |
| `MongoRelations.ReferredInsertKeepsMatchIff` | src/infrastructure/mongo/services/mongo.service.ts:180-217 | Inserting a target with its array keeps them matched if and only if it names no existing owner |
| `MongoRelations.WriteKeepsMatchIff` | src/infrastructure/mongo/services/mongo.service.ts:180-568 | So of all writes exactly those keep the ends matched that fit: all from the many-to-one end, all deletes, and these two under their conditions |
| `MongoRelations.ReferencesStayMatched` | src/infrastructure/mongo/services/mongo.service.ts:180-568 | After any sequence of inserts, updates and deletes of owners and targets that fit, "a refers to t if and only if t lists a" holds for all documents |
| `MongoRelations.NoEntryGoesStale` | src/infrastructure/mongo/services/mongo.service.ts:180-568 | And no array lists a missing document as long as none of the two writes that leave one occurs |
| `MongoWrites.RefInsertWrites` | src/infrastructure/mongo/services/mongo.service.ts:180-217 | An insert stores the reference sent, none if none is, and exactly the target it names lists the new owner |
| `MongoWrites.RefUpdateWrites` | src/infrastructure/mongo/services/mongo.service.ts:265-296 | An update stores the reference sent; afterwards exactly the target it names lists the owner, and every array keeps its other entries |
| `MongoWrites.RefDeletesWrite` | src/infrastructure/mongo/services/mongo.service.ts:531-559 | Deleting an owner removes its document alone; deleting a target clears exactly the references to it as well |
| `MongoWrites.ReferredInsertWrites` | src/infrastructure/mongo/services/mongo.service.ts:159-217 | An insert from the one-to-many end stores an empty array and points the owners sent to the target |
| `MongoWrites.ReferredUpdateWrites` | src/infrastructure/mongo/services/mongo.service.ts:297-339 | An update from there stores no array; afterwards the owners sent refer to the target, those that did and were not sent to none, and all others as before |
| `Cascade.HandleOneToMany` | src/infrastructure/knex/utils/cascade-handler.ts:182-219 | Clearing, then linking or inserting item by item, gives the replaced table |
| `Cascade.LinkOwners` | src/infrastructure/knex/utils/cascade-handler.ts:243-264 | The loop links every named row and inserts and links the others, and collects their ids |
| `Cascade.HandleInverseOneToOne` | src/infrastructure/knex/utils/cascade-handler.ts:231-274 | Linking first and clearing afterwards gives the same replaced table; an empty value changes nothing, a list of nulls clears |
| `Cascade.HandleManyToMany` | src/infrastructure/knex/utils/cascade-handler.ts:150-180 | The record's junction rows are replaced by one for each id of the payload, in order; the target table gains exactly the new rows, unlinked |
| `Cascade.LinkedRowsAreThoseSupplied` | src/infrastructure/knex/utils/cascade-handler.ts:191-219 | The rows linked to the record are exactly the existing ones named and the fresh ones, which hold the new data |
| `CascadePayload.OneToManyMeans` | src/infrastructure/knex/utils/cascade-handler.ts:182-219 | After a one-to-many payload exactly the existing rows are linked whose id other than zero an object of the payload gives, and the new rows are those that all its other items describe, `null` and bare numbers with no columns |
| `CascadePayload.ChildIdsInOrder` | src/infrastructure/knex/utils/cascade-handler.ts:196-196 | The ids that are kept are those of the objects with an id other than zero, in order |
| `CascadePayload.ChildrenInOrder` | src/infrastructure/knex/utils/cascade-handler.ts:206-217 | The new children are the other items, in order |
| `CascadePayload.ItemsWorkedOn` | src/infrastructure/knex/utils/cascade-handler.ts:231-231 | For an inverse one-to-one relation the list is the one item or the items, without nulls |
| `CascadePayload.OwnerIdsAre` | src/infrastructure/knex/utils/cascade-handler.ts:243-256 | There a bare number or an object with an id names a row, zero included |
| `CascadePayload.OwnersInOrder` | src/infrastructure/knex/utils/cascade-handler.ts:251-254 | And the objects without an id are new rows, in order |
| `CascadePayload.TargetsInOrder` | src/infrastructure/knex/utils/cascade-handler.ts:150-167 | For a many-to-many relation the junction targets are the given ids and the numbers of the new rows, item by item |
| `Cascade.OtherRowsAreUnchanged` | src/infrastructure/knex/utils/cascade-handler.ts:198-204 | Rows neither named nor linked are unchanged; linked ones not named lose only their link |
| `Cascade.RepeatChangesNothing` | src/infrastructure/knex/utils/cascade-handler.ts:182-219 | Repeating a payload that only names rows changes nothing |
| `Cascade.JunctionHoldsThePayload` | src/infrastructure/knex/utils/cascade-handler.ts:169-180 | The record's junction rows are one per id, in order; those of other records are unchanged |
| `Cascade.JunctionRepeatChangesNothing` | src/infrastructure/knex/utils/cascade-handler.ts:169-180 | Repeating it leaves the junction table as it is |
| `AutoSlug.CandidatesAreDistinct` | src/shared/utils/auto-slug.helper.ts:47-50 | Numbered candidates differ from each other and from the base slug |
| `AutoSlug.CandidateReadsBack` | src/shared/utils/auto-slug.helper.ts:47-50 | A candidate is the base slug, a hyphen, and digits that stand for its number |
| `AutoSlug.TakenBoundsCounter` | src/shared/utils/auto-slug.helper.ts:48-51 | Pigeonhole: the counter never exceeds the number of taken slugs |
| `AutoSlug.GenerateUniqueSlug` | src/shared/utils/auto-slug.helper.ts:42-52 | The loop ends within that bound and returns the base slug if free, else the first free candidate |

## Left out

- FilterText.ConditionReadsAs: requires a name without the identifier quote and printable values; `FilterExact.ClauseReadsAsIff` shows that this is exact, and `FilterEscapes` what other filters can do.
- FilterOperators.SearchMeans: requires a text without wildcards; `SqlLike.SearchIsExactIff` shows that only then a search finds exactly its text.
- FilterClause.ClauseMeansEffective: says nothing of filters that are not scanned as their own names and values; their clause may be another condition, or none.
- Relation filters, the join building around the clause, and `build-where-clause.ts`: the compiler is modelled for filters on the table's own fields.
- Functions as filter values; an object beside a field is always read as operators, an object elsewhere is the text that `String` makes of it.
- Backslash escapes, in literals on MySQL and in patterns on both dialects: SQL-92 has none, so values with a backslash are not covered there.
- Comparison of values, reading a text as a uuid or a value as characters, folding, and which characters `ILIKE` takes for the same are parameters of the meaning; `toLowerCase` is a parameter that leaves quotes as they are. NaN and infinities are not printable numbers.
- Strings are sequences of `char` where the source has UTF-16 units; the scanners only compare single ASCII characters.
- `decodeURIComponent` is a total function parameter: a malformed segment, on which it throws, is not modelled.
- Debug output, `getStats` and the `path` label of trie nodes.
- The pool's own limits and waiting queue, script contexts and their merging, stream contents and error messages.
- Lost messages between child and host: channels are reliable and FIFO while the child lives.
- The rate limiter without Redis, and errors of Redis other than the failing script; windows are whole milliseconds and positive, the clock does not go back and starts at zero or later. Which numbers `math.random` draws is left open.
- RateLimit.AtMostLimitPerWindow: requires limits from 1 up and distinct members; otherwise `NonPositiveLimitAdmitsAll` and `AdmissionsAreLoggedIff` hold instead.
- Redis and MongoDB as such: each command is atomic, and all instances share one clock. Other commands of the cache service (`set`, `get`, `clearAll`) are not modelled.
- CacheSync.CachesAgreeExactlyWhenClean: requires that an assigned cache is published; `CachesAgreeIffNoneAstray` is exact without that.
- The load of a reload is a snapshot taken at one instant, and a payload is what the cache was; `beforeLoad`, events and logging are left out.
- InverseRelations.GenerateInverseRelations: table names are distinct and the map holds exactly the listed tables, as the loader builds them; a table without a relation list is one with an empty list.
- One-to-one relations and self-relations in `mongo.service.ts`, nested documents, timestamps, defaults and validation errors; relation fields are not columns, so that no column rule strips them.
- Nested children, the many-to-one and owner-side one-to-one branches, missing metadata, and constraint violations in the cascade handler. A bare number stands for every scalar id; its columns, when it is spread into a new child, are none.
- `autoSlug` itself: Unicode normalisation and regular expressions; the slug loop starts from the base slug.
- Drivers, transactions, HTTP, authentication, schema migration and bootstrap.
