# A verified model of gql-firewall

gql-firewall is an HTTP proxy that analyses GraphQL requests, checks them against a schema and a Rego
policy, and forwards or blocks them. This project models its analyser, schema validator, rate limiter,
decision cache, policy and proxy logic in Dafny 4.11 and proves what they guarantee together.
`dafny verify dfyconfig.toml` checks everything.

| file | contents |
|---|---|
| `Text.dfy`, `Ast.dfy` | splitting and joining dotted paths; the parsed query document |
| `Traversal.dfy` | the depth-first walk over selections as a trace of visits, with its termination measure |
| `Exactness.dfy` | visited fragments are the reachable ones; every total and maximum over the walk has a closed form |
| `Counters.dfy` | the walk as imperative code over mutable counters, and the meaning of each counter |
| `Inlining.dfy` | the walk against full inlining of fragments: subsequence, conservation of paths and depth, exact coincidence |
| `Analyzer.dfy` | the analysis of a whole document; how depth, field count, paths and batch size bound each other |
| `Measures.dfy` | each reported measure said of the selections of the document: what is counted, and from where |
| `Schema.dfy` | validation of flat paths equals a structural check of the selection tree |
| `Requests.dfy` | what a request really asks for: real names, every spread expanded, type conditions; when that is what is reported |
| `RealFields.dfy` | when schema validation judges the fields a request really asks for, under every schema |
| `Explosion.dfy` | acyclic documents that ask for 2^n fields while one is reported |
| `RateLimit.dfy` | the token-bucket limiter with eviction, over all runs |
| `CacheKey.dfy` | FNV-1a, the text of a cache key, when keys agree |
| `DecisionCache.dfy` | concurrent evaluations as interleaved steps: provenance, staleness, engine failures, transparency |
| `Policy.dfy` | the deny rules over JSON values with undefined fields; monotonicity |
| `Enforcement.dfy` | the policy composed with the analyser, said of summaries instead of input documents |
| `RealPolicy.dfy` | when the rules on field paths judge the fields a request really asks for |
| `Queries.dfy` | the summaries that documents can yield, and small queries with all their measures |
| `CachedPolicy.dfy` | the policy behind the cache: when caching changes a decision |
| `KeyRules.dfy` | which of the rules a cached decision can be trusted for |
| `Proxy.dfy` | blocked responses as JSON, tenant extraction, the reply to every request |
| `EndToEnd.dfy` | the proxy wired to analyser, schema, policy and cache: what every forwarded query satisfies, engine failures included; batches and tenants |

## What the proofs show about the code

Most promises hold as stated. Where one does not, the model keeps the code and states the exact condition:

- A fragment is expanded once per operation, so a use after the first adds nothing to depth or paths
  (`Inlining.DepthDependsOnOrder`). The reported paths are those of the inlined operation exactly when no
  fragment that contributes a field is spread twice (`Inlining.WalkIsInliningExactly`); the number of paths
  left out is exact (`Inlining.WalkConservesPaths`). The inlined depth is the greater of the reported depth and
  the depth behind the skipped spreads (`Inlining.WalkConservesDepth`), so the reported depth is right exactly
  when no skipped spread reaches deeper (`Inlining.DepthIsInlinedExactly`, `Requests.OperationDepth`). There is
  no bound on the difference: acyclic documents with 2n + 2 spreads ask for 2^n fields while at most one is
  reported (`Explosion.ExponentialRequest`).
- README.md of the repository promises to block introspection and sensitive fields. The rules on field paths see
  response keys, each fragment expanded once, so both pass under an alias (`EndToEnd.AliasedFieldForwarded`), and
  a blocked root field that is off the allowlist passes behind a deeper spread of the same fragment
  (`EndToEnd.RepeatedFieldForwarded`). These rules judge the fields that are really asked for, under all settings,
  exactly when the reported paths are the real ones (`RealPolicy.JudgesRealPathsExactly`): for instance without
  aliases, cycles and field-bearing fragments spread twice (`RealPolicy.PlainPathsJudged`).
- The limiter is an optimal token bucket in every run exactly when a burst refills within the five minutes
  after which an idle bucket is evicted (`RateLimit.OptimalExactlyWhenRefilling`).
- The cache key holds the operation type, the depth, the field count and a hash of the paths run together. It
  misses the tenant, the operation name, directives, argument depth, list and spread counts, batch size and
  query hash, and the boundaries between paths (`CacheKey.KeyIgnoresBoundaries`). Hence on analysed queries caching
  changes no decision of the policy exactly when it is off, in audit-only mode, or when not even an anonymous
  query of one selection, `{ ...F }` or `{ k }`, gets through (`CachedPolicy.TransparentExactly`). Otherwise
  something is allowed, and every allowed document has a twin that is denied alone and passes behind it
  (`CachedPolicy.EveryAllowedDocumentHasDeniedTwin`); a blocked root field passes behind a query whose names run
  together to the same text (`CachedPolicy.BlockedFieldForwarded`). Of the 25 rules a hit can be trusted for
  exactly ten (`KeyRules.DecidedByKeyExactly`): depth, field count, cost, the two lists of operation types, and
  five that no analysed query meets. For these it can be in every run (`KeyRules.KeyRulesSurviveCaching`).
- README.md of the repository says that the operation-name allowlist blocks anonymous operations. The policy
  looks for an empty name, but an empty name is omitted from the policy input, so it blocks exactly the named
  operations that are not listed (`Enforcement.NameAllowlistBlocksExactly`). Requiring persisted queries blocks
  exactly queries without a hash (`Enforcement.PersistedRuleBlocksExactly`), and every analysed query has one,
  so it blocks none of them (`Enforcement.PersistedRuleBlocksNothingAnalysed`).
- README.md of the repository says that a burst of zero blocks the first request. The constructor replaces it
  by 200 (`RateLimit.WithDefaults`), and the first request of every key is accepted under every configuration
  (`RateLimit.FirstCallAccepted`).
- Validation looks up response keys, each fragment expanded once, from the root type of the first operation, and
  reads no type condition. So an aliased field is judged by its alias (`RealFields.AliasMisjudged`), a mutation
  after a query by the query type (`RealFields.LaterOperationMisjudged`), a field that is spread again elsewhere
  not at all (`RealFields.RepeatedSpreadMisjudged`), and a field beneath a type condition by the type around it
  (`RealFields.ConditionMisjudged`). Validation is right under every schema exactly when the operations of the
  first one's type ask for the reported paths, none beneath a type condition, and the others ask for no field
  (`RealFields.JudgesRealFieldsExactly`). Under a schema in which type conditions move to no other type it is right
  for every document that reports the paths it asks for and has operations of one type
  (`RealFields.JudgedWhenTypesKept`, `RealFields.PlainIsJudged`).
- When the policy engine fails, the evaluator denies with a safety message if it fails closed and lets the query
  through otherwise (`DecisionCache.EngineFailureExact`). Failing closed, nothing is forwarded that the engine did
  not answer as allowed, however often it fails: with caching off (`EndToEnd.FailClosedForwardsAnswered`) for the
  query itself, with caching on for a query with the same key (`EndToEnd.FailClosedDespiteCache`).
- Only paths that end in `/graphql`, in any case, are filtered (`Proxy.LastSegmentDecides`): with a trailing slash
  a request passes through (`Proxy.TrailingSlashUnfiltered`).
- Items of a batch are evaluated without the tenant of the API key; only single requests get one. With caching
  off, a batch evades a tenant exactly when the query passes the schema and all global rules and violates a
  rule of the tenant (`EndToEnd.BatchEvadesTenantExactly`), and such queries exist (`EndToEnd.BatchEvadesTenant`).

## Model

| member | source | states |
|---|---|---|
| `Traversal.EnterDecreases` | internal/parser/parse.go:133-208 | the lexicographic termination measure: each nested call shrinks the unvisited defined fragments, or keeps them and has fewer nodes left |
| `Traversal.Walk` | internal/parser/parse.go:133-208 | the walk ends on every document, cyclic and undefined fragments included, and never forgets a visited name |
| `Ast.FirstFragmentFound` | internal/parser/parse.go:202 | of several fragments of a name the first is taken, and none exactly when there is none |
| `Exactness.VisitedIsReachable` | internal/parser/parse.go:76-79 | after an operation, a name is visited if and only if a chain of spreads leads to it |
| `Exactness.WalkMissesNothing` | internal/parser/parse.go:189-206 | the visited names hold every spread of the selections and of every fragment added |
| `Exactness.WalkStaysWithin` | internal/parser/parse.go:189-206 | the visited names stay inside every set closed under spreads |
| `Exactness.WalkNodes` | internal/parser/parse.go:133-208 | for every weighing of nodes, a walk counts its own nodes plus those of the fragments it adds, each once |
| `Exactness.WalkTotals` | internal/parser/parse.go:133-208 | every sum over the walk equals the sum over the operation and its reachable fragments |
| `Exactness.WalkPeaks` | internal/parser/parse.go:146-152 | every maximum over the walk equals the maximum over the same nodes |
| `Exactness.ReorderingIsSameUpToOrder` | internal/parser/parse.go:133-208 | permuting selections at any level of the operation and of the fragments keeps the bag of nodes of each |
| `Exactness.OrderIndependence` | internal/parser/parse.go:133-208 | for documents with equal bags of nodes, reordered ones among them, visited names, sums and maxima are equal |
| `Counters.MeasureValueDepth` | internal/parser/parse.go:213-235 | returns the start depth plus the height of the value |
| `Counters.LongestDescent` | internal/parser/parse.go:210-235 | the height of a value is the length of its longest chain of nested present values, defaults included |
| `Counters.QueryInfo.CountField` | internal/parser/parse.go:136-168 | the effect of a field on all counters |
| `Counters.QueryInfo.CountInline` | internal/parser/parse.go:174-183 | the effect of an inline fragment on all counters |
| `Counters.QueryInfo.CountSpread` | internal/parser/parse.go:189-193 | the effect of a spread on all counters |
| `Counters.WalkSelections` | internal/parser/parse.go:133-208 | the imperative walk leaves exactly the visited names and the counters of its trace |
| `Counters.WalkSelection` | internal/parser/parse.go:135-206 | one turn of the walk's loop leaves the visited names and counters of that selection's part of the trace |
| `Counters.CountAllCloses` | internal/parser/parse.go:133-208 | counters are sums and maxima over visited nodes; paths and depth are those of the visited fields |
| `Counters.CountersExact` | internal/parser/parse.go:76-79 | each counter is the operation's own count plus that of every reachable fragment once; argument depth is the maximum over the same nodes |
| `Counters.CountersIgnoreOrder` | internal/parser/parse.go:133-208 | documents with equal bags of nodes agree in every counter but depth and paths |
| `Counters.WorkBoundedByDocument` | internal/parser/parse.go:196-205 | fields plus fragment uses never exceed the nodes written in the operation and all fragments |
| `Inlining.WalkWithinInlining` | internal/parser/parse.go:133-208 | the reported paths are an order-preserving subsequence of the inlined ones, for every document |
| `Inlining.DepthAtMostInlined` | internal/parser/parse.go:165-168 | reported depth is at most the depth of the inlined operation |
| `Inlining.InlineIsFull` | internal/parser/parse.go:195-205 | on acyclic documents the inlining used for comparison expands every spread completely |
| `Inlining.WalkConservesPaths` | internal/parser/parse.go:196-205 | inlined paths = reported paths + paths behind the skipped spreads |
| `Inlining.FirstUseExpands` | internal/parser/parse.go:196-200 | of the spreads of a fragment, the first is expanded and all others are skipped |
| `Inlining.WalkIsInliningExactly` | internal/parser/parse.go:133-208 | reported and inlined paths coincide if and only if no field-bearing reachable fragment is spread more than once |
| `Inlining.WalkConservesDepth` | internal/parser/parse.go:165-168 | on acyclic documents inlined depth = the greater of the reported depth and the depth behind the skipped spreads |
| `Inlining.DepthIsInlinedExactly` | internal/parser/parse.go:165-168 | the reported depth is the inlined depth if and only if no skipped spread with a non-empty body reaches deeper |
| `Inlining.DepthDependsOnOrder` | internal/parser/parse.go:196-205 | a family where it fails and where it holds: the same selections in two orders have depth 2 and 3, for all names |
| `Analyzer.AnalyzeOperation` | internal/parser/parse.go:48-86 | the counters of one operation with the directives of all fragment definitions added, and whether a variable has a default |
| `Analyzer.AnalyzeOperations` | internal/parser/parse.go:40-128 | the summary has the worst measure of each kind, all paths in order, and the first operation's name and type |
| `Analyzer.ParseGraphQL` | internal/parser/parse.go:11-131 | succeeds exactly on a parsed document with operations, all named when several, and then returns its summary; each failure has its own message |
| `Analyzer.WorstIsMaximum` | internal/parser/parse.go:96-123 | each aggregated measure bounds every operation and is attained by one |
| `Measures.SummaryFacts` | internal/parser/parse.go:40-94 | the type is "mutation" exactly when the first operation is a mutation, "subscription" exactly when it is a subscription and "query" otherwise; name, hash, batch size, fragment count and defaults likewise said of the document |
| `Measures.SummaryIsGreatest` | internal/parser/parse.go:96-123 | each measure in the summary is the greatest of the operations: no operation has more and one has as much |
| `Measures.FieldsExact` | internal/parser/parse.go:136-141 | fields counted = the fields of the operation and of each fragment it reaches, once |
| `Measures.ListsExact` | internal/parser/parse.go:154-157 | lists counted = those of these fields whose key is k + "s" for some non-empty k |
| `Measures.DirectivesExact` | internal/parser/parse.go:143-193 | directives counted = those on fields, inline fragments and spreads of the operation and of each fragment it reaches, once |
| `Measures.DefinitionsAddUp` | internal/parser/parse.go:81-86 | the directives of fragment definitions add up, one definition at a time |
| `Measures.SpreadsExact` | internal/parser/parse.go:174-193 | spreads counted = inline fragments and spreads, those that are not expanded included |
| `Measures.InlineTypesExact` | internal/parser/parse.go:180-183 | inline types counted = inline fragments with a type condition |
| `Measures.ArgumentDepthExact` | internal/parser/parse.go:146-152 | argument depth is one more than the longest descent into any argument of these fields, and zero without arguments |
| `Analyzer.AllPathsParentsFirst` | internal/parser/parse.go:159-172 | the path list is prefix-closed, parents before children |
| `Analyzer.MeasuresFit` | internal/parser/parse.go:96-128 | depth is the longest path, and depth <= field count <= path count <= batch size * field count |
| `Schema.SplitPath` | internal/parser/parser.go:148-160 | returns the non-empty pieces between dots |
| `Text.SplitRender` | internal/parser/parse.go:159-162 | splitting a joined path gives back its names |
| `Schema.FirstFieldFound` | internal/parser/parser.go:105-108 | of several fields of a name the first is taken, and none exactly when there is none |
| `Schema.ResolvesThroughWrappers` | internal/parser/parser.go:130-141 | a named type is found through any number of list and non-null wrappers |
| `Schema.ResolvesOutermost` | internal/parser/parser.go:130-141 | the outermost name of a type reference counts, and there is none exactly when no layer has one |
| `RealFields.JudgesRealFieldsExactly` | internal/parser/parser.go:81-127 | acceptance agrees with the check of every field by real name, in every place it is spread, on the type of its condition and from its operation's root, under every schema, if and only if the reported paths are those asked for by operations of the first type, none beneath a type condition, and others ask for nothing |
| `RealFields.AliasMisjudged` | internal/parser/parser.go:105-108 | with a root field `shown` and no `hidden`, `{ shown: hidden }` is accepted and `{ hidden: shown }` rejected, for all such schemas and names |
| `RealFields.LaterOperationMisjudged` | internal/parser/parser.go:91-99 | a mutation after a query is judged by the query type instead of the mutation type |
| `RealFields.RepeatedSpreadMisjudged` | internal/parser/parse.go:197-200 | `{ x { ...F } ...F }` is accepted when only the type of x has the field of F, for all such schemas and names |
| `RealFields.ConditionMisjudged` | internal/parser/parse.go:174-187 | `{ x { ... on T { y } } }` is accepted if and only if the type of x has y, whatever T declares |
| `RealFields.JudgedWhenTypesKept` | internal/parser/parser.go:81-127 | under a schema whose types the conditions keep, validation is right for every document of one operation type that reports the paths it asks for |
| `RealFields.PlainIsJudged` | internal/parser/parser.go:81-127 | in particular without aliases, cycles and field-bearing fragments spread twice |
| `RealFields.ExistMeansResolve` | internal/parser/parser.go:104-124 | the top-down check of real fields is the resolution of every requested place from its last type condition |
| `RealFields.TreeAccepts` | internal/parser/parser.go:104-124 | for every prefix-closed path list there is a schema that accepts exactly the paths in it |
| `RealPolicy.JudgesRealPathsExactly` | opa-policies/graphql.rego:55-154 | blocklists, allowlist and introspection rules decide as on the real paths, under all settings, if and only if reported and real paths are the same set |
| `RealPolicy.PlainPathsJudged` | opa-policies/graphql.rego:55-154 | in particular without aliases, cycles and field-bearing fragments spread twice |
| `RealPolicy.AliasHidesField` | internal/parser/parse.go:137-140 | a blocked or introspection field passes under an alias, for all names |
| `RealPolicy.RepeatedSpreadHidesField` | internal/parser/parse.go:197-200 | a blocked root field off the allowlist passes behind a deeper spread of its fragment, for all names |
| `Requests.RequestedShape` | internal/parser/parse.go:133-208 | real names change no shape: requested paths are as long as the inlined paths of response keys, in order |
| `Requests.PlainReportsRealPaths` | internal/parser/parse.go:133-208 | a document without aliases, cycles and repeated field-bearing fragments reports exactly what it asks for |
| `Requests.OperationDepth` | internal/parser/parse.go:165-168 | the depth really asked for is the reported one if and only if no skipped spread reaches deeper |
| `Explosion.ExponentialRequest` | internal/parser/parse.go:196-205 | for every n an acyclic document with at most 2n + 2 spreads asks for 2^n fields, reports at most one, and passes all limits of at least one on depth, field count and cost |
| `Schema.ValidatePath` | internal/parser/parser.go:104-124 | the verdict, with its reason, on one path from a root type |
| `Schema.Validate` | internal/parser/parser.go:83-127 | the verdict on the first path that fails; a missing root type accepts all |
| `Schema.FlatIsStructural` | internal/parser/parser.go:83-127 | first failure over the flat paths of a walk = first failure of the top-down check of each field against its parent type |
| `Schema.ValidationIsStructural` | internal/parser/parser.go:83-127 | for every well-named document, validating its summary gives the verdict and reason of the structural check of all its operations |
| `DecisionCache.RejectedWithReason` | internal/parser/parser.go:83-127 | a query whose first path to leave the schema does so at a given segment is denied with the message for it, which names segment and type, and the engine is not asked |
| `RealFields.RootsExactly` | internal/parser/parser.go:90-102 | a document is validated from the subscription root exactly when its first operation is a subscription, from the mutation root when it is a mutation, and else from the query root |
| `RateLimit.WithDefaults` | internal/ratelimit/ratelimit.go:31-36 | rate and burst become positive: usable values are kept, others become 100 and 200 |
| `RateLimit.FirstCallAccepted` | internal/ratelimit/ratelimit.go:30-73 | under every configuration, burst zero included, the first call of a key is accepted whatever came before |
| `RateLimit.Limiter.constructor` | internal/ratelimit/ratelimit.go:30-44 | an empty limiter with the defaulted configuration |
| `RateLimit.Limiter.Allow` | internal/ratelimit/ratelimit.go:47-73 | accepts if and only if the refilled, capped level is at least one, takes one token then, and touches no other key |
| `RateLimit.Limiter.Cleanup` | internal/ratelimit/ratelimit.go:81-88 | removes exactly the buckets last used more than 300 seconds ago and changes no other |
| `RateLimit.CallBounded` | internal/ratelimit/ratelimit.go:60-72 | a call keeps the invariant that tokens left bound what every window accepted |
| `RateLimit.CallTight` | internal/ratelimit/ratelimit.go:60-72 | a call keeps tokens equal to what some window still allows |
| `RateLimit.SweepBounded` | internal/ratelimit/ratelimit.go:82-87 | time and eviction keep the invariant when a burst refills while idle |
| `RateLimit.AnswerIsOptimal` | internal/ratelimit/ratelimit.go:47-88 | when a burst refills while idle, in every run a call is accepted if and only if it keeps every window ending now within burst + rate * length |
| `RateLimit.EveryWindowBounded` | internal/ratelimit/ratelimit.go:30-88 | for every configuration, run, key and window: accepted <= burst + max(rate, burst/300) * length |
| `RateLimit.InertEventsAreUnobservable` | internal/ratelimit/ratelimit.go:51-87 | deleting sweeps, denied calls and calls of other keys changes neither acceptances nor any later answer |
| `RateLimit.EvictionAcceptsTooMuch` | internal/ratelimit/ratelimit.go:82-87 | for every other configuration, a run whose eviction accepts more than the bound |
| `RateLimit.OptimalExactlyWhenRefilling` | internal/ratelimit/ratelimit.go:47-88 | optimality in every run, each window within burst + rate * length and nothing refused that fits, holds if and only if burst <= 300 * rate |
| `CacheKey.SimpleHash` | cmd/server/main.go:514-523 | the hash of a path list is the FNV-1a hash of the concatenated bytes |
| `CacheKey.KnownHashes` | cmd/server/main.go:514-523 | the hash has the published FNV-1a values for the empty text, "a" and "foobar" |
| `CacheKey.HashTextExact` | cmd/server/main.go:508-511 | the hash in a key reads back as its value in hexadecimal, padded to eight digits and no further |
| `CacheKey.MixInjective` | cmd/server/main.go:518-519 | a hash step is injective in the state and in the byte |
| `CacheKey.OneByteApartKeys` | cmd/server/main.go:508-523 | path lists whose concatenations differ in exactly one byte have different keys |
| `CacheKey.KeysAgreeExactly` | cmd/server/main.go:508-511 | key texts are equal if and only if operation type, depth, field count and hash are |
| `CacheKey.KeyIgnoresBoundaries` | cmd/server/main.go:508-523 | any two summaries of equal type, depth and field count whose paths run together to the same text share a key, whatever else differs |
| `DecisionCache.CompositeEvaluator.Evaluate` | cmd/server/main.go:436-505 | decision and cache of an undisturbed call: schema rejection, hit, evaluation with storing; when the engine fails, a denial with its reason if failing closed, else an allowance, and the cache is unchanged |
| `DecisionCache.SequentialIsARun` | cmd/server/main.go:436-505 | an undisturbed call from any reachable state is a run of the step machine with the same decision and cache |
| `DecisionCache.RunProvenance` | cmd/server/main.go:460-502 | in every interleaving, entries come from writes and writes from finished successful evaluations with that key |
| `DecisionCache.HitProvenance` | cmd/server/main.go:462-470 | every hit returns what a successful evaluation of a query with the same key wrote less than one TTL ago |
| `DecisionCache.HitExactly` | cmd/server/main.go:460-476 | in every run a lookup hits if and only if caching is on and the key was last written less than one TTL ago, and then returns that decision |
| `DecisionCache.EvaluationExact` | cmd/server/main.go:475-493 | in every run an evaluated call gets what the engine answered for it, but in audit-only mode an allowance for a denial |
| `DecisionCache.SequentialAnswer` | cmd/server/main.go:475-502 | the same of an undisturbed call, which leaves what it got in the cache for one TTL |
| `DecisionCache.EngineFailureExact` | cmd/server/main.go:475-482 | in every run a call on which the engine failed is allowed if and only if the evaluator does not fail closed, and denied with the safety message otherwise |
| `DecisionCache.SequentialFailure` | cmd/server/main.go:475-482 | the same of an undisturbed call, with the cache unchanged |
| `DecisionCache.AllowedWasAnswered` | cmd/server/main.go:436-505 | when failing closed and enforcing, every allowed call of every run, however often the engine failed, was answered as allowed by the engine, for itself or for a query with the same key |
| `DecisionCache.ExpiryNeverDecreases` | cmd/server/main.go:495-502 | no step drops an entry or moves its expiry back |
| `DecisionCache.AuditCachesAllowances` | cmd/server/main.go:485-502 | in audit-only mode every cached decision is an allowance |
| `DecisionCache.CountersExactInEveryRun` | cmd/server/main.go:464-484 | each call past the schema check increments exactly one of cache_hit, error and evaluated, and the right one |
| `DecisionCache.NoStaleDecisions` | cmd/server/main.go:443-502 | one TTL after a moment with no older call in flight, no decision from an older store is returned |
| `DecisionCache.DecisionsAreShared` | cmd/server/main.go:446-504 | in every run each finished call has its uncached decision, or that of an accepted query with the same key |
| `DecisionCache.CachingRight` | cmd/server/main.go:446-504 | every finished call has its uncached decision, always with caching off, and with caching on for an engine that treats queries with one key alike |
| `DecisionCache.TransparentExactlyWhenKeyDecides` | cmd/server/main.go:446-504 | for any engine, caching changes no decision in any run if and only if queries that share a key get one decision |
| `Policy.RulesMonotone` | opa-policies/graphql.rego:21-302 | every deny rule that fires still fires on a more demanding input |
| `Policy.DenialIsMonotone` | opa-policies/graphql.rego:10-12 | larger measures, more paths, lower limits, longer blocklists or an added tenant configuration never turn a denial into an allowance |
| `Enforcement.AllowedExactly` | opa-policies/graphql.rego:10-302 | with params of the documented types, a request is allowed if and only if its summary violates no limit and no list, omitted zero measures and the tenant's rules included |
| `Enforcement.UntypedDepthLimits` | opa-policies/graphql.rego:84-99 | limits on depth, field count and cost that are not numbers: null and booleans block, strings, arrays and objects do not, absent ones never do |
| `Enforcement.UntypedOptionalLimits` | opa-policies/graphql.rego:108-124 | the same of directives and batch size, which false switches off |
| `Enforcement.UntypedFieldLimits` | opa-policies/graphql.rego:199-228 | the same of argument depth, lists and spreads |
| `Enforcement.BlocklistsOfAnyType` | opa-policies/graphql.rego:132-191 | lists of any JSON type: the items of an array or the values of an object are listed, and a list counts as set when it is a non-empty string, array or object |
| `Enforcement.AllowlistOfAnyType` | opa-policies/graphql.rego:140-155 | an allowlist of any JSON type passes exactly the paths that start with something it lists, when it counts as set |
| `Enforcement.UntypedTenantLimits` | opa-policies/graphql.rego:275-287 | limits of a tenant that are not numbers |
| `Enforcement.TenantBlocklistsOfAnyType` | opa-policies/graphql.rego:289-302 | blocklists of a tenant of any JSON type |
| `Enforcement.MissingMeasureDenied` | opa-policies/graphql.rego:21-35 | an input without depth, field count or field paths is denied under all settings, and no other fires the rule |
| `Enforcement.OperationTypeDenied` | opa-policies/graphql.rego:166-176 | a document whose first operation is a subscription is denied when "subscription" is blocked, for all or for its tenant, or not among those allowed; likewise mutations and queries |
| `Enforcement.AllowedCostsWithinBudget` | opa-policies/graphql.rego:236-240 | under a numeric budget every allowed request has depth squared within it, and depth times paths within batch size times the cost |
| `Enforcement.AllowlistDecidedAtRoots` | opa-policies/graphql.rego:140-155 | on analysed queries the allowlist rule fires if and only if the response key of some reported root field is not allowed |
| `Enforcement.IntrospectionCaughtAnywhere` | opa-policies/graphql.rego:55-75 | the introspection rules fire if and only if a name of the set occurs anywhere in a reported path |
| `Enforcement.IntrospectionDenied` | opa-policies/graphql.rego:44-75 | with the twelve names written out: a document that reports one of them at any level is denied under all settings and to every tenant, and no other name makes the two rules fire |
| `Enforcement.NameAllowlistBlocksExactly` | opa-policies/graphql.rego:180-191 | the name allowlist blocks exactly the non-empty names that are not listed |
| `Enforcement.EmptyNameDenied` | opa-policies/graphql.rego:180-184 | an input that carries an empty name, as no analysed one does, fires the rule for anonymous operations when the list counts as set |
| `Enforcement.PersistedRuleBlocksExactly` | opa-policies/graphql.rego:248-267 | requiring persisted queries blocks exactly queries without a hash |
| `Enforcement.MissingHashDenied` | opa-policies/graphql.rego:248-267 | on any input the three rules fire when persisted queries are required and the hash is missing, or empty with an empty name |
| `Enforcement.PersistedRuleBlocksNothingAnalysed` | internal/parser/parse.go:37-43 | every analysed query carries a hash of sixteen digits, so none of the three persisted-query rules fires on it |
| `Enforcement.HexReads` | internal/parser/parse.go:43 | each byte of the digest gives two hexadecimal digits, the higher first |
| `CachedPolicy.TransparentExactly` | cmd/server/main.go:446-504 | in runs on analysed queries caching changes no decision of the repository's policy if and only if the TTL is not positive, audit-only mode is on, or no anonymous query of one selection gets through |
| `CachedPolicy.LeastDecides` | opa-policies/graphql.rego:10-302 | some document gets through, for some tenant, if and only if some query `{ ...F }` or `{ k }` does, for every schema and all settings |
| `KeyRules.DecidedByKeyExactly` | cmd/server/main.go:508-511 | analysed queries sharing a key are treated alike by a rule under all settings if and only if it is one of ten of the 25 |
| `KeyRules.KeyRulesSurviveCaching` | cmd/server/main.go:446-504 | in every run on analysed queries, cached or not, no call that is let through violates one of the ten rules |
| `CachedPolicy.EveryAllowedDocumentHasDeniedTwin` | cmd/server/main.go:460-470 | for every allowed document a run lets through a denied one with the same key, which differs in the name of its first operation |
| `CachedPolicy.BlockedFieldForwarded` | cmd/server/main.go:514-521 | for all names x, y, z with xy other than yz and none for introspection: with the root field xy blocked and no schema, a run lets `{ xy z }` through after `{ x yz }` |
| `Enforcement.TenantRulesMatter` | opa-policies/graphql.rego:297-302 | such tenants and queries exist, for every operation type |
| `Proxy.SanitizeReason` | internal/proxy/proxy.go:47-56 | keeps exactly the printable ASCII characters, in order |
| `Proxy.SanitizingKeeps` | internal/proxy/proxy.go:45-56 | a character is kept, in its place, exactly when it lies between space and tilde |
| `Proxy.SanitizingFixesPrintable` | internal/proxy/proxy.go:45-56 | sanitising is idempotent, and the identity exactly on printable ASCII |
| `Proxy.ScanUndoesEscape` | internal/proxy/proxy.go:374-375 | decoding a quoted printable string as JSON gives it back and stops at its closing quote |
| `Proxy.BlockedBodyDecodes` | internal/proxy/proxy.go:337-338 | for every reason the body is a JSON object with the error and the sanitised reason |
| `Proxy.HasLeadingContent` | internal/proxy/proxy.go:430-437 | true if and only if some character is neither underscore nor space |
| `Proxy.ExtractTenantID` | internal/proxy/proxy.go:418-428 | the part before the last underscore with content before it and a character after it, or the whole key |
| `Proxy.TenantExactly` | internal/proxy/proxy.go:418-428 | the tenant, said of the key alone: it has content and is followed by an underscore and a rest with no underscore before its last character, or it is the whole key when nothing with content precedes an underscore |
| `Proxy.TenantRoundTrip` | internal/proxy/proxy.go:418-428 | a tenant with a character other than underscore and space, an underscore and a secret without underscore give back the tenant |
| `Proxy.LastSegmentDecides` | internal/proxy/proxy.go:167-170 | a path is filtered if and only if what follows its last slash is the word graphql, each letter small or capital |
| `Proxy.TrailingSlashUnfiltered` | internal/proxy/proxy.go:167-170 | no path with a trailing slash is filtered |
| `Proxy.Handler.HandleBatch` | internal/proxy/proxy.go:292-352 | the reply of the first offending item, or one upstream call with the original body; how many items were evaluated |
| `Proxy.Handler.BatchAllOrNothing` | internal/proxy/proxy.go:289-291 | a batch is forwarded if and only if every item is non-empty, parsed and allowed |
| `Proxy.Handler.FirstOffenderDecides` | internal/proxy/proxy.go:308-343 | a refused batch gets the reply of its first item that was not cleared, and no later item is evaluated |
| `Proxy.Handler.BatchAnswered` | internal/proxy/proxy.go:300-352 | said of items and evaluations: the first item that is empty, unparsed, failed or denied gives 400, 400, 500 or the blocked body, after one evaluation for each item up to it; without one, all are evaluated and the batch is forwarded |
| `Proxy.Handler.JudgeAnswers` | internal/proxy/proxy.go:363-388 | a failed evaluation gives 500, an allowance the call upstream, a denial 403 with a JSON object of "request blocked" and the sanitised reason |
| `Proxy.Handler.EvaluateAndForward` | internal/proxy/proxy.go:355-389 | exactly one evaluation, for the tenant of the key, decides the reply: 500, the blocked body, or the call upstream with the body |
| `Proxy.Handler.ServeHTTP` | internal/proxy/proxy.go:128-389 | the reply to every request, with the number of evaluations: 405, 415, 413, 400, 500, or 403 with the blocked body of the deciding denial, that of the query for the tenant of the key or of the first offending batch item; upstream is called once, with a POST body unchanged, if and only if everything was decoded, parsed and allowed |
| `EndToEnd.ForwardedComplies` | internal/proxy/proxy.go:128-389 | with caching off, every forwarded query is a parsed document whose reported paths, measures, names and types are permitted and pass the schema; its real paths, depth, counts and fields are permitted too wherever they are what is reported; outside batches it respects its tenant's config |
| `EndToEnd.FailClosedForwardsAnswered` | cmd/server/main.go:475-482 | failing closed with caching off, every forwarded query was answered as allowed, whichever evaluations the engine fails |
| `EndToEnd.FailClosedComplies` | cmd/server/main.go:475-482 | then every forwarded query complies as with an engine that never fails |
| `EndToEnd.FailClosedDespiteCache` | cmd/server/main.go:436-505 | failing closed with any TTL and any interleaving, every forwarded query was answered as allowed in its run, for itself or for a query with the same key |
| `EndToEnd.EngineDownExactly` | cmd/server/main.go:475-482 | while the engine always fails, a query alone is forwarded if and only if the evaluator fails open, the query parses, and the schema accepts it |
| `EndToEnd.ForwardedIsBoundedDespiteCache` | cmd/server/main.go:436-505 | with any TTL and any interleaving, every forwarded query has reported depth, field count and cost within the limits and a permitted operation type; on acyclic documents its real depth is within the limit too unless a skipped spread reaches deeper |
| `EndToEnd.AliasedFieldForwarded` | internal/parser/parse.go:137-140 | with one field blocked and no schema, `{ alias: field }` is forwarded, introspection fields included |
| `EndToEnd.RepeatedFieldForwarded` | internal/parser/parse.go:197-200 | with x allowed only and y blocked, `{ x { ...F } ...F }` is forwarded though it asks for y at the root |
| `EndToEnd.BatchAgreesExactly` | internal/proxy/proxy.go:326-358 | a query and the batch of it alone are treated alike if and only if the schema rejects it or the policy decides alike with and without the tenant |
| `EndToEnd.BatchEvadesTenantExactly` | internal/proxy/proxy.go:326-358 | refused alone and forwarded in a batch if and only if it passes the schema and all global rules and violates a rule of the tenant; never the reverse |
| `EndToEnd.BatchEvadesTenant` | internal/proxy/proxy.go:326-358 | for every tenant, secret and position: with queries blocked for the tenant, `{ a }` is refused alone and forwarded in a batch |

## Left out

- GraphQL and SDL text parsing and SHA-256: library code; the model starts from parsed documents and digests. A schema is any value of `Schema.SchemaInfo`, also one that SDL cannot write.
- `RealFields.Intended` takes `__typename` for a field like any other, though every type has it undeclared; and a missing root type accepts in it, as in the code.
- Selection sets are sequences, so nil and empty ones are the same; the walk treats them alike.
- Go strings are sequences of characters; names are ASCII, so `CacheKey.Byte` takes one byte per character, and `%q` is modelled on printable ASCII only.
- Floating-point rounding in the limiter: tokens, rates and times are reals; the mutex makes calls and sweeps atomic events in clock order.
- The policy engine and its HTTP client: an evaluation step returns any answer or error; deny messages are not modelled, only which rule fires.
- The embedded engine's choice of one reason among several deny messages, and sorting of deny sets.
- `DataStore` contents in the cache model: admin updates are version changes, and a decision carries the version its params were read at.
- The evaluator's settings (schema, TTL, fail-closed, audit-only) are fixed during a run: nothing in the program changes them after start.
- `Enforcement.AllowedExactly` is about params of the documented types; limits and lists of other types have lemmas of their own, rule by rule.
- The JSON text of refusals other than the blocked body: a refusal is its status.
- Schema messages quote names, which have no character that needs escaping.
- Request variables, reverse proxying, headers, timeouts, panic recovery, JSON body decoding and content-type syntax: parameters of a request or omitted.
- Metrics other than the three outcome counters of the evaluator; logging.
- Admin HTTP handlers, flags, and the choice of the rate-limit key from headers.
- Sample policies and configuration files.
