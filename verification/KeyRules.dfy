/** Which rules of the policy a cached decision can be trusted for. */
module KeyRules {
  import opened Ast
  import opened Text
  import opened Traversal
  import opened Exactness
  import opened Counters
  import opened Inlining
  import opened Analyzer
  import opened CacheKey
  import opened DecisionCache
  import opened Policy
  import opened Requests
  import opened Enforcement
  import opened Queries
  import opened CachedPolicy

  /** Whatever the settings, analysed queries that share a key are treated alike by the rule. */
  ghost predicate DecidedByKey(rule: Rule) {
    forall params, tenants, a, b | a in AnalysedQueries() && b in AnalysedQueries() && Key(a) == Key(b) ::
      Fires(rule, BuildInput(a, params, tenants)) <==> Fires(rule, BuildInput(b, params, tenants))
  }

  /** Rules that no analysed query meets. */
  const NEVER := { MissingField, AnonymousOperation, PersistedEmpty, PersistedUndefined, PersistedNoHash }

  /** Rules on the operation type, the depth and the field count. */
  const MEASURED := { DepthLimit, FieldLimit, CostBudget, BlockedOperation, OperationNotAllowed }

  const KEY_RULES := MEASURED + NEVER

  lemma HashedNeverFires(rule: Rule, info: Summary, params: Params, tenants: map<string, Params>)
    requires rule in NEVER && info.queryHash != ""
    ensures !Fires(rule, BuildInput(info, params, tenants))
  {
  }

  lemma NeverFires(rule: Rule, info: Summary, params: Params, tenants: map<string, Params>)
    requires rule in NEVER && info in AnalysedQueries()
    ensures !Fires(rule, BuildInput(info, params, tenants))
  {
    AnalysedFacts(info);
    HashedNeverFires(rule, info, params, tenants);
  }

  lemma MeasuredSame(rule: Rule, a: Summary, b: Summary, params: Params, tenants: map<string, Params>)
    requires rule in {DepthLimit, FieldLimit, BlockedOperation, OperationNotAllowed}
    requires a.operationType == b.operationType && a.depth == b.depth && a.fieldCount == b.fieldCount
    ensures Fires(rule, BuildInput(a, params, tenants)) <==> Fires(rule, BuildInput(b, params, tenants))
  {
  }

  lemma CostSame(a: Summary, b: Summary, params: Params, tenants: map<string, Params>)
    requires a.depth == b.depth && a.fieldCount == b.fieldCount
    ensures Fires(CostBudget, BuildInput(a, params, tenants)) <==> Fires(CostBudget, BuildInput(b, params, tenants))
  {
    assert a.depth * a.fieldCount == b.depth * b.fieldCount;
  }

  lemma MeasuredDecided(rule: Rule, a: Summary, b: Summary, params: Params, tenants: map<string, Params>)
    requires rule in MEASURED && '|' !in a.operationType && Key(a) == Key(b)
    ensures Fires(rule, BuildInput(a, params, tenants)) <==> Fires(rule, BuildInput(b, params, tenants))
  {
    SameKeySameMeasures(a, b);
    if rule == CostBudget {
      CostSame(a, b, params, tenants);
    } else {
      MeasuredSame(rule, a, b, params, tenants);
    }
  }

  lemma KeyRuleDecided(rule: Rule, a: Summary, b: Summary, params: Params, tenants: map<string, Params>)
    requires rule in KEY_RULES && a in AnalysedQueries() && b in AnalysedQueries() && Key(a) == Key(b)
    ensures Fires(rule, BuildInput(a, params, tenants)) <==> Fires(rule, BuildInput(b, params, tenants))
  {
    if rule in NEVER {
      NeverFires(rule, a, params, tenants);
      NeverFires(rule, b, params, tenants);
    } else {
      AnalysedFacts(a);
      MeasuredDecided(rule, a, b, params, tenants);
    }
  }

  // ---------- Queries that a rule tells apart and the key does not ----------

  lemma Separated(rule: Rule, params: Params, tenants: map<string, Params>, a: Summary, b: Summary)
    requires a in AnalysedQueries() && b in AnalysedQueries() && Key(a) == Key(b)
    requires Fires(rule, BuildInput(a, params, tenants)) && !Fires(rule, BuildInput(b, params, tenants))
    ensures !DecidedByKey(rule)
  {
  }

  /** Some digest. */
  ghost function Digest(): (digest: seq<bv8>)
    ensures |digest| == HASH_BYTES
  {
    var zeros: seq<bv8> := [0, 0, 0, 0, 0, 0, 0, 0];
    assert |zeros| == HASH_BYTES;
    var digest: seq<bv8> :| |digest| == HASH_BYTES;
    digest
  }

  ghost function Sample(doc: Document, tenant: string): Summary
    requires doc.operations != []
  {
    Analysis(doc, Digest(), tenant)
  }

  /** An anonymous or named query of one leaf. */
  ghost function LeafSample(name: string, f: Selection, tenant: string): Summary {
    Sample(Single(name, Query, [f]), tenant)
  }

  lemma LeafSampled(name: string, f: Selection, tenant: string)
    requires f.Field? && f.selections == [] && f.alias == "" && IsName(f.name)
    ensures var s := LeafSample(name, f, tenant);
            && s in AnalysedQueries() && s.operationType == "query" && s.operationName == name && s.tenantId == tenant
            && s.depth == 1 && s.fieldCount == 1 && s.fieldPaths == [f.name] && s.directives == f.directives
            && s.batchSize == 1 && s.argumentDepth == ArgumentsDepth(f.arguments) && s.fragmentSpreadCount == 0
  {
    SingleLeafWritten(name, Query, f);
    LeafMeasures(f);
    SingleSummary(name, Query, [f], HexText(Digest()));
    IsAnalysed(LeafSample(name, f, tenant), Single(name, Query, [f]), Digest(), tenant);
  }

  lemma SameKey(a: Summary, b: Summary)
    requires a.operationType == b.operationType && a.depth == b.depth && a.fieldCount == b.fieldCount
    requires a.fieldPaths == b.fieldPaths
    ensures Key(a) == Key(b)
  {
    KeyIgnoresBoundaries(a, b);
  }

  /** The measures under the limits that the key does not hold. */
  function Limited(rule: Rule, info: Summary): nat {
    match rule
    case DirectiveLimit => info.directives
    case BatchLimit => info.batchSize
    case ArgumentLimit => info.argumentDepth
    case ListLimit => info.listsRequested
    case SpreadLimit => info.fragmentSpreadCount
    case _ => 0
  }

  function LimitKey(rule: Rule): string {
    match rule
    case DirectiveLimit => "max_directives"
    case BatchLimit => "max_batch_size"
    case ArgumentLimit => "max_argument_depth"
    case ListLimit => "max_lists_requested"
    case SpreadLimit => "max_fragment_spreads"
    case _ => ""
  }

  lemma LimitFires(rule: Rule, n: nat, info: Summary, params: Params)
    requires LimitKey(rule) != "" && Get(params, LimitKey(rule)) == Some(Num(n as real))
    ensures Fires(rule, BuildInput(info, params, map[])) <==> Limited(rule, info) > n
  {
  }

  /** A limit of `n` on a measure that is more in one query and not in another. */
  lemma LimitSeparates(rule: Rule, n: nat, high: Summary, low: Summary)
    requires high in AnalysedQueries() && low in AnalysedQueries() && Key(high) == Key(low)
    requires || (rule == DirectiveLimit && high.directives > n >= low.directives)
             || (rule == BatchLimit && high.batchSize > n >= low.batchSize)
             || (rule == ArgumentLimit && high.argumentDepth > n >= low.argumentDepth)
             || (rule == ListLimit && high.listsRequested > n >= low.listsRequested)
             || (rule == SpreadLimit && high.fragmentSpreadCount > n >= low.fragmentSpreadCount)
    ensures !DecidedByKey(rule)
  {
    var params: Params := map[LimitKey(rule) := Num(n as real)];
    LimitFires(rule, n, high, params);
    LimitFires(rule, n, low, params);
    Separated(rule, params, map[], high, low);
  }

  /** `{ a @d }` and `{ a }` */
  lemma DirectivesUndecided(name: string)
    requires IsName(name)
    ensures !DecidedByKey(DirectiveLimit)
  {
    var f := Field(name, "", 1, [], []);
    LeafSampled("", f, "");
    LeafSampled("", Leaf(name), "");
    SameKey(LeafSample("", f, ""), LeafSample("", Leaf(name), ""));
    LimitSeparates(DirectiveLimit, 0, LeafSample("", f, ""), LeafSample("", Leaf(name), ""));
  }

  /** `{ a(x: 1) }` and `{ a }` */
  lemma ArgumentsUndecided(name: string)
    requires IsName(name)
    ensures !DecidedByKey(ArgumentLimit)
  {
    var v := Some(Value([], None));
    var f := Field(name, "", 0, [v], []);
    assert Height(v) == 0 && [v][1..] == [];
    assert ArgumentsDepth([v]) == Max(1 + Height(v), ArgumentsDepth([])) == 1;
    LeafSampled("", f, "");
    LeafSampled("", Leaf(name), "");
    SameKey(LeafSample("", f, ""), LeafSample("", Leaf(name), ""));
    LimitSeparates(ArgumentLimit, 0, LeafSample("", f, ""), LeafSample("", Leaf(name), ""));
  }

  /** `{ a ...F }` */
  function WithSpread(name: string): Document {
    Single("", Query, [Leaf(name), FragmentSpread("F", 0)])
  }

  lemma WithSpreadWritten(name: string)
    requires IsName(name)
    ensures Written(WithSpread(name)) && Acceptable(WithSpread(name))
  {
    var leaf, spread := Leaf(name), FragmentSpread("F", 0);
    assert [leaf, spread][1..] == [spread] && [spread][1..] == [];
    assert Own([spread]) == [NodeOf(spread)] && Own([leaf, spread]) == [NodeOf(leaf)] + [] + [NodeOf(spread)];
    assert RealNamed([]) && NoEmptySets([]) && RealNamed([spread]) && NoEmptySets([spread]);
  }

  lemma WithSpreadTally(name: string)
    ensures var t := OperationTally([Leaf(name), FragmentSpread("F", 0)], []);
            t.depth == 1 && t.fieldCount == 1 && t.fieldPaths == [name] && t.fragmentSpreadCount == 1
  {
    Two(Leaf(name), FragmentSpread("F", 0));
    RenderOne(name);
  }

  lemma WithSpreadSampled(name: string)
    requires IsName(name)
    ensures var s := Sample(WithSpread(name), "");
            && s in AnalysedQueries() && s.operationType == "query"
            && s.depth == 1 && s.fieldCount == 1 && s.fieldPaths == [name] && s.fragmentSpreadCount == 1
  {
    WithSpreadTally(name);
    SingleSummary("", Query, [Leaf(name), FragmentSpread("F", 0)], HexText(Digest()));
    WithSpreadWritten(name);
    IsAnalysed(Sample(WithSpread(name), ""), WithSpread(name), Digest(), "");
  }

  lemma SpreadsUndecided(name: string)
    requires IsName(name)
    ensures !DecidedByKey(SpreadLimit)
  {
    WithSpreadSampled(name);
    LeafSampled("", Leaf(name), "");
    SameKey(Sample(WithSpread(name), ""), LeafSample("", Leaf(name), ""));
    LimitSeparates(SpreadLimit, 0, Sample(WithSpread(name), ""),
                   LeafSample("", Leaf(name), ""));
  }

  /** `query A { a } query B { ...F }` */
  function TwoOperations(name: string): Document {
    Document([Operation("A", Query, 0, [], [Leaf(name)]), Operation("B", Query, 0, [], [FragmentSpread("F", 0)])], [])
  }

  lemma TwoOperationsWritten(name: string)
    requires IsName(name)
    ensures Written(TwoOperations(name)) && Acceptable(TwoOperations(name))
  {
    var doc := TwoOperations(name);
    var a, b := doc.operations[0], doc.operations[1];
    SingleLeafWritten("A", Query, Leaf(name));
    SingleSpreadWritten("B", Query, "F");
    assert a in Single("A", Query, [Leaf(name)]).operations;
    assert b in Single("B", Query, [FragmentSpread("F", 0)]).operations;
    assert forall op :: op in doc.operations ==> op == a || op == b;
  }

  lemma TwoOperationsSampled(name: string)
    requires IsName(name)
    ensures var s := Sample(TwoOperations(name), "");
            && s in AnalysedQueries() && s.operationType == "query"
            && s.depth == 1 && s.fieldCount == 1 && s.fieldPaths == [name] && s.batchSize == 2
  {
    var doc := TwoOperations(name);
    TwoOperationsWritten(name);
    TwoOperationsWorst(name);
    TwoOperationsPaths(name);
    IsAnalysed(Sample(doc, ""), doc, Digest(), "");
  }

  lemma TwoOperationsWorst(name: string)
    ensures Worst(Depth, TwoOperations(name).operations, []) == 1
    ensures Worst(FieldCount, TwoOperations(name).operations, []) == 1
  {
    var a, b := TwoOperations(name).operations[0], TwoOperations(name).operations[1];
    LeafMeasures(Leaf(name));
    OneSpread("F");
    TwoOperationsMeasured(a, b, Depth);
    TwoOperationsMeasured(a, b, FieldCount);
  }

  lemma TwoOperationsMeasured(a: Operation, b: Operation, metric: Metric)
    ensures Worst(metric, [a, b], []) == Max(Measure(metric, a, []), Measure(metric, b, []))
  {
    assert [a, b][..1] == [a];
    OneOperation(a, [], metric);
  }

  lemma TwoOperationsPaths(name: string)
    ensures RenderAll(KeyPaths(TwoOperations(name))) == [name]
  {
    var ops := TwoOperations(name).operations;
    var spread := FragmentSpread("F", 0);
    assert ops[..1] == [ops[0]] && [ops[0]][..0] == [] && [] + [name] == [name];
    LeafWalk(name, [], [], {});
    WalkPaths([spread], [], [], {});
    assert AllPaths([ops[0]], []) == [] + [[name]];
    assert AllPaths(ops, []) == AllPaths(ops[..1], []) + [];
    RenderOne(name);
    assert [[name]][1..] == [];
  }

  lemma BatchesUndecided(name: string)
    requires IsName(name)
    ensures !DecidedByKey(BatchLimit)
  {
    TwoOperationsSampled(name);
    LeafSampled("", Leaf(name), "");
    SameKey(Sample(TwoOperations(name), ""), LeafSample("", Leaf(name), ""));
    LimitSeparates(BatchLimit, 1, Sample(TwoOperations(name), ""),
                   LeafSample("", Leaf(name), ""));
  }

  lemma LeafQuerySampled(names: seq<string>)
    requires AreNames(names) && names != []
    ensures var s := Sample(LeafQuery(names), "");
            && s in AnalysedQueries() && s == Summarize(LeafQuery(names), HexText(Digest()))
            && s.operationType == "query" && s.operationName == "" && s.fieldPaths == names && s.tenantId == ""
  {
    LeafAnalysed(names, Digest());
  }

  /** `{ xy z }` and `{ x yz }` */
  lemma Shifted(x: string, y: string, z: string)
    requires IsName(x) && IsName(y) && IsName(z)
    ensures var a, b := Sample(LeafQuery([x + y, z]), ""), Sample(LeafQuery([x, y + z]), "");
            && a in AnalysedQueries() && b in AnalysedQueries() && Key(a) == Key(b)
            && a.fieldPaths == [x + y, z] && b.fieldPaths == [x, y + z]
  {
    LeafQuerySampled([x + y, z]);
    LeafQuerySampled([x, y + z]);
    ShiftedQueriesShareKey(x, y, z, HexText(Digest()), HexText(Digest()));
  }

  lemma TwoLeafLists(a: string, b: string)
    ensures Sample(LeafQuery([a, b]), "").listsRequested ==
            (if LooksLikeList(a) then 1 else 0) + (if LooksLikeList(b) then 1 else 0)
  {
    assert [a, b][1..] == [b] && [b][1..] == [];
    assert Leaves([b]) == [Leaf(b)] + Leaves([]) && Leaves([a, b]) == [Leaf(a)] + Leaves([b]);
    assert Leaves([a, b]) == [Leaf(a), Leaf(b)];
    Two(Leaf(a), Leaf(b));
    SingleSummary("", Query, [Leaf(a), Leaf(b)], HexText(Digest()));
  }

  /** Lists as the analyser guesses them: `{ xy z }` and `{ x yz }` where only `xy` looks like a list. */
  lemma ListsUndecided(x: string, y: string, z: string)
    requires IsName(x) && IsName(y) && IsName(z)
    requires LooksLikeList(x + y) && !LooksLikeList(z) && !LooksLikeList(x) && !LooksLikeList(y + z)
    ensures !DecidedByKey(ListLimit)
  {
    var high, low := Sample(LeafQuery([x + y, z]), ""), Sample(LeafQuery([x, y + z]), "");
    Shifted(x, y, z);
    TwoLeafLists(x + y, z);
    TwoLeafLists(x, y + z);
    LimitSeparates(ListLimit, 0, high, low);
  }

  /** `query IntrospectionQuery { a }` and `{ a }` */
  lemma IntrospectionNameUndecided(name: string)
    requires IsName(name)
    ensures !DecidedByKey(IntrospectionName)
  {
    var a, b := LeafSample(INTROSPECTION_QUERY, Leaf(name), ""), LeafSample("", Leaf(name), "");
    LeafSampled(INTROSPECTION_QUERY, Leaf(name), "");
    LeafSampled("", Leaf(name), "");
    SameKey(a, b);
    Separated(IntrospectionName, map[], map[], a, b);
  }

  lemma NameSeparates(a: Summary, b: Summary, listed: string, params: Params)
    requires a.operationName != "" && a.operationName != listed && b.operationName == ""
    requires Get(params, "allowed_operation_names") == Some(Arr([Str(listed)]))
    ensures Fires(UnlistedName, BuildInput(a, params, map[])) && !Fires(UnlistedName, BuildInput(b, params, map[]))
  {
  }

  /** `query c { a }` and `{ a }` with another name allowed */
  lemma NameUndecided(name: string, listed: string, other: string)
    requires IsName(name) && other != "" && listed != other
    ensures !DecidedByKey(UnlistedName)
  {
    var params: Params := map["allowed_operation_names" := Arr([Str(listed)])];
    var a, b := LeafSample(other, Leaf(name), ""), LeafSample("", Leaf(name), "");
    LeafSampled(other, Leaf(name), "");
    LeafSampled("", Leaf(name), "");
    SameKey(a, b);
    NameSeparates(a, b, listed, params);
    Separated(UnlistedName, params, map[], a, b);
  }

  lemma TenantSeparates(rule: Rule, t: Params, tenants: map<string, Params>, a: Summary, b: Summary, name: string)
    requires b.tenantId != "" && a.tenantId == "" && tenants == map[b.tenantId := t]
    requires a.depth == b.depth == 1 && a.fieldCount == b.fieldCount == 1 && a.fieldPaths == b.fieldPaths == [name]
    requires b.operationType == "query"
    requires || (rule == TenantDepth && Get(t, "depth_limit") == Some(Num(0.0)))
             || (rule == TenantFields && Get(t, "max_field_count") == Some(Num(0.0)))
             || (rule == TenantBlocklist && Get(t, "field_blocklist") == Some(Arr([Str(name)])))
             || (rule == TenantOperation && Get(t, "blocked_operations") == Some(Arr([Str("query")])))
    ensures Fires(rule, BuildInput(b, map[], tenants)) && !Fires(rule, BuildInput(a, map[], tenants))
  {
    assert BuildInput(b, map[], tenants).tenantConfig == t && BuildInput(a, map[], tenants).tenantConfig == map[];
    assert name in Paths(BuildInput(b, map[], tenants));
    assert Str(name) in [Str(name)] && Str("query") in [Str("query")];
  }

  lemma TenantUndecided(rule: Rule, t: Params, tenant: string, name: string)
    requires tenant != "" && IsName(name)
    requires || (rule == TenantDepth && Get(t, "depth_limit") == Some(Num(0.0)))
             || (rule == TenantFields && Get(t, "max_field_count") == Some(Num(0.0)))
             || (rule == TenantBlocklist && Get(t, "field_blocklist") == Some(Arr([Str(name)])))
             || (rule == TenantOperation && Get(t, "blocked_operations") == Some(Arr([Str("query")])))
    ensures !DecidedByKey(rule)
  {
    var a, b := LeafSample("", Leaf(name), ""), LeafSample("", Leaf(name), tenant);
    LeafSampled("", Leaf(name), "");
    LeafSampled("", Leaf(name), tenant);
    SameKey(b, a);
    TenantSeparates(rule, t, map[tenant := t], a, b, name);
    Separated(rule, map[], map[tenant := t], b, a);
  }

  lemma TenantRulesUndecided(rule: Rule, name: string)
    requires rule in {TenantDepth, TenantFields, TenantBlocklist, TenantOperation} && IsName(name)
    ensures !DecidedByKey(rule)
  {
    var t: Params := match rule
      case TenantDepth => map["depth_limit" := Num(0.0)]
      case TenantFields => map["max_field_count" := Num(0.0)]
      case TenantBlocklist => map["field_blocklist" := Arr([Str(name)])]
      case _ => map["blocked_operations" := Arr([Str("query")])];
    TenantUndecided(rule, t, "t", name);
  }

  lemma BlocklistUndecided(x: string, y: string, z: string)
    requires IsName(x) && IsName(y) && IsName(z) && x + y != y + z
    ensures !DecidedByKey(FieldBlocklist)
  {
    var a, b := Sample(LeafQuery([x + y, z]), ""), Sample(LeafQuery([x, y + z]), "");
    var params: Params := map[BLOCKLIST := Arr([Str(x + y)])];
    Shifted(x, y, z);
    OnlyListed(params, x + y, a, map[]);
    OnlyListed(params, x + y, b, map[]);
    assert a.fieldPaths[0] == x + y;
    Separated(FieldBlocklist, params, map[], a, b);
  }

  lemma AllowlistSeparates(a: Summary, b: Summary, x: string, y: string, z: string, params: Params)
    requires a.fieldPaths == [x + y, z] && b.fieldPaths == [x, y + z]
    requires y != "" && !(z <= x) && Get(params, "field_allowlist") == Some(Arr([Str(x + y), Str(z)]))
    ensures !Fires(FieldAllowlist, BuildInput(a, params, map[])) && Fires(FieldAllowlist, BuildInput(b, params, map[]))
  {
    var list := Arr([Str(x + y), Str(z)]);
    assert list.items[0] == Str(x + y) && list.items[1] == Str(z);
    assert b.fieldPaths[0] == x;
    assert x in Paths(BuildInput(b, params, map[])) && !OnAllowlist(Some(list), x);
  }

  lemma AllowlistUndecided(x: string, y: string, z: string)
    requires IsName(x) && IsName(y) && IsName(z) && !(z <= x)
    ensures !DecidedByKey(FieldAllowlist)
  {
    var a, b := Sample(LeafQuery([x + y, z]), ""), Sample(LeafQuery([x, y + z]), "");
    var params: Params := map["field_allowlist" := Arr([Str(x + y), Str(z)])];
    Shifted(x, y, z);
    AllowlistSeparates(a, b, x, y, z, params);
    Separated(FieldAllowlist, params, map[], b, a);
  }

  lemma IntrospectionSeparates(a: Summary, b: Summary, x: string, y: string, z: string)
    requires a.fieldPaths == [x + y, z] && b.fieldPaths == [x, y + z]
    requires x + y in INTROSPECTION && x !in INTROSPECTION && y + z !in INTROSPECTION
    ensures Fires(IntrospectionField, BuildInput(a, map[], map[]))
    ensures !Fires(IntrospectionField, BuildInput(b, map[], map[]))
  {
    assert a.fieldPaths[0] == x + y && x + y in Paths(BuildInput(a, map[], map[]));
  }

  lemma IntrospectionUndecided(x: string, y: string, z: string)
    requires IsName(x) && IsName(y) && IsName(z)
    requires x + y in INTROSPECTION && x !in INTROSPECTION && y + z !in INTROSPECTION
    ensures !DecidedByKey(IntrospectionField)
  {
    var a, b := Sample(LeafQuery([x + y, z]), ""), Sample(LeafQuery([x, y + z]), "");
    Shifted(x, y, z);
    IntrospectionSeparates(a, b, x, y, z);
    Separated(IntrospectionField, map[], map[], a, b);
  }

  /** `{ a { b } c }` */
  function NestedQuery(a: string, b: string, c: string): Document {
    Single("", Query, [Field(a, "", 0, [], [Leaf(b)]), Leaf(c)])
  }

  lemma NestedKeys(a: string, b: string, c: string, fragments: seq<Fragment>)
    ensures FieldPaths(Walk([Field(a, "", 0, [], [Leaf(b)]), Leaf(c)], [], fragments, {}).trace) ==
            [[a], [a, b], [c]]
  {
    var nest, leaf := Field(a, "", 0, [], [Leaf(b)]), Leaf(c);
    assert [nest, leaf][1..] == [leaf] && [] + [a] == [a] && [] + [c] == [c] && [a] + [b] == [a, b];
    LeafWalk(b, [a], fragments, {});
    LeafWalk(c, [], fragments, {});
    WalkPaths([nest, leaf], [], fragments, {});
  }

  lemma NestedWritten(a: string, b: string, c: string)
    requires IsName(a) && IsName(b) && IsName(c)
    ensures Written(NestedQuery(a, b, c)) && Acceptable(NestedQuery(a, b, c))
  {
    var nest, leaf := Field(a, "", 0, [], [Leaf(b)]), Leaf(c);
    var inner := Leaf(b);
    assert [nest, leaf][1..] == [leaf] && [leaf][1..] == [] && [inner][1..] == [];
    assert Own([inner]) == [NodeOf(inner)] && Own([leaf]) == [NodeOf(leaf)];
    assert Own([nest, leaf]) == [NodeOf(nest)] + Own([inner]) + Own([leaf]);
    assert RealNamed([]) && NoEmptySets([]) && RealNamed([inner]) && RealNamed([leaf]);
    assert NoEmptySets([inner]) && NoEmptySets([leaf]);
  }

  lemma NestedSampled(a: string, b: string, c: string)
    requires IsName(a) && IsName(b) && IsName(c)
    ensures var s := Sample(NestedQuery(a, b, c), "");
            && s in AnalysedQueries() && s.operationType == "query" && s.depth == 2 && s.fieldCount == 3
            && s.fieldPaths == [a, a + "." + b, c]
  {
    var selections := [Field(a, "", 0, [], [Leaf(b)]), Leaf(c)];
    NestedWritten(a, b, c);
    NestedKeys(a, b, c, []);
    SingleSummary("", Query, selections, HexText(Digest()));
    CountAllCloses(Walk(selections, [], [], {}).trace);
    FieldPathsTotal(Walk(selections, [], [], {}).trace);
    DeepestOfThree([a], [a, b], [c]);
    NestedTexts(a, b, c);
    IsAnalysed(Sample(NestedQuery(a, b, c), ""), NestedQuery(a, b, c), Digest(), "");
  }

  lemma NestedTexts(a: string, b: string, c: string)
    requires IsName(a)
    ensures RenderAll([[a], [a, b], [c]]) == [a, a + "." + b, c]
  {
    assert [a, b][..1] == [a];
    RenderOne(a);
    RenderOne(c);
    assert [[a], [a, b], [c]][1..] == [[a, b], [c]] && [[a, b], [c]][1..] == [[c]] && [[c]][1..] == [];
    assert RenderAll([[c]]) == [Render([c])] + RenderAll([]);
  }

  lemma JoinedThree(a: string, b: string, c: string)
    ensures Joined([a, b, c]) == a + b + c
  {
    assert [a, b, c][1..] == [b, c];
    JoinedTwo(b, c);
  }

  lemma SuffixFires(s: Summary, a: string, f: string, c: string)
    requires s.fieldPaths == [a, a + "." + f, c] && f in INTROSPECTION
    ensures Fires(IntrospectionSuffix, BuildInput(s, map[], map[]))
  {
    var path := a + "." + f;
    assert path == a + ("." + f) && path[|a|..] == "." + f;
    assert EndsWith(path, "." + f) && s.fieldPaths[1] == path;
    assert path in Paths(BuildInput(s, map[], map[]));
  }

  lemma SuffixQuiet(s: Summary, a: string, b: string, c: string)
    requires s.fieldPaths == [a, a + "." + b, c] && IsName(a) && IsName(b) && IsName(c) && b !in INTROSPECTION
    ensures !Fires(IntrospectionSuffix, BuildInput(s, map[], map[]))
  {
    forall f, path | f in INTROSPECTION && path in s.fieldPaths
      ensures !EndsWith(path, "." + f)
    {
      IntrospectionNames(f);
      if path == a || path == c {
        NoIntrospection(path, f);
      } else if EndsWith(path, "." + f) {
        assert [a, b][..1] == [a] && AreNames([a, b]);
        RenderOne(a);
        EndIsLastName([a, b], f);
      }
    }
  }

  lemma NestedShareKey(a: string, x: string, y: string, z: string, high: Summary, low: Summary)
    requires high.operationType == low.operationType && high.depth == low.depth && high.fieldCount == low.fieldCount
    requires high.fieldPaths == [a, a + "." + (x + y), z] && low.fieldPaths == [a, a + "." + x, y + z]
    ensures Key(high) == Key(low)
  {
    JoinedThree(a, a + "." + (x + y), z);
    JoinedThree(a, a + "." + x, y + z);
    assert a + (a + "." + (x + y)) + z == a + (a + "." + x) + (y + z);
    KeyIgnoresBoundaries(high, low);
  }

  /** `{ a { xy } z }` and `{ a { x } yz }` */
  lemma SuffixUndecided(a: string, x: string, y: string, z: string)
    requires IsName(a) && IsName(x) && IsName(y) && IsName(z) && x + y in INTROSPECTION
    requires x !in INTROSPECTION && a !in INTROSPECTION
    ensures !DecidedByKey(IntrospectionSuffix)
  {
    var high, low := Sample(NestedQuery(a, x + y, z), ""), Sample(NestedQuery(a, x, y + z), "");
    NestedSampled(a, x + y, z);
    NestedSampled(a, x, y + z);
    NestedShareKey(a, x, y, z, high, low);
    SuffixFires(high, a, x + y, z);
    SuffixQuiet(low, a, x, y + z);
    Separated(IntrospectionSuffix, map[], map[], high, low);
  }

  // ---------- Exactly which rules the key decides ----------

  lemma SampleNames()
    ensures IsName("a") && IsName("b") && IsName("c") && IsName("x")
    ensures IsName("__typ") && IsName("e") && IsName("s")
    ensures "__typ" + "e" in INTROSPECTION
    ensures "__typ" !in INTROSPECTION && "e" + "x" !in INTROSPECTION && "a" !in INTROSPECTION
  {
    assert "__typ" + "e" == "__type";
    forall f | f in INTROSPECTION
      ensures |f| >= 6
    {
    }
  }

  /** On analysed queries a cached decision can be trusted for a rule, under all settings, exactly when it is
      one of the ten. */
  lemma DecidedByKeyExactly(rule: Rule)
    ensures DecidedByKey(rule) <==> rule in KEY_RULES
  {
    if rule in KEY_RULES {
      forall params, tenants, a, b | a in AnalysedQueries() && b in AnalysedQueries() && Key(a) == Key(b)
        ensures Fires(rule, BuildInput(a, params, tenants)) <==> Fires(rule, BuildInput(b, params, tenants))
      {
        KeyRuleDecided(rule, a, b, params, tenants);
      }
    } else {
      SampleNames();
      OtherRulesUndecided(rule);
    }
  }

  lemma OtherRulesUndecided(rule: Rule)
    requires rule !in KEY_RULES
    requires IsName("a") && IsName("b") && IsName("c") && IsName("x") && IsName("__typ") && IsName("e") && IsName("s")
    requires "__typ" + "e" in INTROSPECTION && "__typ" !in INTROSPECTION && "e" + "x" !in INTROSPECTION
    requires "a" !in INTROSPECTION
    ensures !DecidedByKey(rule)
  {
    match rule
    case DirectiveLimit => DirectivesUndecided("a");
    case ArgumentLimit => ArgumentsUndecided("a");
    case SpreadLimit => SpreadsUndecided("a");
    case BatchLimit => BatchesUndecided("a");
    case ListLimit =>
      assert ("a" + "s")[1] == 's' && ("s" + "b")[1] == 'b';
      ListsUndecided("a", "s", "b");
    case IntrospectionName => IntrospectionNameUndecided("a");
    case UnlistedName => NameUndecided("a", "b", "c");
    case FieldBlocklist =>
      assert ("a" + "b")[0] != ("b" + "c")[0];
      BlocklistUndecided("a", "b", "c");
    case FieldAllowlist =>
      assert "c"[0] != "a"[0];
      AllowlistUndecided("a", "b", "c");
    case IntrospectionField => IntrospectionUndecided("__typ", "e", "x");
    case IntrospectionSuffix => SuffixUndecided("a", "__typ", "e", "x");
    case _ => TenantRulesUndecided(rule, "a");
  }

  // ---------- What survives in every run ----------

  lemma AllowedFiresNothing(info: Summary, params: Params, tenants: map<string, Params>, rule: Rule)
    requires Decide(params, tenants)(info).allowed
    ensures !Fires(rule, BuildInput(info, params, tenants))
  {
  }

  /** The decision behind an answer that is not a denial. */
  lemma AllowedBehind(g: Settings, params: Params, tenants: map<string, Params>, phase: Phase)
    returns (other: Summary)
    requires !g.auditOnly && phase.Done? && phase.decision.allowed
    requires PhaseShared(g, Decide(params, tenants), AnalysedQueries(), phase)
    ensures phase.info in AnalysedQueries() && other in AnalysedQueries()
    ensures Key(other) == Key(phase.info) && Decide(params, tenants)(other).allowed
  {
    var policy := Decide(params, tenants);
    if phase.decision == Uncached(g, policy, phase.info) {
      other := phase.info;
    } else {
      other :| other in AnalysedQueries() && Key(other) == Key(phase.info) && SchemaVerdict(g, other).Accepted? &&
               phase.decision == Audited(g, policy(other));
    }
  }

  /** In every run on analysed queries, caching or not, whoever is let through violates none of the ten rules. */
  lemma KeyRulesSurviveCaching(
    g: Settings, steps: seq<Step>, params: Params, tenants: map<string, Params>, id: nat, rule: Rule)
    requires !g.auditOnly && Possible(g, steps) && Follows(g, steps, Decide(params, tenants), AnalysedQueries())
    requires id in Run(g, steps).calls && Run(g, steps).calls[id].Done? && Run(g, steps).calls[id].decision.allowed
    requires rule in KEY_RULES
    ensures !Fires(rule, BuildInput(Run(g, steps).calls[id].info, params, tenants))
  {
    var phase := Run(g, steps).calls[id];
    DecisionsAreShared(g, steps, Decide(params, tenants), AnalysedQueries());
    var other := AllowedBehind(g, params, tenants, phase);
    AllowedFiresNothing(other, params, tenants, rule);
    KeyRuleDecided(rule, phase.info, other, params, tenants);
  }
}
