/** The proxy wired to the analyser, the schema and the policy: what is true of everything it forwards. */
module EndToEnd {
  import opened Ast
  import opened Text
  import opened Analyzer
  import opened CacheKey
  import opened DecisionCache
  import opened Policy
  import opened Requests
  import opened Enforcement
  import opened Queries
  import opened CachedPolicy
  import opened KeyRules
  import opened RealPolicy
  import Proxy
  import RealFields

  /** What the analyser makes of a query, given what the GraphQL library and the digest make of it. */
  function Parsed(query: string, parsed: Option<Document>, digest: seq<bv8>): Option<Summary> {
    if query != "" && parsed.Some? && Acceptable(parsed.value)
    then Some(Summarize(parsed.value, HexText(digest))) else None
  }

  datatype Deployment = Deployment(
    library: string -> Option<Document>, digest: string -> seq<bv8>, settings: Settings, params: Params,
    tenants: map<string, Params>)

  ghost predicate ParsesBy(h: Proxy.Handler, d: Deployment) {
    forall query :: h.parse(query) == Parsed(query, d.library(query), d.digest(query))
  }

  /** The engine that answers by the policy. */
  ghost function Engine(d: Deployment): Summary -> Outcome {
    (info: Summary) => Outcome.Answered(Decide(d.params, d.tenants)(info))
  }

  ghost function Told(decision: Decision): Proxy.Evaluation {
    Proxy.Verdict(decision.allowed, decision.reason)
  }

  /** The evaluator gives this answer, whatever its cache holds and its clock shows. */
  ghost predicate GivenBy(d: Deployment, info: Summary, evaluation: Proxy.Evaluation) {
    exists cache, lookupAt, storeAt ::
      evaluation == Told(Sequential(d.settings, cache, info, Engine(d), lookupAt, storeAt).0)
  }

  /** Caching is off, and every evaluation is an undisturbed call of the evaluator. */
  ghost predicate EvaluatesBy(h: Proxy.Handler, d: Deployment) {
    d.settings.ttl <= 0.0 && forall info, n: nat :: GivenBy(d, info, h.evaluate(info, n))
  }

  /** Without a TTL the evaluator gives its uncached decision and leaves its cache alone. */
  lemma SequentialWithoutCache(
    d: Deployment, cache: map<string, Cached>, info: Summary, lookupAt: real, storeAt: real)
    requires d.settings.ttl <= 0.0
    ensures Sequential(d.settings, cache, info, Engine(d), lookupAt, storeAt) ==
            (Uncached(d.settings, Decide(d.params, d.tenants), info), cache)
  {
  }

  ghost predicate Permits(d: Deployment, info: Summary) {
    SchemaVerdict(d.settings, info).Accepted? && Allow(BuildInput(info, d.params, d.tenants))
  }

  lemma PermitsMeans(h: Proxy.Handler, d: Deployment, info: Summary, n: nat)
    requires EvaluatesBy(h, d) && !d.settings.auditOnly
    ensures h.Judge(h.evaluate(info, n)).Forwarded? <==> Permits(d, info)
  {
    assert GivenBy(d, info, h.evaluate(info, n));
    var cache, lookupAt, storeAt :|
      h.evaluate(info, n) == Told(Sequential(d.settings, cache, info, Engine(d), lookupAt, storeAt).0);
    SequentialWithoutCache(d, cache, info, lookupAt, storeAt);
  }

  lemma SingleMeans(h: Proxy.Handler, d: Deployment, query: string, apiKey: string, tenant: string, n: nat)
    requires EvaluatesBy(h, d) && !d.settings.auditOnly && query != "" && h.parse(query).Some?
    requires h.IsTenantFor(h.parse(query).value, apiKey, tenant)
    ensures h.ClearedSingle(query, apiKey, n) <==> Permits(d, h.parse(query).value.(tenantId := tenant))
  {
    var info := h.parse(query).value;
    PermitsMeans(h, d, info.(tenantId := tenant), n);
    forall other | h.IsTenantFor(info, apiKey, other)
      ensures other == tenant
    {
      if apiKey != "" {
        Proxy.TenantUnique(apiKey, tenant, other);
      }
    }
  }

  lemma BatchMeans(h: Proxy.Handler, d: Deployment, queries: seq<string>, n: nat)
    requires EvaluatesBy(h, d) && !d.settings.auditOnly
    ensures h.ClearedBatch(queries, n) <==>
            && queries != []
            && forall query <- queries :: query != "" && h.parse(query).Some? && Permits(d, h.parse(query).value)
  {
    forall i | 0 <= i < |queries| && h.parse(queries[i]).Some?
      ensures h.evaluate(h.parse(queries[i]).value, n + i).Verdict?
      ensures h.evaluate(h.parse(queries[i]).value, n + i).allowed <==> Permits(d, h.parse(queries[i]).value)
    {
      PermitsMeans(h, d, h.parse(queries[i]).value, n + i);
    }
    if h.ClearedBatch(queries, n) {
      forall query | query in queries
        ensures query != "" && h.parse(query).Some? && Permits(d, h.parse(query).value)
      {
        var i :| 0 <= i < |queries| && queries[i] == query;
      }
    }
  }

  // ---------- Batches and tenants ----------

  ghost predicate IsSingle(r: Proxy.Request, query: string) {
    r.verb.Post? && r.jsonContentType && r.body.Read? && r.decoded == Proxy.Single(query)
  }

  /** The same request with its query sent as a batch of one. */
  function AsBatch(r: Proxy.Request, query: string): Proxy.Request {
    r.(decoded := Proxy.Batch([query]))
  }

  lemma BatchOfOne(h: Proxy.Handler, d: Deployment, r: Proxy.Request, query: string, n: nat)
    requires EvaluatesBy(h, d) && !d.settings.auditOnly && IsSingle(r, query) && query != "" && h.parse(query).Some?
    ensures h.Cleared(AsBatch(r, query), n) <==> Permits(d, h.parse(query).value)
  {
    BatchMeans(h, d, [query], n);
    assert query in [query] && forall q | q in [query] :: q == query;
  }

  lemma ParsedHasNoTenant(h: Proxy.Handler, d: Deployment, query: string)
    requires ParsesBy(h, d) && h.parse(query).Some?
    ensures query != "" && h.parse(query).value.tenantId == ""
  {
    assert h.parse(query) == Parsed(query, d.library(query), d.digest(query));
  }

  lemma AloneAndBatched(
    h: Proxy.Handler, d: Deployment, r: Proxy.Request, query: string, tenant: string, n: nat)
    requires ParsesBy(h, d) && EvaluatesBy(h, d) && !d.settings.auditOnly
    requires IsSingle(r, query) && h.parse(query).Some? && h.IsTenantFor(h.parse(query).value, r.apiKey, tenant)
    ensures var info := h.parse(query).value;
            && (h.Cleared(r, n) <==> Permits(d, info.(tenantId := tenant)))
            && (h.Cleared(AsBatch(r, query), n) <==> Permits(d, info))
            && SchemaVerdict(d.settings, info.(tenantId := tenant)) == SchemaVerdict(d.settings, info)
            && info.tenantId == ""
  {
    ParsedHasNoTenant(h, d, query);
    SingleMeans(h, d, query, r.apiKey, tenant, n);
    BatchOfOne(h, d, r, query, n);
  }

  /** A query and the batch of that query alone are treated alike exactly when the schema rejects the query
      or the policy gives the tenant of the key the decision it gives no tenant. */
  lemma BatchAgreesExactly(
    h: Proxy.Handler, d: Deployment, r: Proxy.Request, query: string, tenant: string, n: nat)
    requires ParsesBy(h, d) && EvaluatesBy(h, d) && !d.settings.auditOnly
    requires IsSingle(r, query) && h.parse(query).Some? && h.IsTenantFor(h.parse(query).value, r.apiKey, tenant)
    ensures var info := h.parse(query).value;
            (h.Cleared(r, n) <==> h.Cleared(AsBatch(r, query), n)) <==>
            || !SchemaVerdict(d.settings, info).Accepted?
            || (Allow(BuildInput(info.(tenantId := tenant), d.params, d.tenants)) <==>
                Allow(BuildInput(info, d.params, d.tenants)))
  {
    AloneAndBatched(h, d, r, query, tenant, n);
  }

  const TENANT_RULES := { TenantDepth, TenantFields, TenantBlocklist, TenantOperation }

  ghost predicate PassesGlobalRules(info: Summary, p: Params) {
    forall rule | rule !in TENANT_RULES :: !Violates(rule, info, p, map[])
  }

  ghost predicate ViolatesTenant(info: Summary, t: Params) {
    exists rule <- TENANT_RULES :: Violates(rule, info, map[], t)
  }

  /** Without a tenant the rules of a tenant are not violated, and the other rules do not see it. */
  lemma TenantRulesApart(rule: Rule, info: Summary, tenant: string, p: Params, t: Params)
    ensures rule in TENANT_RULES ==>
              && !Violates(rule, info, p, map[])
              && (Violates(rule, info.(tenantId := tenant), p, t) <==> Violates(rule, info, map[], t))
    ensures rule !in TENANT_RULES ==>
              (Violates(rule, info.(tenantId := tenant), p, t) <==> Violates(rule, info, p, map[]))
  {
  }

  lemma RulesSplit(info: Summary, tenant: string, p: Params, t: Params)
    ensures (forall rule :: !Violates(rule, info, p, map[])) <==> PassesGlobalRules(info, p)
    ensures (forall rule :: !Violates(rule, info.(tenantId := tenant), p, t)) <==>
            PassesGlobalRules(info, p) && !ViolatesTenant(info, t)
  {
    forall rule {
      TenantRulesApart(rule, info, tenant, p, t);
    }
  }

  lemma TenantDecides(info: Summary, tenant: string, p: Params, tenants: map<string, Params>)
    requires info.tenantId == "" && WellTyped(p) && WellTyped(TenantParams(info.(tenantId := tenant), tenants))
    ensures Allow(BuildInput(info, p, tenants)) <==> PassesGlobalRules(info, p)
    ensures Allow(BuildInput(info.(tenantId := tenant), p, tenants)) <==>
            PassesGlobalRules(info, p) && !ViolatesTenant(info, TenantParams(info.(tenantId := tenant), tenants))
  {
    AllowedExactly(info, p, tenants);
    AllowedExactly(info.(tenantId := tenant), p, tenants);
    RulesSplit(info, tenant, p, TenantParams(info.(tenantId := tenant), tenants));
  }

  /** A batch evades a tenant exactly when the query passes the schema and all global rules, and violates
      a rule of the tenant. It is never the other way round. */
  lemma BatchEvadesTenantExactly(
    h: Proxy.Handler, d: Deployment, r: Proxy.Request, query: string, tenant: string, n: nat)
    requires ParsesBy(h, d) && EvaluatesBy(h, d) && !d.settings.auditOnly
    requires IsSingle(r, query) && h.parse(query).Some? && h.IsTenantFor(h.parse(query).value, r.apiKey, tenant)
    requires WellTyped(d.params)
    requires WellTyped(TenantParams(h.parse(query).value.(tenantId := tenant), d.tenants))
    ensures var info := h.parse(query).value;
            !h.Cleared(r, n) && h.Cleared(AsBatch(r, query), n) <==>
            && SchemaVerdict(d.settings, info).Accepted?
            && PassesGlobalRules(info, d.params)
            && ViolatesTenant(info, TenantParams(info.(tenantId := tenant), d.tenants))
    ensures h.Cleared(r, n) ==> h.Cleared(AsBatch(r, query), n)
  {
    AloneAndBatched(h, d, r, query, tenant, n);
    TenantDecides(h.parse(query).value, tenant, d.params, d.tenants);
  }

  /** A tenant whose queries are all blocked sends them in a batch: `{ a }` is refused alone and forwarded. */
  lemma BatchEvadesTenant(
    h: Proxy.Handler, d: Deployment, r: Proxy.Request, query: string, tenant: string, secret: string, n: nat)
    requires ParsesBy(h, d) && EvaluatesBy(h, d) && !d.settings.auditOnly && d.settings.schema.None?
    requires d.params == map[] && d.tenants == map[tenant := map["blocked_operations" := Arr([Str("query")])]]
    requires query != "" && d.library(query) == Some(LeafQuery(["a"])) && IsSingle(r, query)
    requires Proxy.HasContent(tenant) && secret != "" && '_' !in secret && r.apiKey == tenant + "_" + secret
    ensures !h.Cleared(r, n) && h.Cleared(AsBatch(r, query), n)
  {
    var info := Summarize(LeafQuery(["a"]), HexText(d.digest(query)));
    assert h.parse(query) == Parsed(query, d.library(query), d.digest(query));
    assert h.parse(query) == Some(info);
    LeafQuerySummary(["a"], HexText(d.digest(query)));
    TenantRulesMatter(info, tenant);
    assert info.(tenantId := "") == info;
    Proxy.TenantOfKey(tenant, secret);
    AloneAndBatched(h, d, r, query, tenant, n);
  }

  // ---------- What is forwarded ----------

  /** The queries that a request sends upstream. */
  function QueriesOf(r: Proxy.Request): seq<string> {
    match r.verb
    case OtherVerb => []
    case Get => [r.getQuery]
    case Post =>
      match r.decoded
      case Malformed => []
      case Single(query) => [query]
      case Batch(queries) => queries
  }

  /** The library parses what the grammar allows, and digests have eight bytes. */
  ghost predicate Grammatical(d: Deployment) {
    forall query ::
      (d.library(query).Some? ==> Written(d.library(query).value)) && |d.digest(query)| == HASH_BYTES
  }

  /** No path is longer, and no operation has more fields, than the limits say. */
  ghost predicate WithinLimits(doc: Document, p: Params) {
    && (forall path <- AllPaths(doc.operations, doc.fragments) :: Within(|path|, p, "depth_limit"))
    && (forall op <- doc.operations :: Within(Measure(FieldCount, op, doc.fragments), p, "max_field_count"))
  }

  ghost predicate TypePermitted(operationType: string, p: Params) {
    && !Listed(p, "blocked_operations", operationType)
    && (Active(p, "allowed_operations") ==> Listed(p, "allowed_operations", operationType))
  }

  ghost predicate CostPermitted(depth: nat, p: Params) {
    Within(depth * depth, p, "cost_budget")
  }

  /** Depth, field count, cost and operation type stay within the params. */
  ghost predicate Bounded(doc: Document, p: Params)
    requires doc.operations != []
  {
    && WithinLimits(doc, p)
    && CostPermitted(Worst(Depth, doc.operations, doc.fragments), p)
    && TypePermitted(TypeName(doc.operations[0].kind), p)
  }

  ghost predicate PathsPermitted(paths: seq<seq<string>>, p: Params) {
    && (forall path <- paths :: !Listed(p, "field_blocklist", Render(path)))
    && (forall path <- paths :: Active(p, "field_allowlist") && |path| == 1 ==> PrefixAllowed(p, path[0]))
    && (forall path <- paths :: forall name <- path ::
          name !in {"__schema", "__type", "__typename", "__isTypeOf", "__resolveReference", "__resolveType",
                    "__TypeKind", "__Field", "__InputValue", "__EnumValue", "__Directive", "__DirectiveLocation"})
  }

  /** An anonymous operation passes the allowlist of names. */
  ghost predicate NamePermitted(name: string, p: Params) {
    && name != "IntrospectionQuery"
    && (name != "" && Active(p, "allowed_operation_names") ==> Listed(p, "allowed_operation_names", name))
  }

  /** Paths and names are those the params permit, and the schema check passes. */
  ghost predicate Conforms(doc: Document, g: Settings, p: Params)
    requires doc.operations != []
  {
    && PathsPermitted(AllPaths(doc.operations, doc.fragments), p)
    && NamePermitted(doc.operations[0].name, p)
    && (g.schema.Some? ==> PassesSchema(doc, g.schema.value))
  }

  /** The structural check of the selection trees finds nothing, from the root type of the first operation. */
  ghost predicate PassesSchema(doc: Document, schema: Schema.SchemaInfo)
    requires doc.operations != []
  {
    var root := Schema.RootType(schema, TypeName(doc.operations[0].kind));
    root.Some? ==> Schema.CheckAll(schema, Schema.At(root.value), doc.operations, doc.fragments).Accepted?
  }

  /** The limits and lists of a tenant. */
  ghost predicate RespectsTenant(doc: Document, t: Params)
    requires doc.operations != []
  {
    && WithinLimits(doc, t)
    && (forall path <- AllPaths(doc.operations, doc.fragments) :: !Listed(t, "field_blocklist", Render(path)))
    && !Listed(t, "blocked_operations", TypeName(doc.operations[0].kind))
  }

  lemma WithinLess(m: nat, n: nat, params: Params, key: string)
    requires m <= n && Within(n, params, key)
    ensures Within(m, params, key)
  {
  }

  lemma LimitsHold(doc: Document, hash: string, p: Params)
    requires doc.operations != []
    requires Within(Worst(Depth, doc.operations, doc.fragments), p, "depth_limit")
    requires Within(Worst(FieldCount, doc.operations, doc.fragments), p, "max_field_count")
    ensures WithinLimits(doc, p)
  {
    var paths := AllPaths(doc.operations, doc.fragments);
    MeasuresFit(doc, hash);
    DeepestIsMaximum(paths);
    forall path | path in paths
      ensures Within(|path|, p, "depth_limit")
    {
      WithinLess(|path|, Worst(Depth, doc.operations, doc.fragments), p, "depth_limit");
    }
    WorstIsMaximum(FieldCount, doc.operations, doc.fragments);
    forall op | op in doc.operations
      ensures Within(Measure(FieldCount, op, doc.fragments), p, "max_field_count")
    {
      WithinLess(Measure(FieldCount, op, doc.fragments), Worst(FieldCount, doc.operations, doc.fragments), p,
                 "max_field_count");
    }
  }

  lemma CostHolds(info: Summary, p: Params, t: Params)
    requires info.depth <= info.fieldCount && !Violates(CostBudget, info, p, t)
    ensures CostPermitted(info.depth, p)
  {
    SquareWithin(info.depth, info.fieldCount);
    WithinLess(info.depth * info.depth, info.depth * info.fieldCount, p, "cost_budget");
  }

  lemma TypeHolds(info: Summary, p: Params, t: Params)
    requires !Violates(BlockedOperation, info, p, t) && !Violates(OperationNotAllowed, info, p, t)
    ensures TypePermitted(info.operationType, p)
  {
  }

  lemma UnviolatedIsBounded(doc: Document, info: Summary, hash: string, p: Params, t: Params)
    requires doc.operations != [] && info.(tenantId := "") == Summarize(doc, hash)
    requires forall rule <- KEY_RULES :: !Violates(rule, info, p, t)
    ensures Bounded(doc, p)
  {
    MeasuresFit(doc, hash);
    assert !Violates(DepthLimit, info, p, t) && !Violates(FieldLimit, info, p, t);
    LimitsHold(doc, hash, p);
    CostHolds(info, p, t);
    TypeHolds(info, p, t);
  }

  lemma PathReported(doc: Document, hash: string, path: seq<string>)
    requires doc.operations != [] && path in AllPaths(doc.operations, doc.fragments)
    ensures Render(path) in Summarize(doc, hash).fieldPaths
  {
    var paths := AllPaths(doc.operations, doc.fragments);
    MeasuresFit(doc, hash);
    RenderAllLength(paths);
    var k :| 0 <= k < |paths| && paths[k] == path;
    assert Summarize(doc, hash).fieldPaths[k] == Render(path);
  }

  lemma BlocklistHolds(doc: Document, hash: string, info: Summary, t: Params)
    requires doc.operations != [] && info.fieldPaths == Summarize(doc, hash).fieldPaths
    requires forall path <- info.fieldPaths :: !Listed(t, "field_blocklist", path)
    ensures forall path <- AllPaths(doc.operations, doc.fragments) :: !Listed(t, "field_blocklist", Render(path))
  {
    forall path | path in AllPaths(doc.operations, doc.fragments)
      ensures !Listed(t, "field_blocklist", Render(path))
    {
      PathReported(doc, hash, path);
    }
  }

  lemma AllowlistHolds(doc: Document, hash: string, info: Summary, p: Params)
    requires doc.operations != [] && info.fieldPaths == Summarize(doc, hash).fieldPaths
    requires Active(p, "field_allowlist") ==> forall path <- info.fieldPaths :: PrefixAllowed(p, path)
    ensures forall path <- AllPaths(doc.operations, doc.fragments) ::
              Active(p, "field_allowlist") && |path| == 1 ==> PrefixAllowed(p, path[0])
  {
    forall path | path in AllPaths(doc.operations, doc.fragments) && |path| == 1 && Active(p, "field_allowlist")
      ensures PrefixAllowed(p, path[0])
    {
      PathReported(doc, hash, path);
      RenderOne(path[0]);
      assert path == [path[0]];
    }
  }

  lemma NoIntrospectionHolds(doc: Document, hash: string, info: Summary, p: Params, t: Params)
    requires doc.operations != [] && WellNamed(doc) && info.fieldPaths == Summarize(doc, hash).fieldPaths
    requires !Violates(IntrospectionField, info, p, t) && !Violates(IntrospectionSuffix, info, p, t)
    ensures forall path <- AllPaths(doc.operations, doc.fragments) :: forall name <- path ::
              name !in {"__schema", "__type", "__typename", "__isTypeOf", "__resolveReference", "__resolveType",
                        "__TypeKind", "__Field", "__InputValue", "__EnumValue", "__Directive", "__DirectiveLocation"}
  {
    var i := InputFor(doc, hash, p, map[]);
    IntrospectionCaughtAnywhere(doc, hash, p, map[]);
    assert Paths(i) == info.fieldPaths;
    assert !Fires(IntrospectionField, i) && !Fires(IntrospectionSuffix, i);
  }

  lemma SchemaHolds(doc: Document, hash: string, info: Summary, g: Settings)
    requires doc.operations != [] && WellNamed(doc) && SchemaVerdict(g, info).Accepted?
    requires info.(tenantId := "") == Summarize(doc, hash)
    ensures g.schema.Some? ==> PassesSchema(doc, g.schema.value)
  {
    if g.schema.Some? {
      Schema.ValidationIsStructural(g.schema.value, doc, hash);
    }
  }

  ghost predicate NothingViolated(info: Summary, p: Params, t: Params) {
    forall rule :: !Violates(rule, info, p, t)
  }

  lemma PathFacts(info: Summary, p: Params, t: Params)
    requires NothingViolated(info, p, t)
    ensures forall path <- info.fieldPaths :: !Listed(p, "field_blocklist", path)
    ensures Active(p, "field_allowlist") ==> forall path <- info.fieldPaths :: PrefixAllowed(p, path)
    ensures forall path <- info.fieldPaths :: !Listed(t, "field_blocklist", path)
  {
    assert !Violates(FieldBlocklist, info, p, t) && !Violates(FieldAllowlist, info, p, t);
    assert !Violates(TenantBlocklist, info, p, t);
  }

  lemma NameFacts(info: Summary, p: Params, t: Params)
    requires NothingViolated(info, p, t)
    ensures NamePermitted(info.operationName, p)
  {
    assert !Violates(IntrospectionName, info, p, t) && !Violates(UnlistedName, info, p, t);
  }

  lemma TenantFacts(info: Summary, p: Params, t: Params)
    requires NothingViolated(info, p, t)
    ensures Within(info.depth, t, "depth_limit") && Within(info.fieldCount, t, "max_field_count")
    ensures !Listed(t, "blocked_operations", info.operationType)
  {
    assert !Violates(TenantDepth, info, p, t) && !Violates(TenantFields, info, p, t);
    assert !Violates(TenantOperation, info, p, t);
  }

  lemma UnviolatedConforms(doc: Document, info: Summary, hash: string, g: Settings, p: Params, t: Params)
    requires doc.operations != [] && WellNamed(doc) && info.(tenantId := "") == Summarize(doc, hash)
    requires NothingViolated(info, p, t) && SchemaVerdict(g, info).Accepted?
    ensures Conforms(doc, g, p)
  {
    PathFacts(info, p, t);
    NameFacts(info, p, t);
    BlocklistHolds(doc, hash, info, p);
    AllowlistHolds(doc, hash, info, p);
    NoIntrospectionHolds(doc, hash, info, p, t);
    SchemaHolds(doc, hash, info, g);
  }

  lemma UnviolatedRespectsTenant(doc: Document, info: Summary, hash: string, p: Params, t: Params)
    requires doc.operations != [] && info.(tenantId := "") == Summarize(doc, hash) && NothingViolated(info, p, t)
    ensures RespectsTenant(doc, t)
  {
    PathFacts(info, p, t);
    TenantFacts(info, p, t);
    LimitsHold(doc, hash, t);
    BlocklistHolds(doc, hash, info, t);
  }

  ghost predicate SettingsTyped(d: Deployment) {
    WellTyped(d.params) && forall tenant | tenant in d.tenants :: WellTyped(d.tenants[tenant])
  }

  /** What is reported of the document is what it really asks for: its paths are permitted, no deeper and no more
      than the limits say, and its fields exist, each as far as the reported measure is the real one. */
  ghost predicate ReallyConforms(doc: Document, g: Settings, p: Params)
    requires doc.operations != []
  {
    && (SamePaths(KeyPaths(doc), RealPaths(doc)) ==> PathsPermitted(RealPaths(doc), p))
    && (DepthsReported(doc) ==> forall path <- RealPaths(doc) :: Within(|path|, p, "depth_limit"))
    && (IsPlain(doc) ==> forall op <- doc.operations ::
          Within(|Requested(op.selections, ROOT, doc.fragments, {})|, p, "max_field_count"))
    && (g.schema.Some? && SamePaths(KeyPaths(doc), RealPaths(doc)) && TypesKept(doc, g.schema.value) ==>
          RealFields.Intended(g.schema.value, doc))
  }

  /** All operations have one type, and no type condition moves to another type than that around it. */
  ghost predicate TypesKept(doc: Document, schema: Schema.SchemaInfo)
    requires doc.operations != []
  {
    forall op <- doc.operations ::
      && TypeName(op.kind) == TypeName(doc.operations[0].kind)
      && RealFields.OperationKeepsTypes(schema, op, doc.fragments)
  }

  lemma RealPathsHold(doc: Document, p: Params)
    requires PathsPermitted(AllPaths(doc.operations, doc.fragments), p)
    ensures SamePaths(KeyPaths(doc), RealPaths(doc)) ==> PathsPermitted(RealPaths(doc), p)
  {
  }

  lemma RealDepthHolds(doc: Document, p: Params)
    requires Within(Worst(Depth, doc.operations, doc.fragments), p, "depth_limit") && DepthsReported(doc)
    ensures forall path <- RealPaths(doc) :: Within(|path|, p, "depth_limit")
  {
    assert doc == Document(doc.operations, doc.fragments);
    RealDepth(doc.operations, doc.fragments);
    DeepestIsMaximum(RealPaths(doc));
    forall path | path in RealPaths(doc)
      ensures Within(|path|, p, "depth_limit")
    {
      WithinLess(|path|, Worst(Depth, doc.operations, doc.fragments), p, "depth_limit");
    }
  }

  lemma RealCountHolds(doc: Document, p: Params)
    requires WithinLimits(doc, p) && IsPlain(doc)
    ensures forall op <- doc.operations ::
              Within(|Requested(op.selections, ROOT, doc.fragments, {})|, p, "max_field_count")
  {
    forall op | op in doc.operations
      ensures Within(|Requested(op.selections, ROOT, doc.fragments, {})|, p, "max_field_count")
    {
      PlainCount(doc, op);
    }
  }

  lemma RealFieldsHold(doc: Document, info: Summary, hash: string, g: Settings)
    requires doc.operations != [] && Written(doc) && info.(tenantId := "") == Summarize(doc, hash)
    requires SchemaVerdict(g, info).Accepted? && SamePaths(KeyPaths(doc), RealPaths(doc))
    requires g.schema.Some? && TypesKept(doc, g.schema.value)
    ensures RealFields.Intended(g.schema.value, doc)
  {
    RealFields.JudgedWhenTypesKept(g.schema.value, doc, hash);
  }

  lemma RealMeasuresHold(doc: Document, info: Summary, hash: string, p: Params, t: Params)
    requires doc.operations != [] && info.(tenantId := "") == Summarize(doc, hash)
    requires !Violates(DepthLimit, info, p, t) && WithinLimits(doc, p)
    ensures DepthsReported(doc) ==> forall path <- RealPaths(doc) :: Within(|path|, p, "depth_limit")
    ensures IsPlain(doc) ==> forall op <- doc.operations ::
              Within(|Requested(op.selections, ROOT, doc.fragments, {})|, p, "max_field_count")
  {
    if DepthsReported(doc) {
      RealDepthHolds(doc, p);
    }
    if IsPlain(doc) {
      RealCountHolds(doc, p);
    }
  }

  lemma UnviolatedReallyConforms(doc: Document, info: Summary, hash: string, g: Settings, p: Params, t: Params)
    requires doc.operations != [] && Written(doc) && info.(tenantId := "") == Summarize(doc, hash)
    requires !Violates(DepthLimit, info, p, t) && SchemaVerdict(g, info).Accepted?
    requires WithinLimits(doc, p) && PathsPermitted(AllPaths(doc.operations, doc.fragments), p)
    ensures ReallyConforms(doc, g, p)
  {
    RealPathsHold(doc, p);
    RealMeasuresHold(doc, info, hash, p, t);
    if g.schema.Some? && SamePaths(KeyPaths(doc), RealPaths(doc)) && TypesKept(doc, g.schema.value) {
      RealFieldsHold(doc, info, hash, g);
    }
  }

  /** The evaluation that let a query of a cleared request through: for the tenant of the key, except in a batch. */
  lemma ClearedEvaluation(h: Proxy.Handler, r: Proxy.Request, n: nat, query: string) returns (tenant: string, m: nat)
    requires h.Cleared(r, n) && query in QueriesOf(r)
    ensures query != "" && h.parse(query).Some?
    ensures h.Judge(h.evaluate(h.parse(query).value.(tenantId := tenant), m)).Forwarded?
    ensures (r.verb.Post? && r.decoded.Batch?) || h.IsTenantFor(h.parse(query).value, r.apiKey, tenant)
  {
    if r.verb.Post? && r.decoded.Batch? {
      var i :| 0 <= i < |r.decoded.queries| && r.decoded.queries[i] == query;
      tenant, m := h.parse(query).value.tenantId, n + i;
      assert h.parse(query).value.(tenantId := tenant) == h.parse(query).value;
    } else {
      m := n;
      tenant :| h.IsTenantFor(h.parse(query).value, r.apiKey, tenant) &&
                h.Judge(h.evaluate(h.parse(query).value.(tenantId := tenant), n)).Forwarded?;
    }
  }

  /** What the schema or the policy does not permit is not let through. */
  ghost predicate Enforces(h: Proxy.Handler, d: Deployment) {
    forall info, n: nat :: h.Judge(h.evaluate(info, n)).Forwarded? ==> Permits(d, info)
  }

  /** The query comes from a document that the library parsed. What is reported of it is within the limits of the
      params, made of permitted fields and operations, free of introspection names, and accepted by the schema;
      what it really asks for is, too, as far as it is what is reported; unless it came in a batch, it also
      respects the tenant of the API key. */
  ghost predicate Complies(d: Deployment, r: Proxy.Request, query: string) {
    var doc := d.library(query);
    && doc.Some? && Acceptable(doc.value)
    && Bounded(doc.value, d.params) && Conforms(doc.value, d.settings, d.params)
    && ReallyConforms(doc.value, d.settings, d.params)
    && (!(r.verb.Post? && r.decoded.Batch?) && r.apiKey != "" ==>
          forall tenant | Proxy.IsTenantOf(r.apiKey, tenant) && tenant in d.tenants && tenant != "" ::
            RespectsTenant(doc.value, d.tenants[tenant]))
  }

  lemma EnforcedComplies(h: Proxy.Handler, d: Deployment, r: Proxy.Request, n: nat, query: string)
    requires ParsesBy(h, d) && Enforces(h, d) && Grammatical(d) && SettingsTyped(d)
    requires h.Cleared(r, n) && query in QueriesOf(r)
    ensures Complies(d, r, query)
  {
    var tenant, m := ClearedEvaluation(h, r, n, query);
    assert h.parse(query) == Parsed(query, d.library(query), d.digest(query));
    var doc, hash := d.library(query).value, HexText(d.digest(query));
    var info := Summarize(doc, hash).(tenantId := tenant);
    var t := TenantParams(info, d.tenants);
    assert info.(tenantId := "") == Summarize(doc, hash);
    AllowedExactly(info, d.params, d.tenants);
    assert NothingViolated(info, d.params, t);
    UnviolatedIsBounded(doc, info, hash, d.params, t);
    UnviolatedConforms(doc, info, hash, d.settings, d.params, t);
    UnviolatedReallyConforms(doc, info, hash, d.settings, d.params, t);
    UnviolatedRespectsTenant(doc, info, hash, d.params, t);
    if !(r.verb.Post? && r.decoded.Batch?) && r.apiKey != "" {
      forall other | Proxy.IsTenantOf(r.apiKey, other)
        ensures other == tenant
      {
        Proxy.TenantUnique(r.apiKey, tenant, other);
      }
    }
  }

  /** With caching off and an engine that never fails, every query that is forwarded complies. */
  lemma ForwardedComplies(h: Proxy.Handler, d: Deployment, r: Proxy.Request, n: nat, query: string)
    requires ParsesBy(h, d) && EvaluatesBy(h, d) && Grammatical(d) && SettingsTyped(d) && !d.settings.auditOnly
    requires h.Cleared(r, n) && query in QueriesOf(r)
    ensures Complies(d, r, query)
  {
    forall info, n: nat
      ensures h.Judge(h.evaluate(info, n)).Forwarded? ==> Permits(d, info)
    {
      PermitsMeans(h, d, info, n);
    }
    EnforcedComplies(h, d, r, n, query);
  }

  // ---------- When the engine may fail ----------

  /** The engine that gives this outcome whatever it is asked. */
  function Always(outcome: Outcome): Summary -> Outcome {
    (_: Summary) => outcome
  }

  /** The evaluator gives this answer when the engine gives this outcome. */
  ghost predicate GivenWith(d: Deployment, info: Summary, outcome: Outcome, evaluation: Proxy.Evaluation) {
    exists cache, lookupAt, storeAt ::
      evaluation == Told(Sequential(d.settings, cache, info, Always(outcome), lookupAt, storeAt).0)
  }

  /** Caching is off, and the n-th evaluation gets the n-th outcome of the engine, which may be a failure. */
  ghost predicate EvaluatesWith(h: Proxy.Handler, d: Deployment, engine: (Summary, nat) -> Outcome) {
    d.settings.ttl <= 0.0 && forall info, n: nat :: GivenWith(d, info, engine(info, n), h.evaluate(info, n))
  }

  /** What an evaluation makes of the outcome of the engine. */
  lemma OutcomeMeans(
    h: Proxy.Handler, d: Deployment, engine: (Summary, nat) -> Outcome, info: Summary, n: nat)
    requires EvaluatesWith(h, d, engine) && !d.settings.auditOnly
    ensures h.Judge(h.evaluate(info, n)).Forwarded? <==>
            && SchemaVerdict(d.settings, info).Accepted?
            && match engine(info, n)
               case EngineError => !d.settings.failClosed
               case Answered(decision) => decision.allowed
  {
    assert GivenWith(d, info, engine(info, n), h.evaluate(info, n));
    var cache, lookupAt, storeAt :| h.evaluate(info, n) ==
      Told(Sequential(d.settings, cache, info, Always(engine(info, n)), lookupAt, storeAt).0);
    if SchemaVerdict(d.settings, info).Accepted? && engine(info, n).EngineError? {
      SequentialFailure(d.settings, cache, info, Always(engine(info, n)), lookupAt, storeAt);
    }
  }

  /** When the evaluator fails closed, everything that is forwarded was answered as allowed, however often the
      engine fails. */
  lemma FailClosedForwardsAnswered(
    h: Proxy.Handler, d: Deployment, engine: (Summary, nat) -> Outcome, r: Proxy.Request, n: nat, query: string)
    returns (tenant: string, m: nat)
    requires EvaluatesWith(h, d, engine) && d.settings.failClosed && !d.settings.auditOnly
    requires h.Cleared(r, n) && query in QueriesOf(r)
    ensures h.parse(query).Some?
    ensures var outcome := engine(h.parse(query).value.(tenantId := tenant), m);
            outcome.Answered? && outcome.decision.allowed
  {
    tenant, m := ClearedEvaluation(h, r, n, query);
    OutcomeMeans(h, d, engine, h.parse(query).value.(tenantId := tenant), m);
  }

  /** The engine fails or answers by the policy. */
  ghost predicate AnswersByPolicy(d: Deployment, engine: (Summary, nat) -> Outcome) {
    forall info, n: nat ::
      engine(info, n).EngineError? || engine(info, n) == Outcome.Answered(Decide(d.params, d.tenants)(info))
  }

  /** Then every query that is forwarded complies, as it would with an engine that never fails. */
  lemma FailClosedComplies(
    h: Proxy.Handler, d: Deployment, engine: (Summary, nat) -> Outcome, r: Proxy.Request, n: nat, query: string)
    requires ParsesBy(h, d) && EvaluatesWith(h, d, engine) && AnswersByPolicy(d, engine) && d.settings.failClosed
    requires Grammatical(d) && SettingsTyped(d) && !d.settings.auditOnly
    requires h.Cleared(r, n) && query in QueriesOf(r)
    ensures Complies(d, r, query)
  {
    forall info, n: nat
      ensures h.Judge(h.evaluate(info, n)).Forwarded? ==> Permits(d, info)
    {
      OutcomeMeans(h, d, engine, info, n);
      assert engine(info, n).EngineError? || engine(info, n) == Outcome.Answered(Decide(d.params, d.tenants)(info));
    }
    EnforcedComplies(h, d, r, n, query);
  }

  /** With an engine that always fails, a query alone is forwarded exactly when the evaluator fails open, the query
      was parsed, and the schema accepts it. */
  lemma EngineDownExactly(
    h: Proxy.Handler, d: Deployment, engine: (Summary, nat) -> Outcome, r: Proxy.Request, query: string, n: nat)
    requires EvaluatesWith(h, d, engine) && !d.settings.auditOnly && IsSingle(r, query)
    requires forall info, n: nat :: engine(info, n).EngineError?
    ensures h.Cleared(r, n) <==>
            && !d.settings.failClosed
            && query != "" && h.parse(query).Some? && SchemaVerdict(d.settings, h.parse(query).value).Accepted?
  {
    if h.parse(query).Some? {
      var info := h.parse(query).value;
      forall tenant
        ensures h.Judge(h.evaluate(info.(tenantId := tenant), n)).Forwarded? <==>
                !d.settings.failClosed && SchemaVerdict(d.settings, info).Accepted?
      {
        OutcomeMeans(h, d, engine, info.(tenantId := tenant), n);
        assert engine(info.(tenantId := tenant), n).EngineError?;
      }
      var tenant := if r.apiKey == "" then info.tenantId else Proxy.SomeTenant(r.apiKey, 0);
      assert h.IsTenantFor(info, r.apiKey, tenant);
    }
  }

  // ---------- With the cache ----------

  /** Every evaluation of an analysed query is that of a finished call in some run of the evaluator under the
      policy. */
  ghost predicate EvaluatesInRuns(h: Proxy.Handler, d: Deployment) {
    forall info, n: nat | info in AnalysedQueries() :: InSomeRun(d, info, h.evaluate(info, n))
  }

  ghost predicate InSomeRun(d: Deployment, info: Summary, evaluation: Proxy.Evaluation) {
    exists steps, id :: FinishedWith(d, steps, id, info, evaluation)
  }

  ghost predicate FinishedWith(
    d: Deployment, steps: seq<Step>, id: nat, info: Summary, evaluation: Proxy.Evaluation)
  {
    && FinishedIn(d, steps, id, info, evaluation)
    && Follows(d.settings, steps, Decide(d.params, d.tenants), AnalysedQueries())
  }

  /** The call finished in the run with this answer, however the engine behaved. */
  ghost predicate FinishedIn(d: Deployment, steps: seq<Step>, id: nat, info: Summary, evaluation: Proxy.Evaluation) {
    && Possible(d.settings, steps) && id in Run(d.settings, steps).calls
    && var phase := Run(d.settings, steps).calls[id];
       phase.Done? && phase.info == info && evaluation == Told(phase.decision)
  }

  /** When the evaluator fails closed, everything that is forwarded was answered as allowed in the run that let it
      through, for itself or for a query with the same key, whatever the TTL and however often the engine fails. */
  lemma FailClosedDespiteCache(h: Proxy.Handler, d: Deployment, r: Proxy.Request, n: nat, query: string)
    returns (tenant: string, m: nat, steps: seq<Step>, id: nat, asked: nat)
    requires forall info, n: nat :: exists steps, id :: FinishedIn(d, steps, id, info, h.evaluate(info, n))
    requires d.settings.failClosed && !d.settings.auditOnly && h.Cleared(r, n) && query in QueriesOf(r)
    ensures h.parse(query).Some?
    ensures var info := h.parse(query).value.(tenantId := tenant);
            && FinishedIn(d, steps, id, info, h.evaluate(info, m))
            && var s := Run(d.settings, steps);
               && asked in s.answers && s.answers[asked].Answered? && s.answers[asked].decision.allowed
               && asked in s.calls && Key(s.calls[asked].info) == Key(info)
  {
    tenant, m := ClearedEvaluation(h, r, n, query);
    var info := h.parse(query).value.(tenantId := tenant);
    steps, id :| FinishedIn(d, steps, id, info, h.evaluate(info, m));
    asked := AllowedWasAnswered(d.settings, steps, id);
  }

  lemma CachedAllowance(h: Proxy.Handler, d: Deployment, info: Summary, n: nat, rule: Rule)
    requires EvaluatesInRuns(h, d) && !d.settings.auditOnly && info in AnalysedQueries() && rule in KEY_RULES
    requires h.Judge(h.evaluate(info, n)).Forwarded?
    ensures !Fires(rule, BuildInput(info, d.params, d.tenants))
  {
    assert InSomeRun(d, info, h.evaluate(info, n));
    var steps, id :| FinishedWith(d, steps, id, info, h.evaluate(info, n));
    KeyRulesSurviveCaching(d.settings, steps, d.params, d.tenants, id, rule);
  }

  lemma CachedRulesHold(h: Proxy.Handler, d: Deployment, info: Summary, m: nat)
    requires EvaluatesInRuns(h, d) && SettingsTyped(d) && !d.settings.auditOnly && info in AnalysedQueries()
    requires h.Judge(h.evaluate(info, m)).Forwarded?
    ensures forall rule <- KEY_RULES :: !Violates(rule, info, d.params, TenantParams(info, d.tenants))
  {
    forall rule | rule in KEY_RULES
      ensures !Violates(rule, info, d.params, TenantParams(info, d.tenants))
    {
      CachedAllowance(h, d, info, m, rule);
      RuleMeans(rule, info, d.params, d.tenants);
    }
  }

  lemma DepthReally(doc: Document, info: Summary, hash: string, p: Params, t: Params)
    requires doc.operations != [] && info.(tenantId := "") == Summarize(doc, hash)
    requires !Violates(DepthLimit, info, p, t) && DepthsReported(doc)
    ensures forall path <- RealPaths(doc) :: Within(|path|, p, "depth_limit")
  {
    RealDepthHolds(doc, p);
  }

  /** With the cache on as well, whatever the TTL and the other calls, what is reported of every query that is
      forwarded stays within the limits on depth, field count and cost, and its operation type is permitted;
      the real depth is within the limit too where it is the reported one. */
  lemma ForwardedIsBoundedDespiteCache(h: Proxy.Handler, d: Deployment, r: Proxy.Request, n: nat, query: string)
    requires ParsesBy(h, d) && EvaluatesInRuns(h, d) && Grammatical(d) && SettingsTyped(d) && !d.settings.auditOnly
    requires h.Cleared(r, n) && query in QueriesOf(r)
    ensures var doc := d.library(query);
            && doc.Some? && Acceptable(doc.value) && Bounded(doc.value, d.params)
            && (DepthsReported(doc.value) ==>
                  forall path <- RealPaths(doc.value) :: Within(|path|, d.params, "depth_limit"))
  {
    var tenant, m := ClearedEvaluation(h, r, n, query);
    assert h.parse(query) == Parsed(query, d.library(query), d.digest(query));
    var doc := d.library(query).value;
    var info := Analysis(doc, d.digest(query), tenant);
    IsAnalysed(info, doc, d.digest(query), tenant);
    CachedRulesHold(h, d, info, m);
    UnviolatedIsBounded(doc, info, HexText(d.digest(query)), d.params, TenantParams(info, d.tenants));
    if DepthsReported(doc) {
      assert DepthLimit in KEY_RULES;
      DepthReally(doc, info, HexText(d.digest(query)), d.params, TenantParams(info, d.tenants));
    }
  }

  // ---------- Forwarded though it asks for what is not permitted ----------

  lemma PermittedIsCleared(h: Proxy.Handler, d: Deployment, r: Proxy.Request, query: string, doc: Document, n: nat)
    requires ParsesBy(h, d) && EvaluatesBy(h, d) && !d.settings.auditOnly && d.settings.schema.None?
    requires IsSingle(r, query) && r.apiKey == "" && query != "" && d.library(query) == Some(doc) && Acceptable(doc)
    ensures h.Cleared(r, n) <==> Allow(InputFor(doc, HexText(d.digest(query)), d.params, d.tenants))
  {
    assert h.parse(query) == Parsed(query, d.library(query), d.digest(query));
    var info := h.parse(query).value;
    SingleMeans(h, d, query, r.apiKey, info.tenantId, n);
    assert info.(tenantId := info.tenantId) == info;
  }

  /** A blocked field, or one for introspection, is forwarded under an alias: `{ alias: name }`. */
  lemma AliasedFieldForwarded(
    h: Proxy.Handler, d: Deployment, r: Proxy.Request, query: string, alias: string, name: string, n: nat)
    requires ParsesBy(h, d) && EvaluatesBy(h, d) && !d.settings.auditOnly && d.settings.schema.None?
    requires IsSingle(r, query) && r.apiKey == "" && query != "" && d.library(query) == Some(AliasedQuery(alias, name))
    requires IsName(alias) && alias != name && alias !in INTROSPECTION && OnlyBlocks(d.params, name)
    ensures h.Cleared(r, n) && RealPaths(AliasedQuery(alias, name)) == [[name]]
  {
    AliasHidesField(alias, name, HexText(d.digest(query)), d.params, d.tenants);
    PermittedIsCleared(h, d, r, query, AliasedQuery(alias, name), n);
  }

  /** A blocked root field off the allowlist is forwarded behind a deeper spread of the same fragment. */
  lemma RepeatedFieldForwarded(
    h: Proxy.Handler, d: Deployment, r: Proxy.Request, query: string, x: string, y: string, fragment: string,
    typeCondition: string, n: nat)
    requires ParsesBy(h, d) && EvaluatesBy(h, d) && !d.settings.auditOnly && d.settings.schema.None?
    requires IsSingle(r, query) && r.apiKey == "" && query != ""
    requires d.library(query) == Some(TwiceSpread(x, y, fragment, typeCondition))
    requires IsName(x) && IsName(y) && x != y && x !in INTROSPECTION && y !in INTROSPECTION && OnlyTwo(d.params, x, y)
    ensures h.Cleared(r, n) && [y] in RealPaths(TwiceSpread(x, y, fragment, typeCondition))
  {
    RepeatedSpreadHidesField(x, y, fragment, typeCondition, HexText(d.digest(query)), d.params, d.tenants);
    PermittedIsCleared(h, d, r, query, TwiceSpread(x, y, fragment, typeCondition), n);
  }
}
