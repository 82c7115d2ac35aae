/** The Rego policy as a predicate over its input document, and what it means for analysed queries. */
module Policy {
  import opened Ast
  import opened Analyzer

  // ---------- Rego values ----------

  datatype Json =
    | Null | Bool(b: bool) | Num(n: real) | Str(s: string) | Arr(items: seq<Json>) | Obj(fields: map<string, Json>)

  /** An object of parameters; an absent key is undefined. */
  type Params = map<string, Json>

  function Get(params: Params, key: string): Option<Json> {
    if key in params then Some(params[key]) else None
  }

  /** A bare reference succeeds unless it is undefined or false. */
  predicate Truthy(v: Option<Json>) {
    v.Some? && v.value != Bool(false)
  }

  /** A number against any value: null and booleans sort below numbers, strings and collections above. */
  predicate Exceeds(n: int, v: Option<Json>) {
    v.Some? &&
    match v.value
    case Null => true
    case Bool(_) => true
    case Num(limit) => n as real > limit
    case Str(_) => false
    case Arr(_) => false
    case Obj(_) => false
  }

  predicate Over(measure: Option<int>, limit: Option<Json>) {
    measure.Some? && Exceeds(measure.value, limit)
  }

  /** Membership as `some x in v` enumerates it. */
  predicate Contains(v: Option<Json>, x: string) {
    v.Some? &&
    match v.value
    case Arr(items) => Str(x) in items
    case Obj(fields) => exists key | key in fields :: fields[key] == Str(x)
    case _ => false
  }

  /** Some string in `v` is a prefix of `path`. */
  predicate PrefixListed(v: Option<Json>, path: string) {
    v.Some? &&
    match v.value
    case Arr(items) => exists item | item in items :: item.Str? && item.s <= path
    case Obj(fields) => exists key | key in fields :: fields[key].Str? && fields[key].s <= path
    case _ => false
  }

  /** `count(v) > 0`; undefined, hence false, for what cannot be counted. */
  predicate CountsPositive(v: Option<Json>) {
    v.Some? &&
    match v.value
    case Str(s) => s != ""
    case Arr(items) => items != []
    case Obj(fields) => fields != map[]
    case _ => false
  }

  // ---------- The input document ----------

  /** None stands for undefined or null. */
  datatype Input = Input(
    operationType: string, operationName: Option<string>, depth: Option<int>, fieldCount: Option<int>,
    fieldPaths: Option<seq<string>>, directives: Option<int>, batchSize: Option<int>, argumentDepth: Option<int>,
    listsRequested: Option<int>, fragmentSpreadCount: Option<int>, queryHash: Option<string>,
    params: Params, tenantConfig: Params)

  function OmitZero(n: nat): Option<int> {
    if n == 0 then None else Some(n)
  }

  function OmitEmpty(s: string): Option<string> {
    if s == "" then None else Some(s)
  }

  /** Zero measures and empty strings are left out of the document. */
  function BuildInput(info: Summary, params: Params, tenants: map<string, Params>): Input {
    Input(info.operationType, OmitEmpty(info.operationName), Some(info.depth), Some(info.fieldCount),
          Some(info.fieldPaths), OmitZero(info.directives), OmitZero(info.batchSize), OmitZero(info.argumentDepth),
          OmitZero(info.listsRequested), OmitZero(info.fragmentSpreadCount), OmitEmpty(info.queryHash), params,
          if info.tenantId != "" && info.tenantId in tenants then tenants[info.tenantId] else map[])
  }

  // ---------- The rules ----------

  const INTROSPECTION := {
    "__schema", "__type", "__typename", "__isTypeOf", "__resolveReference", "__resolveType", "__TypeKind",
    "__Field", "__InputValue", "__EnumValue", "__Directive", "__DirectiveLocation" }

  predicate EndsWith(s: string, suffix: string) {
    |suffix| <= |s| && s[|s| - |suffix|..] == suffix
  }

  function Paths(i: Input): seq<string> {
    if i.fieldPaths.Some? then i.fieldPaths.value else []
  }

  predicate OnAllowlist(list: Option<Json>, path: string) {
    Contains(list, path) || PrefixListed(list, path)
  }

  datatype Rule =
    | MissingField | IntrospectionName | IntrospectionField | IntrospectionSuffix | DepthLimit | FieldLimit
    | DirectiveLimit | BatchLimit | FieldBlocklist | FieldAllowlist | BlockedOperation | OperationNotAllowed
    | AnonymousOperation | UnlistedName | ArgumentLimit | ListLimit | SpreadLimit | CostBudget
    | PersistedUndefined | PersistedEmpty | PersistedNoHash
    | TenantDepth | TenantFields | TenantBlocklist | TenantOperation

  /** The condition of each deny rule. */
  predicate Fires(rule: Rule, i: Input) {
    var p, t := i.params, i.tenantConfig;
    match rule
    case MissingField => i.depth.None? || i.fieldCount.None? || i.fieldPaths.None?
    case IntrospectionName => i.operationName == Some("IntrospectionQuery")
    case IntrospectionField => exists f | f in INTROSPECTION :: f in Paths(i)
    case IntrospectionSuffix => exists f | f in INTROSPECTION :: exists path <- Paths(i) :: EndsWith(path, "." + f)
    case DepthLimit => Over(i.depth, Get(p, "depth_limit"))
    case FieldLimit => Over(i.fieldCount, Get(p, "max_field_count"))
    case DirectiveLimit => Truthy(Get(p, "max_directives")) && Over(i.directives, Get(p, "max_directives"))
    case BatchLimit => Truthy(Get(p, "max_batch_size")) && Over(i.batchSize, Get(p, "max_batch_size"))
    case FieldBlocklist => exists path <- Paths(i) :: Contains(Get(p, "field_blocklist"), path)
    case FieldAllowlist =>
      CountsPositive(Get(p, "field_allowlist")) &&
      exists path <- Paths(i) :: !OnAllowlist(Get(p, "field_allowlist"), path)
    case BlockedOperation => Contains(Get(p, "blocked_operations"), i.operationType)
    case OperationNotAllowed =>
      CountsPositive(Get(p, "allowed_operations")) && !Contains(Get(p, "allowed_operations"), i.operationType)
    case AnonymousOperation => CountsPositive(Get(p, "allowed_operation_names")) && i.operationName == Some("")
    case UnlistedName =>
      CountsPositive(Get(p, "allowed_operation_names")) && i.operationName.Some? && i.operationName.value != "" &&
      !Contains(Get(p, "allowed_operation_names"), i.operationName.value)
    case ArgumentLimit =>
      Truthy(Get(p, "max_argument_depth")) && Over(i.argumentDepth, Get(p, "max_argument_depth"))
    case ListLimit => Truthy(Get(p, "max_lists_requested")) && Over(i.listsRequested, Get(p, "max_lists_requested"))
    case SpreadLimit =>
      Truthy(Get(p, "max_fragment_spreads")) && Over(i.fragmentSpreadCount, Get(p, "max_fragment_spreads"))
    case CostBudget =>
      Truthy(Get(p, "cost_budget")) && i.depth.Some? && i.fieldCount.Some? &&
      Exceeds(i.depth.value * i.fieldCount.value, Get(p, "cost_budget"))
    case PersistedUndefined =>
      Get(p, "require_persisted_queries") == Some(Bool(true)) && i.operationName.None? && i.queryHash.None?
    case PersistedEmpty =>
      Get(p, "require_persisted_queries") == Some(Bool(true)) && i.operationName == Some("") && i.queryHash == Some("")
    case PersistedNoHash =>
      Get(p, "require_persisted_queries") == Some(Bool(true)) && i.operationName.Some? && i.queryHash.None?
    case TenantDepth => Truthy(Get(t, "depth_limit")) && Over(i.depth, Get(t, "depth_limit"))
    case TenantFields => Truthy(Get(t, "max_field_count")) && Over(i.fieldCount, Get(t, "max_field_count"))
    case TenantBlocklist => exists path <- Paths(i) :: Contains(Get(t, "field_blocklist"), path)
    case TenantOperation => Contains(Get(t, "blocked_operations"), i.operationType)
  }

  /** Allowed exactly when no deny rule fires. */
  ghost predicate Allow(i: Input) {
    forall rule :: !Fires(rule, i)
  }

  // ---------- Monotonicity ----------

  ghost predicate Grows(a: Option<int>, b: Option<int>) {
    a.Some? ==> b.Some? && a.value <= b.value
  }

  /** The same required measure, at least as large. */
  ghost predicate GrowsDefined(a: Option<int>, b: Option<int>) {
    && (a.Some? <==> b.Some?)
    && (a.Some? ==> 0 <= a.value <= b.value)
  }

  /** A newly set limit, the same one, or a lower number. */
  ghost predicate LimitTightens(a: Option<Json>, b: Option<Json>) {
    a.None? || a == b || (a.value.Num? && b.Some? && b.value.Num? && b.value.n <= a.value.n)
  }

  ghost predicate ListExtends(a: Option<Json>, b: Option<Json>) {
    forall x :: Contains(a, x) ==> Contains(b, x)
  }

  const LIMITS := {
    "depth_limit", "max_field_count", "max_directives", "max_batch_size", "max_argument_depth",
    "max_lists_requested", "max_fragment_spreads", "cost_budget" }

  const BLOCKLISTS := { "field_blocklist", "blocked_operations" }

  const FIXED := { "field_allowlist", "allowed_operations", "allowed_operation_names", "require_persisted_queries" }

  ghost predicate ParamsTighten(a: Params, b: Params) {
    && (forall key | key in LIMITS :: LimitTightens(Get(a, key), Get(b, key)))
    && (forall key | key in BLOCKLISTS :: ListExtends(Get(a, key), Get(b, key)))
    && (forall key | key in FIXED :: Get(a, key) == Get(b, key))
  }

  /** A tenant configuration has no fixed settings; an absent one is tightened by any other. */
  ghost predicate TenantTightens(a: Params, b: Params) {
    && (forall key | key in LIMITS :: LimitTightens(Get(a, key), Get(b, key)))
    && (forall key | key in BLOCKLISTS :: ListExtends(Get(a, key), Get(b, key)))
  }

  /** `b` asks for at least as much as `a`, under settings at least as strict. */
  ghost predicate MoreDemanding(a: Input, b: Input) {
    && a.operationType == b.operationType && a.operationName == b.operationName && a.queryHash == b.queryHash
    && GrowsDefined(a.depth, b.depth) && GrowsDefined(a.fieldCount, b.fieldCount)
    && (a.fieldPaths.Some? <==> b.fieldPaths.Some?) && (forall path | path in Paths(a) :: path in Paths(b))
    && Grows(a.directives, b.directives) && Grows(a.batchSize, b.batchSize)
    && Grows(a.argumentDepth, b.argumentDepth) && Grows(a.listsRequested, b.listsRequested)
    && Grows(a.fragmentSpreadCount, b.fragmentSpreadCount)
    && ParamsTighten(a.params, b.params) && TenantTightens(a.tenantConfig, b.tenantConfig)
  }

  lemma LimitRulesMonotone(a: Input, b: Input, rule: Rule)
    requires MoreDemanding(a, b) && Fires(rule, a)
    requires rule in {DepthLimit, FieldLimit, DirectiveLimit, BatchLimit, ArgumentLimit, ListLimit, SpreadLimit}
    ensures Fires(rule, b)
  {
  }

  lemma ListRulesMonotone(a: Input, b: Input, rule: Rule)
    requires MoreDemanding(a, b) && Fires(rule, a)
    requires rule in {FieldBlocklist, TenantBlocklist, BlockedOperation, TenantOperation}
    ensures Fires(rule, b)
  {
  }

  lemma ProductGrows(d: int, f: int, d': int, f': int)
    requires 0 <= d <= d' && 0 <= f <= f'
    ensures d * f <= d' * f'
  {
    assert d * f <= d * f' <= d' * f';
  }

  lemma CostRuleMonotone(a: Input, b: Input)
    requires MoreDemanding(a, b) && Fires(CostBudget, a)
    ensures Fires(CostBudget, b)
  {
    ProductGrows(a.depth.value, a.fieldCount.value, b.depth.value, b.fieldCount.value);
  }

  lemma TenantLimitsMonotone(a: Input, b: Input, rule: Rule)
    requires MoreDemanding(a, b) && Fires(rule, a) && rule in {TenantDepth, TenantFields}
    ensures Fires(rule, b)
  {
  }

  lemma PathRulesMonotone(a: Input, b: Input, rule: Rule)
    requires MoreDemanding(a, b) && Fires(rule, a)
    requires rule in {FieldAllowlist, IntrospectionSuffix, IntrospectionField}
    ensures Fires(rule, b)
  {
  }

  /** Each rule that fires still fires on a more demanding input. */
  lemma RulesMonotone(a: Input, b: Input, rule: Rule)
    requires MoreDemanding(a, b) && Fires(rule, a)
    ensures Fires(rule, b)
  {
    if rule in {DepthLimit, FieldLimit, DirectiveLimit, BatchLimit, ArgumentLimit, ListLimit, SpreadLimit} {
      LimitRulesMonotone(a, b, rule);
    } else if rule in {FieldBlocklist, TenantBlocklist, BlockedOperation, TenantOperation} {
      ListRulesMonotone(a, b, rule);
    } else if rule in {FieldAllowlist, IntrospectionSuffix, IntrospectionField} {
      PathRulesMonotone(a, b, rule);
    } else if rule in {TenantDepth, TenantFields} {
      TenantLimitsMonotone(a, b, rule);
    } else if rule.CostBudget? {
      CostRuleMonotone(a, b);
    } else {
      assert forall key | key in FIXED :: Get(a.params, key) == Get(b.params, key);
    }
  }

  /** Asking for more, or under stricter settings, never turns a denial into an allowance. */
  lemma DenialIsMonotone(a: Input, b: Input)
    requires MoreDemanding(a, b) && !Allow(a)
    ensures !Allow(b)
  {
    var rule :| Fires(rule, a);
    RulesMonotone(a, b, rule);
  }
}
