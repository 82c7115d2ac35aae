/** What the policy enforces on analysed queries. */
module Enforcement {
  import opened Ast
  import opened Text
  import opened Counters
  import opened Analyzer
  import opened CacheKey
  import opened Policy

  ghost function InputFor(doc: Document, hash: string, params: Params, tenants: map<string, Params>): Input
    requires doc.operations != []
  {
    BuildInput(Summarize(doc, hash), params, tenants)
  }

  // ---------- Cost ----------

  lemma SquareWithin(d: nat, f: nat)
    requires d <= f
    ensures d * d <= d * f
  {
  }

  lemma SpreadOverBatch(d: nat, n: nat, batch: nat, f: nat)
    requires n <= batch * f
    ensures d * n <= batch * (d * f)
  {
  }

  /** Under a numeric cost budget, every allowed request has depth squared within the budget,
      and depth times its number of paths within the budget of the whole batch. */
  lemma AllowedCostsWithinBudget(
    doc: Document, hash: string, params: Params, tenants: map<string, Params>, budget: real)
    requires doc.operations != [] && Get(params, "cost_budget") == Some(Num(budget))
    requires Allow(InputFor(doc, hash, params, tenants))
    ensures var s := Summarize(doc, hash);
            && (s.depth * s.depth) as real <= (s.depth * s.fieldCount) as real <= budget
            && s.depth * |s.fieldPaths| <= s.batchSize * (s.depth * s.fieldCount)
  {
    var s := Summarize(doc, hash);
    MeasuresFit(doc, hash);
    SquareWithin(s.depth, s.fieldCount);
    SpreadOverBatch(s.depth, |s.fieldPaths|, s.batchSize, s.fieldCount);
    assert !Fires(CostBudget, InputFor(doc, hash, params, tenants));
  }

  // ---------- Allowlist ----------

  lemma AllowlistExtends(list: Option<Json>, path: string, longer: string)
    requires OnAllowlist(list, path) && path <= longer
    ensures OnAllowlist(list, longer)
  {
  }

  /** Every path has its root, the one-name path it starts with, in the list. */
  lemma {:induction false} RootListed(paths: seq<seq<string>>, i: nat)
    requires ParentsFirst(paths, []) && i < |paths|
    ensures paths[i] != [] && [paths[i][0]] in paths
    decreases i
  {
    assert HasParent(paths, [], i);
    if |paths[i]| == 1 {
      assert paths[i] == [paths[i][0]];
    } else {
      var j :| 0 <= j < i && paths[j] == paths[i][..|paths[i]| - 1];
      RootListed(paths, j);
    }
  }

  /** The allowlist rule fires on a query exactly when it fires on the names of its root fields. */
  lemma AllowlistDecidedAtRoots(doc: Document, hash: string, params: Params, tenants: map<string, Params>)
    requires doc.operations != [] && WellNamed(doc)
    ensures var list := Get(params, "field_allowlist");
            Fires(FieldAllowlist, InputFor(doc, hash, params, tenants)) <==>
            && CountsPositive(list)
            && exists path <- AllPaths(doc.operations, doc.fragments) :: |path| == 1 && !OnAllowlist(list, path[0])
  {
    var list, paths := Get(params, "field_allowlist"), AllPaths(doc.operations, doc.fragments);
    var i := InputFor(doc, hash, params, tenants);
    MeasuresFit(doc, hash);
    AllPathsNamed(doc.operations, doc.fragments);
    RenderAllLength(paths);
    if Fires(FieldAllowlist, i) {
      var text :| text in Paths(i) && !OnAllowlist(list, text);
      var k :| 0 <= k < |Paths(i)| && Paths(i)[k] == text;
      RootOffAllowlist(paths, k, list);
    }
    if path :| path in paths && |path| == 1 && !OnAllowlist(list, path[0]) {
      var k :| 0 <= k < |paths| && paths[k] == path;
      RenderOne(path[0]);
      assert path == [path[0]];
      assert Paths(i)[k] == path[0];
    }
  }

  /** A path that is not on the allowlist has a root that is not. */
  lemma RootOffAllowlist(paths: seq<seq<string>>, k: nat, list: Option<Json>)
    requires ParentsFirst(paths, []) && PathsNamed(paths) && k < |paths| && !OnAllowlist(list, Render(paths[k]))
    ensures exists path <- paths :: |path| == 1 && !OnAllowlist(list, path[0])
  {
    RootListed(paths, k);
    assert paths[k] in paths;
    var root := [paths[k][0]];
    RenderPrefix(paths[k], 1);
    assert paths[k][..1] == root;
    RenderOne(root[0]);
    if OnAllowlist(list, root[0]) {
      AllowlistExtends(list, root[0], Render(paths[k]));
    }
    assert root in paths && |root| == 1;
  }

  lemma RenderOne(name: string)
    ensures Render([name]) == name
  {
  }

  // ---------- Introspection ----------

  lemma IntrospectionNames(f: string)
    requires f in INTROSPECTION
    ensures IsName(f)
  {
  }

  lemma LastNameEnds(path: seq<string>, f: string)
    requires |path| > 1 && AreNames(path) && path[|path| - 1] == f
    ensures EndsWith(Render(path), "." + f)
  {
    var text, init := Render(path), Render(path[..|path| - 1]);
    RenderNonEmpty(path[..|path| - 1]);
    assert text == init + ("." + f);
    assert text[|init|..] == "." + f;
  }

  lemma EndIsLastName(path: seq<string>, f: string)
    requires path != [] && AreNames(path) && IsName(f) && EndsWith(Render(path), "." + f)
    ensures |path| > 1 && path[|path| - 1] == f
  {
    var text := Render(path);
    var before := text[..|text| - |f| - 1];
    assert text == before + text[|before|..];
    assert text == before + ['.'] + f;
    SplitRender(path);
    SplitPiece(f, '.');
    SplitConcat(before, '.', f);
  }

  lemma CaughtMeansPresent(paths: seq<seq<string>>, i: Input)
    requires Paths(i) == RenderAll(paths) && PathsNamed(paths) && ParentsFirst(paths, [])
    requires Fires(IntrospectionField, i) || Fires(IntrospectionSuffix, i)
    ensures exists path, f :: path in paths && f in INTROSPECTION && f in path
  {
    RenderAllLength(paths);
    var f, text :| f in INTROSPECTION && text in Paths(i) && (text == f || EndsWith(text, "." + f));
    IntrospectionNames(f);
    var k :| 0 <= k < |paths| && Paths(i)[k] == text;
    assert HasParent(paths, [], k) && AreNames(paths[k]);
    if text == f {
      RenderOne(f);
      RenderInjective(paths[k], [f]);
    } else {
      EndIsLastName(paths[k], f);
    }
    assert paths[k] in paths && f in paths[k];
  }

  /** The introspection field rules together fire exactly when an introspection name occurs
      anywhere in any path. */
  lemma IntrospectionCaughtAnywhere(doc: Document, hash: string, params: Params, tenants: map<string, Params>)
    requires doc.operations != [] && WellNamed(doc)
    ensures var i := InputFor(doc, hash, params, tenants);
            Fires(IntrospectionField, i) || Fires(IntrospectionSuffix, i) <==>
            exists path, f :: path in AllPaths(doc.operations, doc.fragments) && f in INTROSPECTION && f in path
  {
    var paths, i := AllPaths(doc.operations, doc.fragments), InputFor(doc, hash, params, tenants);
    MeasuresFit(doc, hash);
    AllPathsNamed(doc.operations, doc.fragments);
    if Fires(IntrospectionField, i) || Fires(IntrospectionSuffix, i) {
      CaughtMeansPresent(paths, i);
    }
    if path, f :| path in paths && f in INTROSPECTION && f in path {
      PresentMeansCaught(paths, i, path, f);
    }
  }

  lemma PresentMeansCaught(paths: seq<seq<string>>, i: Input, path: seq<string>, f: string)
    requires Paths(i) == RenderAll(paths) && PathsNamed(paths) && ParentsFirst(paths, [])
    requires path in paths && f in INTROSPECTION && f in path
    ensures Fires(IntrospectionField, i) || Fires(IntrospectionSuffix, i)
  {
    var k :| 0 <= k < |paths| && paths[k] == path;
    var n :| 0 <= n < |path| && path[n] == f;
    PrefixListedToo(paths, k, n + 1);
    CaughtAtItsEnd(paths, i, path[..n + 1], f);
  }

  lemma CaughtAtItsEnd(paths: seq<seq<string>>, i: Input, path: seq<string>, f: string)
    requires Paths(i) == RenderAll(paths) && path in paths && PathsNamed(paths)
    requires f in INTROSPECTION && path != [] && path[|path| - 1] == f
    ensures Fires(IntrospectionField, i) || Fires(IntrospectionSuffix, i)
  {
    RenderAllLength(paths);
    IntrospectionNames(f);
    var k :| 0 <= k < |paths| && paths[k] == path;
    assert Paths(i)[k] == Render(path) && AreNames(path);
    if |path| == 1 {
      RenderOne(f);
      assert path == [f];
    } else {
      LastNameEnds(path, f);
    }
  }

  ghost predicate SomeNameIn(paths: seq<seq<string>>, names: set<string>) {
    exists path <- paths :: exists name <- path :: name in names
  }

  lemma CaughtForTenant(
    doc: Document, hash: string, tenant: string, params: Params, tenants: map<string, Params>)
    requires doc.operations != [] && WellNamed(doc)
    ensures var i := BuildInput(Summarize(doc, hash).(tenantId := tenant), params, tenants);
            Fires(IntrospectionField, i) || Fires(IntrospectionSuffix, i) <==>
            SomeNameIn(AllPaths(doc.operations, doc.fragments), INTROSPECTION)
  {
    var paths := AllPaths(doc.operations, doc.fragments);
    var i, j := BuildInput(Summarize(doc, hash).(tenantId := tenant), params, tenants),
                InputFor(doc, hash, params, tenants);
    IntrospectionCaughtAnywhere(doc, hash, params, tenants);
    SamePathsCaught(i, j);
  }

  lemma SamePathsCaught(i: Input, j: Input)
    requires Paths(i) == Paths(j)
    ensures Fires(IntrospectionField, i) <==> Fires(IntrospectionField, j)
    ensures Fires(IntrospectionSuffix, i) <==> Fires(IntrospectionSuffix, j)
  {
  }

  lemma IntrospectionIs()
    ensures INTROSPECTION == {
              "__schema", "__type", "__typename", "__isTypeOf", "__resolveReference", "__resolveType", "__TypeKind",
              "__Field", "__InputValue", "__EnumValue", "__Directive", "__DirectiveLocation"}
  {
  }

  /** A document that reports one of these names, at any level of a path, is denied under all settings and to
      every tenant; and no other name makes the two rules fire. */
  lemma IntrospectionDenied(
    doc: Document, hash: string, tenant: string, params: Params, tenants: map<string, Params>)
    requires doc.operations != [] && WellNamed(doc)
    ensures var i := BuildInput(Summarize(doc, hash).(tenantId := tenant), params, tenants);
            if SomeNameIn(AllPaths(doc.operations, doc.fragments), {
                 "__schema", "__type", "__typename", "__isTypeOf", "__resolveReference", "__resolveType",
                 "__TypeKind", "__Field", "__InputValue", "__EnumValue", "__Directive", "__DirectiveLocation"})
            then !Allow(i)
            else !Fires(IntrospectionField, i) && !Fires(IntrospectionSuffix, i)
  {
    IntrospectionIs();
    CaughtForTenant(doc, hash, tenant, params, tenants);
  }

  // ---------- Settings of any JSON type ----------

  /** A limit that is null or a boolean is exceeded by every number, unless a rule ignores a false setting;
      strings, arrays and objects are not exceeded. A limit that is not set never fires. */
  lemma UntypedDepthLimits(v: Json, info: Summary, params: Params, tenants: map<string, Params>)
    requires !v.Num?
    ensures var i := BuildInput(info, params, tenants);
            && ("depth_limit" in params && params["depth_limit"] == v ==>
                  (Fires(DepthLimit, i) <==> v.Null? || v.Bool?))
            && ("depth_limit" !in params ==> !Fires(DepthLimit, i))
            && ("max_field_count" in params && params["max_field_count"] == v ==>
                  (Fires(FieldLimit, i) <==> v.Null? || v.Bool?))
            && ("max_field_count" !in params ==> !Fires(FieldLimit, i))
            && ("cost_budget" in params && params["cost_budget"] == v ==>
                  (Fires(CostBudget, i) <==> v.Null? || v == Bool(true)))
            && ("cost_budget" !in params ==> !Fires(CostBudget, i))
  {
  }

  /** The same for the limits on measures that are left out of the input when zero. */
  lemma UntypedOptionalLimits(v: Json, info: Summary, params: Params, tenants: map<string, Params>)
    requires !v.Num?
    ensures var i := BuildInput(info, params, tenants);
            var fires := v.Null? || v == Bool(true);
            && ("max_directives" in params && params["max_directives"] == v ==>
                  (Fires(DirectiveLimit, i) <==> info.directives > 0 && fires))
            && ("max_batch_size" in params && params["max_batch_size"] == v ==>
                  (Fires(BatchLimit, i) <==> info.batchSize > 0 && fires))
  {
  }

  lemma UntypedFieldLimits(v: Json, info: Summary, params: Params, tenants: map<string, Params>)
    requires !v.Num?
    ensures var i := BuildInput(info, params, tenants);
            var fires := v.Null? || v == Bool(true);
            && ("max_argument_depth" in params && params["max_argument_depth"] == v ==>
                  (Fires(ArgumentLimit, i) <==> info.argumentDepth > 0 && fires))
            && ("max_lists_requested" in params && params["max_lists_requested"] == v ==>
                  (Fires(ListLimit, i) <==> info.listsRequested > 0 && fires))
            && ("max_fragment_spreads" in params && params["max_fragment_spreads"] == v ==>
                  (Fires(SpreadLimit, i) <==> info.fragmentSpreadCount > 0 && fires))
  {
  }

  /** The strings that a list setting enumerates: the items of an array, the values of an object. */
  ghost predicate Enumerates(v: Json, x: string) {
    || (v.Arr? && Str(x) in v.items)
    || (v.Obj? && exists key <- v.fields :: v.fields[key] == Str(x))
  }

  /** A list setting that counts as set: a string, an array or an object that is not empty. */
  ghost predicate CountsAsSet(v: Json) {
    (v.Str? && v.s != "") || (v.Arr? && v.items != []) || (v.Obj? && v.fields != map[])
  }

  /** Blocklists block what they enumerate, whatever their JSON type. */
  lemma BlocklistsOfAnyType(v: Json, info: Summary, params: Params, tenants: map<string, Params>)
    ensures var i := BuildInput(info, params, tenants);
            && ("field_blocklist" in params && params["field_blocklist"] == v ==>
                  (Fires(FieldBlocklist, i) <==> exists path <- info.fieldPaths :: Enumerates(v, path)))
            && ("blocked_operations" in params && params["blocked_operations"] == v ==>
                  (Fires(BlockedOperation, i) <==> Enumerates(v, info.operationType)))
            && ("allowed_operations" in params && params["allowed_operations"] == v ==>
                  (Fires(OperationNotAllowed, i) <==> CountsAsSet(v) && !Enumerates(v, info.operationType)))
            && ("allowed_operation_names" in params && params["allowed_operation_names"] == v ==>
                  (Fires(UnlistedName, i) <==>
                   info.operationName != "" && CountsAsSet(v) && !Enumerates(v, info.operationName)))
  {
    forall x
      ensures Contains(Some(v), x) <==> Enumerates(v, x)
    {
    }
    assert Paths(BuildInput(info, params, tenants)) == info.fieldPaths;
  }

  /** The limits of a tenant that are not numbers. */
  lemma UntypedTenantLimits(v: Json, info: Summary, params: Params, tenants: map<string, Params>)
    requires !v.Num?
    ensures var i, t := BuildInput(info, params, tenants), TenantParams(info, tenants);
            && ("depth_limit" in t && t["depth_limit"] == v ==>
                  (Fires(TenantDepth, i) <==> v.Null? || v == Bool(true)))
            && ("max_field_count" in t && t["max_field_count"] == v ==>
                  (Fires(TenantFields, i) <==> v.Null? || v == Bool(true)))
  {
  }

  /** The blocklists of a tenant, whatever their JSON type. */
  lemma TenantBlocklistsOfAnyType(v: Json, info: Summary, params: Params, tenants: map<string, Params>)
    ensures var i, t := BuildInput(info, params, tenants), TenantParams(info, tenants);
            && ("field_blocklist" in t && t["field_blocklist"] == v ==>
                  (Fires(TenantBlocklist, i) <==> exists path <- info.fieldPaths :: Enumerates(v, path)))
            && ("blocked_operations" in t && t["blocked_operations"] == v ==>
                  (Fires(TenantOperation, i) <==> Enumerates(v, info.operationType)))
  {
    forall x
      ensures Contains(Some(v), x) <==> Enumerates(v, x)
    {
    }
    assert Paths(BuildInput(info, params, tenants)) == info.fieldPaths;
  }

  /** Something that the setting enumerates is a prefix of the path. */
  ghost predicate EnumeratesPrefix(v: Json, path: string) {
    exists n: nat :: n <= |path| && Enumerates(v, path[..n])
  }

  lemma PassesByPrefix(v: Json, path: string)
    ensures OnAllowlist(Some(v), path) <==> EnumeratesPrefix(v, path)
  {
    if Contains(Some(v), path) {
      assert path[..|path|] == path && Enumerates(v, path[..|path|]);
    }
    if PrefixListed(Some(v), path) {
      if v.Arr? {
        var item :| item in v.items && item.Str? && item.s <= path;
        assert path[..|item.s|] == item.s && Enumerates(v, path[..|item.s|]);
      } else {
        var key :| key in v.fields && v.fields[key].Str? && v.fields[key].s <= path;
        assert path[..|v.fields[key].s|] == v.fields[key].s && Enumerates(v, path[..|v.fields[key].s|]);
      }
    }
    if n: nat :| n <= |path| && Enumerates(v, path[..n]) {
      assert Str(path[..n]).s <= path;
    }
  }

  /** The allowlist, when set, lets pass the paths that start with something it enumerates. */
  lemma AllowlistOfAnyType(v: Json, info: Summary, params: Params, tenants: map<string, Params>)
    requires "field_allowlist" in params && params["field_allowlist"] == v
    ensures Fires(FieldAllowlist, BuildInput(info, params, tenants)) <==>
            CountsAsSet(v) && exists path <- info.fieldPaths :: !EnumeratesPrefix(v, path)
  {
    assert Get(params, "field_allowlist") == Some(v);
    forall path {
      PassesByPrefix(v, path);
    }
  }

  // ---------- Operation types ----------

  /** The name of each kind of operation in the settings. */
  ghost predicate IsTypeOf(kind: OperationKind, name: string) {
    if kind == Mutation then name == "mutation"
    else if kind == Subscription then name == "subscription"
    else name == "query"
  }

  /** A document is denied when the type of its first operation is blocked, for all or for the tenant, or is not
      among those allowed. */
  lemma OperationTypeDenied(
    doc: Document, hash: string, tenant: string, params: Params, tenants: map<string, Params>, name: string)
    requires doc.operations != [] && IsTypeOf(doc.operations[0].kind, name)
    ensures var i := BuildInput(Summarize(doc, hash).(tenantId := tenant), params, tenants);
            && ("blocked_operations" in params && Enumerates(params["blocked_operations"], name) ==> !Allow(i))
            && ((&& "allowed_operations" in params && CountsAsSet(params["allowed_operations"])
                 && !Enumerates(params["allowed_operations"], name)) ==> !Allow(i))
            && ((&& tenant != "" && tenant in tenants && "blocked_operations" in tenants[tenant]
                 && Enumerates(tenants[tenant]["blocked_operations"], name)) ==> !Allow(i))
  {
    var info := Summarize(doc, hash).(tenantId := tenant);
    assert info.operationType == name;
    TypeDenied(info, params, tenants);
  }

  lemma TypeDenied(info: Summary, params: Params, tenants: map<string, Params>)
    ensures var i, t := BuildInput(info, params, tenants), TenantParams(info, tenants);
            && ("blocked_operations" in params && Enumerates(params["blocked_operations"], info.operationType) ==>
                  Fires(BlockedOperation, i))
            && ((&& "allowed_operations" in params && CountsAsSet(params["allowed_operations"])
                 && !Enumerates(params["allowed_operations"], info.operationType)) ==> Fires(OperationNotAllowed, i))
            && ("blocked_operations" in t && Enumerates(t["blocked_operations"], info.operationType) ==>
                  Fires(TenantOperation, i))
  {
  }

  // ---------- The policy in terms of the summary ----------

  ghost predicate IsText(v: Json) {
    v.Arr? && forall item <- v.items :: item.Str?
  }

  /** Params as the administrators write them: limits are numbers, lists are arrays of strings. */
  ghost predicate WellTyped(params: Params) {
    && (forall key | key in LIMITS && key in params :: params[key].Num?)
    && (forall key | key in BLOCKLISTS + FIXED - {"require_persisted_queries"} && key in params :: IsText(params[key]))
    && ("require_persisted_queries" in params ==> params["require_persisted_queries"].Bool?)
  }

  ghost predicate Within(n: nat, params: Params, key: string) {
    key in params && params[key].Num? ==> n as real <= params[key].n
  }

  ghost predicate Listed(params: Params, key: string, x: string) {
    key in params && params[key].Arr? && Str(x) in params[key].items
  }

  /** The list is set and not empty. */
  ghost predicate Active(params: Params, key: string) {
    key in params && params[key].Arr? && params[key].items != []
  }

  ghost predicate PrefixAllowed(params: Params, path: string) {
    exists n: nat :: n <= |path| && Listed(params, "field_allowlist", path[..n])
  }

  /** What each rule forbids, said of the summary; `p` are the global params and `t` those of the tenant.
      A measure of zero passes any limit on a field that may be omitted from the input. */
  ghost predicate Violates(rule: Rule, info: Summary, p: Params, t: Params) {
    match rule
    case MissingField => false
    case IntrospectionName => info.operationName == "IntrospectionQuery"
    case IntrospectionField => exists f | f in INTROSPECTION :: f in info.fieldPaths
    case IntrospectionSuffix =>
      exists f | f in INTROSPECTION :: exists path <- info.fieldPaths :: EndsWith(path, "." + f)
    case DepthLimit => !Within(info.depth, p, "depth_limit")
    case FieldLimit => !Within(info.fieldCount, p, "max_field_count")
    case DirectiveLimit => info.directives != 0 && !Within(info.directives, p, "max_directives")
    case BatchLimit => info.batchSize != 0 && !Within(info.batchSize, p, "max_batch_size")
    case FieldBlocklist => exists path <- info.fieldPaths :: Listed(p, "field_blocklist", path)
    case FieldAllowlist => Active(p, "field_allowlist") && exists path <- info.fieldPaths :: !PrefixAllowed(p, path)
    case BlockedOperation => Listed(p, "blocked_operations", info.operationType)
    case OperationNotAllowed =>
      Active(p, "allowed_operations") && !Listed(p, "allowed_operations", info.operationType)
    case AnonymousOperation => false
    case UnlistedName =>
      info.operationName != "" && Active(p, "allowed_operation_names") &&
      !Listed(p, "allowed_operation_names", info.operationName)
    case ArgumentLimit => info.argumentDepth != 0 && !Within(info.argumentDepth, p, "max_argument_depth")
    case ListLimit => info.listsRequested != 0 && !Within(info.listsRequested, p, "max_lists_requested")
    case SpreadLimit => info.fragmentSpreadCount != 0 && !Within(info.fragmentSpreadCount, p, "max_fragment_spreads")
    case CostBudget => !Within(info.depth * info.fieldCount, p, "cost_budget")
    case PersistedUndefined => RequiresPersisted(p) && info.operationName == "" && info.queryHash == ""
    case PersistedEmpty => false
    case PersistedNoHash => RequiresPersisted(p) && info.operationName != "" && info.queryHash == ""
    case TenantDepth => !Within(info.depth, t, "depth_limit")
    case TenantFields => !Within(info.fieldCount, t, "max_field_count")
    case TenantBlocklist => exists path <- info.fieldPaths :: Listed(t, "field_blocklist", path)
    case TenantOperation => Listed(t, "blocked_operations", info.operationType)
  }

  ghost predicate RequiresPersisted(params: Params) {
    "require_persisted_queries" in params && params["require_persisted_queries"] == Bool(true)
  }

  function TenantParams(info: Summary, tenants: map<string, Params>): Params {
    if info.tenantId != "" && info.tenantId in tenants then tenants[info.tenantId] else map[]
  }

  lemma LimitMeans(params: Params, key: string, n: nat)
    requires WellTyped(params) && key in LIMITS
    ensures Exceeds(n, Get(params, key)) <==> !Within(n, params, key)
    ensures Truthy(Get(params, key)) <==> key in params
  {
  }

  lemma ListMeans(params: Params, key: string, x: string)
    requires WellTyped(params) && key in BLOCKLISTS + FIXED - {"require_persisted_queries"}
    ensures Contains(Get(params, key), x) <==> Listed(params, key, x)
    ensures CountsPositive(Get(params, key)) <==> Active(params, key)
  {
    if key in params {
      assert IsText(params[key]);
    }
  }

  lemma AllowlistMeans(params: Params, path: string)
    requires WellTyped(params)
    ensures OnAllowlist(Get(params, "field_allowlist"), path) <==> PrefixAllowed(params, path)
  {
    var list := Get(params, "field_allowlist");
    ListMeans(params, "field_allowlist", path);
    if Contains(list, path) {
      assert path[..|path|] == path && Listed(params, "field_allowlist", path[..|path|]);
    }
    if PrefixListed(list, path) {
      assert IsText(list.value);
      var item :| item in list.value.items && item.Str? && item.s <= path;
      assert path[..|item.s|] == item.s && Listed(params, "field_allowlist", path[..|item.s|]);
    }
    if n: nat :| n <= |path| && Listed(params, "field_allowlist", path[..n]) {
      assert Str(path[..n]).s <= path;
    }
  }

  const LIMIT_RULES := {
    DepthLimit, FieldLimit, DirectiveLimit, BatchLimit, ArgumentLimit, ListLimit, SpreadLimit, CostBudget,
    TenantDepth, TenantFields }

  lemma LimitRuleMeans(rule: Rule, info: Summary, p: Params, tenants: map<string, Params>)
    requires WellTyped(p) && rule in LIMIT_RULES - {TenantDepth, TenantFields}
    ensures Fires(rule, BuildInput(info, p, tenants)) <==> Violates(rule, info, p, TenantParams(info, tenants))
  {
    match rule
    case DepthLimit => LimitMeans(p, "depth_limit", info.depth);
    case FieldLimit => LimitMeans(p, "max_field_count", info.fieldCount);
    case DirectiveLimit => LimitMeans(p, "max_directives", info.directives);
    case BatchLimit => LimitMeans(p, "max_batch_size", info.batchSize);
    case ArgumentLimit => LimitMeans(p, "max_argument_depth", info.argumentDepth);
    case ListLimit => LimitMeans(p, "max_lists_requested", info.listsRequested);
    case SpreadLimit => LimitMeans(p, "max_fragment_spreads", info.fragmentSpreadCount);
    case CostBudget => LimitMeans(p, "cost_budget", info.depth * info.fieldCount);
  }

  lemma TenantLimitMeans(rule: Rule, info: Summary, p: Params, tenants: map<string, Params>)
    requires WellTyped(TenantParams(info, tenants)) && rule in {TenantDepth, TenantFields}
    ensures Fires(rule, BuildInput(info, p, tenants)) <==> Violates(rule, info, p, TenantParams(info, tenants))
  {
    LimitMeans(TenantParams(info, tenants), "depth_limit", info.depth);
    LimitMeans(TenantParams(info, tenants), "max_field_count", info.fieldCount);
  }

  lemma BlocklistMeans(params: Params, paths: seq<string>)
    requires WellTyped(params)
    ensures (exists path <- paths :: Contains(Get(params, "field_blocklist"), path)) <==>
            exists path <- paths :: Listed(params, "field_blocklist", path)
  {
    forall path
      ensures Contains(Get(params, "field_blocklist"), path) <==> Listed(params, "field_blocklist", path)
    {
      ListMeans(params, "field_blocklist", path);
    }
  }

  lemma AllowlistRuleMeans(params: Params, paths: seq<string>)
    requires WellTyped(params)
    ensures (exists path <- paths :: !OnAllowlist(Get(params, "field_allowlist"), path)) <==>
            exists path <- paths :: !PrefixAllowed(params, path)
    ensures CountsPositive(Get(params, "field_allowlist")) <==> Active(params, "field_allowlist")
  {
    forall path
      ensures OnAllowlist(Get(params, "field_allowlist"), path) <==> PrefixAllowed(params, path)
    {
      AllowlistMeans(params, path);
    }
    ListMeans(params, "field_allowlist", "");
  }

  const PATH_RULES := { FieldBlocklist, TenantBlocklist, FieldAllowlist, IntrospectionField, IntrospectionSuffix }

  lemma PathRuleMeans(rule: Rule, info: Summary, p: Params, tenants: map<string, Params>)
    requires WellTyped(p) && WellTyped(TenantParams(info, tenants)) && rule in PATH_RULES
    ensures Fires(rule, BuildInput(info, p, tenants)) <==> Violates(rule, info, p, TenantParams(info, tenants))
  {
    match rule
    case FieldBlocklist => BlocklistMeans(p, info.fieldPaths);
    case TenantBlocklist => BlocklistMeans(TenantParams(info, tenants), info.fieldPaths);
    case FieldAllowlist => AllowlistRuleMeans(p, info.fieldPaths);
    case IntrospectionField =>
    case IntrospectionSuffix =>
  }

  lemma OtherRuleMeans(rule: Rule, info: Summary, p: Params, tenants: map<string, Params>)
    requires WellTyped(p) && WellTyped(TenantParams(info, tenants)) && rule !in LIMIT_RULES + PATH_RULES
    ensures Fires(rule, BuildInput(info, p, tenants)) <==> Violates(rule, info, p, TenantParams(info, tenants))
  {
    ListMeans(p, "blocked_operations", info.operationType);
    ListMeans(TenantParams(info, tenants), "blocked_operations", info.operationType);
    ListMeans(p, "allowed_operations", info.operationType);
    ListMeans(p, "allowed_operation_names", info.operationName);
  }

  lemma RuleMeans(rule: Rule, info: Summary, p: Params, tenants: map<string, Params>)
    requires WellTyped(p) && WellTyped(TenantParams(info, tenants))
    ensures Fires(rule, BuildInput(info, p, tenants)) <==> Violates(rule, info, p, TenantParams(info, tenants))
  {
    if rule in {TenantDepth, TenantFields} {
      TenantLimitMeans(rule, info, p, tenants);
    } else if rule in LIMIT_RULES {
      LimitRuleMeans(rule, info, p, tenants);
    } else if rule in PATH_RULES {
      PathRuleMeans(rule, info, p, tenants);
    } else {
      OtherRuleMeans(rule, info, p, tenants);
    }
  }

  /** With params of the documented types, a request is allowed exactly when its summary violates
      no limit and no list, the tenant's included. */
  lemma AllowedExactly(info: Summary, p: Params, tenants: map<string, Params>)
    requires WellTyped(p) && WellTyped(TenantParams(info, tenants))
    ensures Allow(BuildInput(info, p, tenants)) <==>
            forall rule :: !Violates(rule, info, p, TenantParams(info, tenants))
  {
    forall rule {
      RuleMeans(rule, info, p, tenants);
    }
  }

  // ---------- Rules that an omitted field switches off ----------

  /** The operation-name allowlist blocks exactly the named operations that are not listed:
      an anonymous operation has no name in the document, so neither rule applies to it. */
  lemma NameAllowlistBlocksExactly(info: Summary, params: Params, tenants: map<string, Params>)
    ensures var i, list := BuildInput(info, params, tenants), Get(params, "allowed_operation_names");
            Fires(AnonymousOperation, i) || Fires(UnlistedName, i) <==>
            info.operationName != "" && CountsPositive(list) && !Contains(list, info.operationName)
  {
  }

  /** Requiring persisted queries blocks exactly the queries without a hash. */
  lemma PersistedRuleBlocksExactly(info: Summary, params: Params, tenants: map<string, Params>)
    ensures var i := BuildInput(info, params, tenants);
            Fires(PersistedUndefined, i) || Fires(PersistedEmpty, i) || Fires(PersistedNoHash, i) <==>
            Get(params, "require_persisted_queries") == Some(Bool(true)) && info.queryHash == ""
  {
  }

  /** An input document without one of the required measures is denied under all settings, and no other input is
      for missing one. */
  lemma MissingMeasureDenied(i: Input)
    ensures if i.depth.None? || i.fieldCount.None? || i.fieldPaths.None? then !Allow(i) else !Fires(MissingField, i)
  {
    assert Fires(MissingField, i) <==> i.depth.None? || i.fieldCount.None? || i.fieldPaths.None?;
  }

  /** On an input document that carries an empty name, which the analyser never yields, the rule does fire. */
  lemma EmptyNameDenied(i: Input)
    ensures Fires(AnonymousOperation, i) <==>
            && i.operationName == Some("") && "allowed_operation_names" in i.params
            && CountsAsSet(i.params["allowed_operation_names"])
  {
    assert Get(i.params, "allowed_operation_names").Some? <==> "allowed_operation_names" in i.params;
  }

  /** On any input document the persisted-query rules fire on a missing hash, and on an empty one of an empty name. */
  lemma MissingHashDenied(i: Input)
    ensures Fires(PersistedUndefined, i) || Fires(PersistedEmpty, i) || Fires(PersistedNoHash, i) <==>
            && "require_persisted_queries" in i.params && i.params["require_persisted_queries"] == Bool(true)
            && (i.queryHash.None? || (i.queryHash == Some("") && i.operationName == Some("")))
  {
    assert Get(i.params, "require_persisted_queries").Some? <==> "require_persisted_queries" in i.params;
  }

  /** A digest in hexadecimal, as Go's %x verb writes it. */
  function HexText(digest: seq<bv8>): (s: string)
    ensures |s| == 2 * |digest|
  {
    if digest == [] then "" else
    [DigitOf(digest[0] as nat / 16), DigitOf(digest[0] as nat % 16)] + HexText(digest[1..])
  }

  /** Two digits for each byte, the higher first. */
  lemma {:induction false} HexReads(digest: seq<bv8>, i: nat)
    requires i < |digest|
    ensures ValueOf(HexText(digest)[2 * i]) * 16 + ValueOf(HexText(digest)[2 * i + 1]) == digest[i] as nat
  {
    if i == 0 {
      DigitReads(digest[0] as nat / 16);
      DigitReads(digest[0] as nat % 16);
    } else {
      HexReads(digest[1..], i - 1);
    }
  }

  /** The analyser takes eight bytes of the digest of a query. */
  const HASH_BYTES := 8

  /** Every analysed query has a hash, so requiring persisted queries blocks none of them. */
  lemma PersistedRuleBlocksNothingAnalysed(
    doc: Document, digest: seq<bv8>, params: Params, tenants: map<string, Params>)
    requires doc.operations != [] && |digest| == HASH_BYTES
    ensures var i := InputFor(doc, HexText(digest), params, tenants);
            && |HexText(digest)| == 16 && i.queryHash == Some(HexText(digest))
            && !Fires(PersistedUndefined, i) && !Fires(PersistedEmpty, i) && !Fires(PersistedNoHash, i)
  {
    PersistedRuleBlocksExactly(Summarize(doc, HexText(digest)), params, tenants);
  }

  // ---------- Policies that only list fields ----------

  const BLOCKLIST := "field_blocklist"

  const ALLOWLIST := "field_allowlist"

  /** No setting but the blocklist and the allowlist of fields. */
  ghost predicate OnlyLists(params: Params) {
    forall key | key != BLOCKLIST && key != ALLOWLIST :: Get(params, key).None?
  }

  lemma OtherKeys()
    ensures forall key | key in LIMITS + FIXED - {"field_allowlist"} + {"blocked_operations"} ::
              key != BLOCKLIST && key != ALLOWLIST
  {
  }

  lemma NoTenantRules(info: Summary, params: Params, tenants: map<string, Params>, rule: Rule)
    requires info.tenantId == "" && rule in {TenantDepth, TenantFields, TenantBlocklist, TenantOperation}
    ensures !Fires(rule, BuildInput(info, params, tenants))
  {
  }

  lemma NoOtherRules(info: Summary, params: Params, tenants: map<string, Params>, rule: Rule)
    requires OnlyLists(params) && info.operationName == ""
    requires rule !in {TenantDepth, TenantFields, TenantBlocklist, TenantOperation, FieldBlocklist, FieldAllowlist,
                       IntrospectionField, IntrospectionSuffix}
    ensures !Fires(rule, BuildInput(info, params, tenants))
  {
    OtherKeys();
    assert forall key | key in LIMITS + FIXED - {"field_allowlist"} + {"blocked_operations"} :: Get(params, key).None?;
  }

  /** Such a policy lets through the anonymous queries without a tenant on which no path rule fires. */
  lemma ListsDecide(info: Summary, params: Params, tenants: map<string, Params>)
    requires OnlyLists(params) && info.operationName == "" && info.tenantId == ""
    ensures var i := BuildInput(info, params, tenants);
            Allow(i) <==> && !Fires(FieldBlocklist, i) && !Fires(FieldAllowlist, i)
                          && !Fires(IntrospectionField, i) && !Fires(IntrospectionSuffix, i)
  {
    forall rule | rule !in {FieldBlocklist, FieldAllowlist, IntrospectionField, IntrospectionSuffix}
      ensures !Fires(rule, BuildInput(info, params, tenants))
    {
      if rule in {TenantDepth, TenantFields, TenantBlocklist, TenantOperation} {
        NoTenantRules(info, params, tenants, rule);
      } else {
        NoOtherRules(info, params, tenants, rule);
      }
    }
  }

  lemma NoIntrospection(path: string, f: string)
    requires IsName(path)
    ensures !EndsWith(path, "." + f)
  {
    if |f| < |path| {
      var n := |path| - |f| - 1;
      assert path[n] != '.' && path[n..][0] == path[n] && ("." + f)[0] == '.';
    }
  }

  lemma PlainNames(info: Summary, params: Params, tenants: map<string, Params>)
    requires AreNames(info.fieldPaths) && forall name <- info.fieldPaths :: name !in INTROSPECTION
    ensures var i := BuildInput(info, params, tenants);
            !Fires(IntrospectionField, i) && !Fires(IntrospectionSuffix, i)
  {
    forall f, path | f in INTROSPECTION && path in info.fieldPaths
      ensures !EndsWith(path, "." + f)
    {
      NoIntrospection(path, f);
    }
  }

  /** Nothing but one blocked path. */
  ghost predicate OnlyBlocks(params: Params, blocked: string) {
    OnlyLists(params) && Get(params, BLOCKLIST) == Some(Arr([Str(blocked)])) && Get(params, ALLOWLIST).None?
  }

  lemma OnlyListed(params: Params, text: string, info: Summary, tenants: map<string, Params>)
    requires Get(params, BLOCKLIST) == Some(Arr([Str(text)]))
    ensures Fires(FieldBlocklist, BuildInput(info, params, tenants)) <==> text in info.fieldPaths
  {
    assert forall path :: Contains(Get(params, "field_blocklist"), path) <==> path == text by {
      assert Str(text) in [Str(text)];
    }
    assert Paths(BuildInput(info, params, tenants)) == info.fieldPaths;
  }

  lemma PlainQueryAllowed(info: Summary, params: Params, blocked: string, tenants: map<string, Params>)
    requires OnlyBlocks(params, blocked) && info.operationName == "" && info.tenantId == ""
    requires AreNames(info.fieldPaths) && forall name <- info.fieldPaths :: name !in INTROSPECTION
    ensures Allow(BuildInput(info, params, tenants)) <==> blocked !in info.fieldPaths
  {
    PlainNames(info, params, tenants);
    OnlyListed(params, blocked, info, tenants);
    ListsDecide(info, params, tenants);
  }

  // ---------- Tenants ----------

  /** Without params, a query with a plain root field is allowed to everyone but a tenant that blocks its type. */
  lemma TenantRulesMatter(info: Summary, tenant: string)
    requires tenant != "" && info.fieldPaths == ["a"] && info.operationName == ""
    ensures var tenants := map[tenant := map["blocked_operations" := Arr([Str(info.operationType)])]];
            && Allow(BuildInput(info.(tenantId := ""), map[], tenants))
            && !Allow(BuildInput(info.(tenantId := tenant), map[], tenants))
  {
    var tenants := map[tenant := map["blocked_operations" := Arr([Str(info.operationType)])]];
    var i := BuildInput(info.(tenantId := ""), map[], tenants);
    forall f | f in INTROSPECTION
      ensures f !in Paths(i) && !EndsWith("a", "." + f)
    {
      IntrospectionNames(f);
    }
    assert Fires(TenantOperation, BuildInput(info.(tenantId := tenant), map[], tenants));
  }
}
