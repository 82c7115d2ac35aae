/** The policy behind the decision cache: when caching changes the decision on a query. */
module CachedPolicy {
  import opened Ast
  import opened Text
  import opened Traversal
  import opened Exactness
  import opened Counters
  import opened Analyzer
  import opened CacheKey
  import opened DecisionCache
  import opened Policy
  import opened Requests
  import opened Enforcement
  import opened Queries

  /** The decisions of the policy for one content of the store. */
  ghost function Decide(params: Params, tenants: map<string, Params>): Summary -> Decision {
    (info: Summary) =>
      if Allow(BuildInput(info, params, tenants)) then ALLOW else Decision(false, "blocked by OPA policy")
  }

  ghost predicate Refuses(g: Settings, params: Params, tenants: map<string, Params>, info: Summary) {
    !SchemaVerdict(g, info).Accepted? || !Allow(BuildInput(info, params, tenants))
  }

  /** No query gets through, whoever sends it. */
  ghost predicate RefusesAll(g: Settings, params: Params, tenants: map<string, Params>) {
    forall info | info in AnalysedQueries() :: Refuses(g, params, tenants, info)
  }

  // ---------- The least demanding queries ----------

  /** `{ ...F }` */
  function LeastSpread(kind: OperationKind): Document {
    Single("", kind, [FragmentSpread("F", 0)])
  }

  /** `{ k }` */
  function LeastField(kind: OperationKind, k: string): Document {
    Single("", kind, [Leaf(k)])
  }

  /** Every anonymous query of one selection is refused. */
  ghost predicate RefusesLeast(g: Settings, params: Params, tenants: map<string, Params>) {
    forall kind, digest: seq<bv8> | |digest| == HASH_BYTES ::
      && Refuses(g, params, tenants, Analysis(LeastSpread(kind), digest, ""))
      && forall k | IsName(k) :: Refuses(g, params, tenants, Analysis(LeastField(kind, k), digest, ""))
  }

  /** Without its name and tenant a query with a hash violates no further rule. */
  lemma NamelessRule(rule: Rule, info: Summary, params: Params, tenants: map<string, Params>)
    requires info.queryHash != "" && !Fires(rule, BuildInput(info, params, tenants))
    ensures !Fires(rule, BuildInput(info.(operationName := "", tenantId := ""), params, tenants))
  {
  }

  lemma NamelessAllowed(info: Summary, params: Params, tenants: map<string, Params>)
    requires info.queryHash != "" && Allow(BuildInput(info, params, tenants))
    ensures Allow(BuildInput(info.(operationName := "", tenantId := ""), params, tenants))
  {
    forall rule {
      NamelessRule(rule, info, params, tenants);
    }
  }

  /** `m` asks for no more than `info`. */
  ghost predicate AsksLess(m: Summary, info: Summary) {
    && m.operationType == info.operationType && m.operationName == info.operationName
    && m.queryHash == info.queryHash && m.tenantId == "" == info.tenantId
    && m.depth <= info.depth && m.fieldCount <= info.fieldCount
    && (forall path <- m.fieldPaths :: path in info.fieldPaths)
    && m.directives <= info.directives && m.batchSize <= info.batchSize && m.argumentDepth <= info.argumentDepth
    && m.listsRequested <= info.listsRequested && m.fragmentSpreadCount <= info.fragmentSpreadCount
  }

  lemma LessAllowed(m: Summary, info: Summary, params: Params, tenants: map<string, Params>)
    requires AsksLess(m, info) && Allow(BuildInput(info, params, tenants))
    ensures Allow(BuildInput(m, params, tenants))
  {
    if !Allow(BuildInput(m, params, tenants)) {
      DenialIsMonotone(BuildInput(m, params, tenants), BuildInput(info, params, tenants));
    }
  }

  lemma LeastSpreadSummary(kind: OperationKind, digest: seq<bv8>)
    ensures var m := Analysis(LeastSpread(kind), digest, "");
            && m.operationType == TypeName(kind) && m.operationName == "" && m.tenantId == ""
            && m.queryHash == HexText(digest)
            && m.depth == 0 && m.fieldCount == 0 && m.fieldPaths == [] && m.directives == 0 && m.batchSize == 1
            && m.argumentDepth == 0 && m.listsRequested == 0 && m.fragmentSpreadCount == 1
  {
    OneSpread("F");
    SingleSummary("", kind, [FragmentSpread("F", 0)], HexText(digest));
  }

  lemma LeastFieldSummary(kind: OperationKind, k: string, digest: seq<bv8>)
    ensures var m := Analysis(LeastField(kind, k), digest, "");
            && m.operationType == TypeName(kind) && m.operationName == "" && m.tenantId == ""
            && m.queryHash == HexText(digest)
            && m.depth == 1 && m.fieldCount == 1 && m.fieldPaths == [k] && m.directives == 0 && m.batchSize == 1
            && m.argumentDepth == 0 && m.listsRequested == (if LooksLikeList(k) then 1 else 0)
            && m.fragmentSpreadCount == 0
  {
    LeafMeasures(Leaf(k));
    SingleSummary("", kind, [Leaf(k)], HexText(digest));
  }

  // ---------- What every document asks for at least ----------

  lemma {:induction false} NoPathsAnywhere(operations: seq<Operation>, fragments: seq<Fragment>)
    requires AllPaths(operations, fragments) == []
    ensures forall op <- operations :: FieldPaths(Walk(op.selections, [], fragments, {}).trace) == []
  {
    if operations != [] {
      var init, last := operations[..|operations| - 1], operations[|operations| - 1];
      NoPathsAnywhere(init, fragments);
      assert forall op :: op in operations <==> op in init || op == last;
    }
  }

  lemma MeasureWithinWorst(metric: Metric, op: Operation, doc: Document)
    requires op in doc.operations
    ensures Measure(metric, op, doc.fragments) <= Worst(metric, doc.operations, doc.fragments)
  {
    WorstIsMaximum(metric, doc.operations, doc.fragments);
  }

  lemma FirstSelectionCounts(selections: seq<Selection>, fragments: seq<Fragment>)
    requires selections != []
    ensures var t := OperationTally(selections, fragments);
            FieldPaths(Walk(selections, [], fragments, {}).trace) == [] ==> t.fragmentSpreadCount >= 1
  {
    var sel, trace := selections[0], Walk(selections, [], fragments, {}).trace;
    EnterDecreases(sel, [], fragments, {});
    assert trace[0] == VisitOf(sel, [], {});
    CountAllCloses(trace);
    assert Nodes(trace)[0] == NodeOf(sel);
  }

  lemma OperationSpread(op: Operation, fragments: seq<Fragment>)
    requires op.selections != [] && FieldPaths(Walk(op.selections, [], fragments, {}).trace) == []
    ensures Measure(SpreadCount, op, fragments) >= 1
  {
    FirstSelectionCounts(op.selections, fragments);
  }

  /** A document that reports no path has a spread. */
  lemma NoPathsHasSpread(doc: Document)
    requires Written(doc) && doc.operations != [] && KeyPaths(doc) == []
    ensures Worst(SpreadCount, doc.operations, doc.fragments) >= 1
  {
    var op := doc.operations[0];
    NoPathsAnywhere(doc.operations, doc.fragments);
    OperationSpread(op, doc.fragments);
    MeasureWithinWorst(SpreadCount, op, doc);
  }

  /** A response key that looks like a list is counted as one. */
  lemma ListCounted(selections: seq<Selection>, fragments: seq<Fragment>, path: seq<string>)
    requires path in FieldPaths(Walk(selections, [], fragments, {}).trace)
    requires path != [] && LooksLikeList(path[|path| - 1])
    ensures OperationTally(selections, fragments).listsRequested >= 1
  {
    var trace := Walk(selections, [], fragments, {}).trace;
    CountAllCloses(trace);
    KeysEndPaths(selections, [], fragments, {});
    ListVisited(trace, path);
  }

  /** The path of a visited field ends in its key. */
  ghost predicate EndsInKey(v: Visit) {
    v.node.FieldNode? ==> v.names != [] && v.names[|v.names| - 1] == v.node.key
  }

  lemma {:induction false} KeysEndPaths(
    selections: seq<Selection>, names: seq<string>, fragments: seq<Fragment>, visited: set<string>)
    ensures forall v <- Walk(selections, names, fragments, visited).trace :: EndsInKey(v)
    decreases Defined(fragments) - visited, |Own(selections)|
  {
    if selections != [] {
      EnterDecreases(selections[0], names, fragments, visited);
      var b := Enter(selections[0], names, fragments, visited);
      KeysEndPaths(b.selections, b.names, fragments, b.visited);
      KeysEndPaths(selections[1..], names, fragments, Walk(b.selections, b.names, fragments, b.visited).visited);
    }
  }

  lemma {:induction false} ListVisited(trace: seq<Visit>, path: seq<string>)
    requires path in FieldPaths(trace) && path != [] && LooksLikeList(path[|path| - 1])
    requires forall v <- trace :: EndsInKey(v)
    ensures Total(Nodes(trace), Lists) >= 1
  {
    assert trace[0] in trace && Nodes(trace)[1..] == Nodes(trace[1..]);
    if !(trace[0].node.FieldNode? && trace[0].names == path) {
      assert forall v :: v in trace[1..] ==> v in trace;
      ListVisited(trace[1..], path);
    }
  }

  lemma {:induction false} PathOfOperation(operations: seq<Operation>, fragments: seq<Fragment>, path: seq<string>)
    returns (op: Operation)
    requires path in AllPaths(operations, fragments)
    ensures op in operations && path in FieldPaths(Walk(op.selections, [], fragments, {}).trace)
  {
    var init, last := operations[..|operations| - 1], operations[|operations| - 1];
    if path in FieldPaths(Walk(last.selections, [], fragments, {}).trace) {
      op := last;
    } else {
      op := PathOfOperation(init, fragments, path);
    }
  }

  lemma OperationList(op: Operation, fragments: seq<Fragment>, path: seq<string>)
    requires path in FieldPaths(Walk(op.selections, [], fragments, {}).trace)
    requires path != [] && LooksLikeList(path[|path| - 1])
    ensures Measure(ListCount, op, fragments) >= 1
  {
    ListCounted(op.selections, fragments, path);
  }

  lemma RootList(doc: Document, path: seq<string>)
    requires path in KeyPaths(doc) && path != [] && LooksLikeList(path[|path| - 1])
    ensures Worst(ListCount, doc.operations, doc.fragments) >= 1
  {
    var op := PathOfOperation(doc.operations, doc.fragments, path);
    OperationList(op, doc.fragments, path);
    MeasureWithinWorst(ListCount, op, doc);
  }

  lemma FirstKey(doc: Document) returns (k: string)
    requires WellNamed(doc) && KeyPaths(doc) != []
    ensures IsName(k) && KeyPaths(doc)[0] == [k]
  {
    var paths := KeyPaths(doc);
    assert doc == Document(doc.operations, doc.fragments);
    AllPathsParentsFirst(doc.operations, doc.fragments);
    AllPathsNamed(doc.operations, doc.fragments);
    assert HasParent(paths, [], 0) && paths[0] in paths && AreNames(paths[0]);
    k := paths[0][0];
    assert paths[0] == [k] && k in paths[0];
  }

  /** A document that reports paths starts with a root field, of which it asks at least for one. */
  lemma FirstRoot(doc: Document, hash: string) returns (k: string)
    requires Written(doc) && doc.operations != [] && KeyPaths(doc) != []
    ensures IsName(k) && KeyPaths(doc)[0] == [k]
    ensures var s := Summarize(doc, hash);
            && s.fieldPaths != [] && s.fieldPaths[0] == k && s.depth >= 1 && s.fieldCount >= 1
            && s.listsRequested >= if LooksLikeList(k) then 1 else 0
  {
    k := FirstKey(doc);
    var paths := KeyPaths(doc);
    MeasuresFit(doc, hash);
    RenderAllLength(paths);
    RenderOne(k);
    DeepestIsMaximum(paths);
    assert paths[0] in paths;
    if LooksLikeList(k) {
      RootList(doc, paths[0]);
    }
  }

  /** The schema accepts the first path of what it accepts. */
  lemma FirstPathAccepted(g: Settings, info: Summary, m: Summary)
    requires SchemaVerdict(g, info).Accepted? && m.operationType == info.operationType
    requires m.fieldPaths == [] ||
             (|m.fieldPaths| == 1 && info.fieldPaths != [] && m.fieldPaths[0] == info.fieldPaths[0])
    ensures SchemaVerdict(g, m).Accepted?
  {
    if g.schema.Some? && m.fieldPaths != [] {
      var all, one := Schema.SplitAll(info.fieldPaths), Schema.SplitAll(m.fieldPaths);
      assert m.fieldPaths[1..] == [];
      assert one == [all[0]] + Schema.SplitAll(m.fieldPaths[1..]);
      assert one[1..] == [];
      var root := Schema.RootType(g.schema.value, info.operationType);
      if root.Some? {
        var position := Schema.At(root.value);
        assert Schema.FirstFailure(g.schema.value, position, one[1..]).Accepted?;
        assert Schema.PathVerdict(g.schema.value, position, all[0]).Accepted?;
      }
    }
  }

  /** Some query gets through exactly when some anonymous query of one selection does. */
  lemma LeastDecides(g: Settings, params: Params, tenants: map<string, Params>)
    ensures RefusesAll(g, params, tenants) <==> RefusesLeast(g, params, tenants)
  {
    if RefusesAll(g, params, tenants) {
      forall kind, digest: seq<bv8> | |digest| == HASH_BYTES
        ensures Refuses(g, params, tenants, Analysis(LeastSpread(kind), digest, ""))
      {
        SingleSpreadWritten("", kind, "F");
        IsAnalysed(Analysis(LeastSpread(kind), digest, ""), LeastSpread(kind), digest, "");
      }
      forall kind, digest: seq<bv8>, k | |digest| == HASH_BYTES && IsName(k)
        ensures Refuses(g, params, tenants, Analysis(LeastField(kind, k), digest, ""))
      {
        SingleLeafWritten("", kind, Leaf(k));
        IsAnalysed(Analysis(LeastField(kind, k), digest, ""), LeastField(kind, k), digest, "");
      }
    }
    if RefusesLeast(g, params, tenants) {
      forall info | info in AnalysedQueries()
        ensures Refuses(g, params, tenants, info)
      {
        if !Refuses(g, params, tenants, info) {
          var doc, digest, tenant :| IsAnalysis(info, doc, digest, tenant);
          LeastGetsThrough(g, params, tenants, doc, digest, tenant);
        }
      }
    }
  }

  lemma LeastGetsThrough(
    g: Settings, params: Params, tenants: map<string, Params>, doc: Document, digest: seq<bv8>, tenant: string)
    requires Written(doc) && Acceptable(doc) && |digest| == HASH_BYTES
    requires !Refuses(g, params, tenants, Analysis(doc, digest, tenant))
    ensures !RefusesLeast(g, params, tenants)
  {
    var info, kind := Analysis(doc, digest, tenant), doc.operations[0].kind;
    var nameless := info.(operationName := "", tenantId := "");
    NamelessAllowed(info, params, tenants);
    if KeyPaths(doc) == [] {
      var m := Analysis(LeastSpread(kind), digest, "");
      LeastSpreadSummary(kind, digest);
      NoPathsHasSpread(doc);
      LessAllowed(m, nameless, params, tenants);
      FirstPathAccepted(g, info, m);
    } else {
      var k := FirstRoot(doc, HexText(digest));
      var m := Analysis(LeastField(kind, k), digest, "");
      LeastFieldSummary(kind, k, digest);
      LessAllowed(m, nameless, params, tenants);
      FirstPathAccepted(g, info, m);
    }
  }

  // ---------- Denied documents that a hit lets through ----------

  /** In some run on analysed queries a call for a query that the policy denies is let through. */
  ghost predicate LetThrough(
    g: Settings, params: Params, tenants: map<string, Params>, steps: seq<Step>, denied: Summary)
  {
    && !Allow(BuildInput(denied, params, tenants)) && SchemaVerdict(g, denied).Accepted?
    && Possible(g, steps) && Follows(g, steps, Decide(params, tenants), AnalysedQueries())
    && var s := Run(g, steps);
       1 in s.calls && s.calls[1].Done? && s.calls[1].info == denied && s.calls[1].decision == ALLOW
  }

  /** After an allowed query, a denied one with the same key is let through. */
  lemma DenialForwarded(g: Settings, params: Params, tenants: map<string, Params>, first: Summary, second: Summary)
    returns (steps: seq<Step>)
    requires g.ttl > 0.0 && !g.auditOnly && Key(first) == Key(second)
    requires first in AnalysedQueries() && second in AnalysedQueries()
    requires SchemaVerdict(g, first).Accepted? && SchemaVerdict(g, second).Accepted?
    requires Allow(BuildInput(first, params, tenants)) && !Allow(BuildInput(second, params, tenants))
    ensures LetThrough(g, params, tenants, steps, second)
  {
    steps := SecondGetsFirst(g, Decide(params, tenants), AnalysedQueries(), first, second);
  }

  /** The document with its first operation renamed. */
  function Renamed(doc: Document, name: string): Document
    requires doc.operations != []
  {
    doc.(operations := [doc.operations[0].(name := name)] + doc.operations[1..])
  }

  ghost predicate SameButNames(a: seq<Operation>, b: seq<Operation>) {
    |a| == |b| && forall i | 0 <= i < |a| :: a[i].(name := "") == b[i].(name := "")
  }

  lemma {:induction false} NamesDoNotCount(
    metric: Metric, a: seq<Operation>, b: seq<Operation>, fragments: seq<Fragment>)
    requires SameButNames(a, b)
    ensures Worst(metric, a, fragments) == Worst(metric, b, fragments)
    ensures AllPaths(a, fragments) == AllPaths(b, fragments)
  {
    if a != [] {
      var n := |a| - 1;
      assert a[n].(name := "") == b[n].(name := "");
      assert forall i | 0 <= i < n :: a[..n][i] == a[i] && b[..n][i] == b[i];
      NamesDoNotCount(metric, a[..n], b[..n], fragments);
    }
  }

  const INTROSPECTION_QUERY := "IntrospectionQuery"

  lemma RenamingKeepsKey(
    g: Settings, doc: Document, name: string, digest: seq<bv8>, digest': seq<bv8>, tenant: string)
    requires doc.operations != []
    ensures var a, b := Analysis(doc, digest, tenant), Analysis(Renamed(doc, name), digest', tenant);
            && Key(a) == Key(b) && b.operationName == name && SchemaVerdict(g, a) == SchemaVerdict(g, b)
  {
    var ops, renamed := doc.operations, Renamed(doc, name).operations;
    assert SameButNames(ops, renamed);
    NamesDoNotCount(Depth, ops, renamed, doc.fragments);
    NamesDoNotCount(FieldCount, ops, renamed, doc.fragments);
  }

  lemma RenamedWritten(doc: Document, name: string)
    requires Written(doc) && Acceptable(doc) && name != ""
    ensures Written(Renamed(doc, name)) && Acceptable(Renamed(doc, name))
  {
    var renamed := Renamed(doc, name);
    forall op | op in renamed.operations
      ensures exists other :: other in doc.operations && other.selections == op.selections
      ensures |renamed.operations| > 1 ==> op.name != ""
    {
      var i :| 0 <= i < |renamed.operations| && renamed.operations[i] == op;
      assert doc.operations[i] in doc.operations && doc.operations[i].selections == op.selections;
    }
  }

  /** Every allowed document has a twin that the policy denies and that a hit lets through: the same
      document with its first operation named like an introspection query. */
  lemma EveryAllowedDocumentHasDeniedTwin(
    g: Settings, doc: Document, digest: seq<bv8>, digest': seq<bv8>, tenant: string, params: Params,
    tenants: map<string, Params>)
    returns (steps: seq<Step>)
    requires g.ttl > 0.0 && !g.auditOnly && Written(doc) && Acceptable(doc)
    requires |digest| == HASH_BYTES && |digest'| == HASH_BYTES
    requires !Refuses(g, params, tenants, Analysis(doc, digest, tenant))
    ensures var twin := Renamed(doc, INTROSPECTION_QUERY);
            Acceptable(twin) && LetThrough(g, params, tenants, steps, Analysis(twin, digest', tenant))
  {
    var name := INTROSPECTION_QUERY;
    RenamedWritten(doc, name);
    RenamingKeepsKey(g, doc, name, digest, digest', tenant);
    var first, second := Analysis(doc, digest, tenant), Analysis(Renamed(doc, name), digest', tenant);
    IsAnalysed(first, doc, digest, tenant);
    IsAnalysed(second, Renamed(doc, name), digest', tenant);
    assert Fires(IntrospectionName, BuildInput(second, params, tenants));
    steps := DenialForwarded(g, params, tenants, first, second);
  }

  lemma BlockedDenied(info: Summary, params: Params, blocked: string, tenants: map<string, Params>)
    requires OnlyBlocks(params, blocked) && info.fieldPaths != [] && info.fieldPaths[0] == blocked
    ensures !Allow(BuildInput(info, params, tenants))
  {
    OnlyListed(params, blocked, info, tenants);
    assert Fires(FieldBlocklist, BuildInput(info, params, tenants));
  }

  lemma LeafForwarded(
    g: Settings, first: seq<string>, second: seq<string>, digest: seq<bv8>, digest': seq<bv8>, params: Params,
    tenants: map<string, Params>)
    returns (steps: seq<Step>)
    requires g.ttl > 0.0 && !g.auditOnly && g.schema.None? && |digest| == HASH_BYTES && |digest'| == HASH_BYTES
    requires AreNames(first) && AreNames(second) && first != [] && second != []
    requires (forall name <- first :: name !in INTROSPECTION) && OnlyBlocks(params, second[0]) && second[0] !in first
    requires Key(Summarize(LeafQuery(first), HexText(digest))) == Key(Summarize(LeafQuery(second), HexText(digest')))
    ensures LetThrough(g, params, tenants, steps, Analysis(LeafQuery(second), digest', ""))
  {
    var a, b := Analysis(LeafQuery(first), digest, ""), Analysis(LeafQuery(second), digest', "");
    LeafAnalysed(first, digest);
    LeafAnalysed(second, digest');
    PlainQueryAllowed(a, params, second[0], tenants);
    BlockedDenied(b, params, second[0], tenants);
    steps := DenialForwarded(g, params, tenants, a, b);
  }

  lemma ShiftedNames(x: string, y: string, z: string)
    requires IsName(x) && IsName(y) && IsName(z) && x + y != y + z
    ensures AreNames([x, y + z]) && AreNames([x + y, z]) && x + y !in [x, y + z]
  {
    assert |x + y| != |x|;
  }

  /** A blocked root field passes behind a query whose names run together to the same text:
      `{ xy z }` after `{ x yz }`, for all such names. */
  lemma BlockedFieldForwarded(
    g: Settings, x: string, y: string, z: string, digest: seq<bv8>, digest': seq<bv8>, params: Params,
    tenants: map<string, Params>)
    returns (steps: seq<Step>)
    requires g.ttl > 0.0 && !g.auditOnly && g.schema.None? && |digest| == HASH_BYTES && |digest'| == HASH_BYTES
    requires IsName(x) && IsName(y) && IsName(z) && x + y != y + z
    requires x !in INTROSPECTION && y + z !in INTROSPECTION && OnlyBlocks(params, x + y)
    ensures LetThrough(g, params, tenants, steps, Analysis(LeafQuery([x + y, z]), digest', ""))
  {
    ShiftedQueriesShareKey(x, y, z, HexText(digest), HexText(digest'));
    ShiftedNames(x, y, z);
    steps := LeafForwarded(g, [x, y + z], [x + y, z], digest, digest', params, tenants);
  }

  // ---------- When the cache is transparent ----------

  lemma SameDecisionsTransparent(
    g: Settings, policy: Summary -> Decision, asked: iset<Summary>, d: Decision)
    requires g.ttl > 0.0 ==>
               forall info | info in asked && SchemaVerdict(g, info).Accepted? :: Audited(g, policy(info)) == d
    ensures Transparent(g, policy, asked)
  {
    forall steps, id |
      && Possible(g, steps) && Follows(g, steps, policy, asked) && id in Run(g, steps).calls
      && Run(g, steps).calls[id].Done?
      ensures Run(g, steps).calls[id].decision == Uncached(g, policy, Run(g, steps).calls[id].info)
    {
      CachingRight(g, steps, policy, asked, id);
    }
  }

  /** On analysed queries caching changes no decision of the policy in any run exactly when it is off, in
      audit-only mode, or when not even an anonymous query of one selection gets through. */
  lemma TransparentExactly(g: Settings, params: Params, tenants: map<string, Params>)
    ensures Transparent(g, Decide(params, tenants), AnalysedQueries()) <==>
            g.ttl <= 0.0 || g.auditOnly || RefusesLeast(g, params, tenants)
  {
    var policy := Decide(params, tenants);
    LeastDecides(g, params, tenants);
    if g.ttl <= 0.0 || g.auditOnly {
      SameDecisionsTransparent(g, policy, AnalysedQueries(), ALLOW);
    } else if RefusesAll(g, params, tenants) {
      SameDecisionsTransparent(g, policy, AnalysedQueries(), Decision(false, "blocked by OPA policy"));
    } else {
      var info :| info in AnalysedQueries() && !Refuses(g, params, tenants, info);
      var doc, digest, tenant :| IsAnalysis(info, doc, digest, tenant);
      AllowanceDefeatsCache(g, params, tenants, doc, digest, tenant);
    }
  }

  lemma AllowanceDefeatsCache(
    g: Settings, params: Params, tenants: map<string, Params>, doc: Document, digest: seq<bv8>, tenant: string)
    requires g.ttl > 0.0 && !g.auditOnly && Written(doc) && Acceptable(doc) && |digest| == HASH_BYTES
    requires !Refuses(g, params, tenants, Analysis(doc, digest, tenant))
    ensures !Transparent(g, Decide(params, tenants), AnalysedQueries())
  {
    var steps := EveryAllowedDocumentHasDeniedTwin(g, doc, digest, digest, tenant, params, tenants);
    assert Run(g, steps).calls[1].decision !=
           Uncached(g, Decide(params, tenants), Run(g, steps).calls[1].info);
  }
}
