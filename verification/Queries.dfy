/** The queries that the analyser can yield, and small ones with all their measures. */
module Queries {
  import opened Ast
  import opened Text
  import opened Traversal
  import opened Counters
  import opened Inlining
  import opened Analyzer
  import opened CacheKey
  import opened Requests
  import opened Enforcement

  /** Selection sets that are written are not empty; fields need not have one. */
  predicate NoEmptySets(selections: seq<Selection>) {
    selections == [] ||
    (&& (selections[0].InlineFragment? ==> selections[0].selections != [])
     && (!selections[0].FragmentSpread? ==> NoEmptySets(selections[0].selections))
     && NoEmptySets(selections[1..]))
  }

  /** A document as the grammar allows it (section 2 of the GraphQL Specification, October 2021). */
  predicate Written(doc: Document) {
    && WellNamed(doc) && RealNamedDocument(doc)
    && (forall op <- doc.operations :: op.selections != [] && NoEmptySets(op.selections))
    && (forall f <- doc.fragments :: f.selections != [] && NoEmptySets(f.selections))
  }

  /** What the analyser makes of a document, for a tenant or none. */
  function Analysis(doc: Document, digest: seq<bv8>, tenant: string): Summary
    requires doc.operations != []
  {
    Summarize(doc, HexText(digest)).(tenantId := tenant)
  }

  predicate IsAnalysis(info: Summary, doc: Document, digest: seq<bv8>, tenant: string) {
    Written(doc) && Acceptable(doc) && |digest| == HASH_BYTES && info == Analysis(doc, digest, tenant)
  }

  ghost predicate Analysed(info: Summary) {
    exists doc, digest, tenant :: IsAnalysis(info, doc, digest, tenant)
  }

  ghost function AnalysedQueries(): iset<Summary> {
    iset info: Summary | Analysed(info)
  }

  lemma IsAnalysed(info: Summary, doc: Document, digest: seq<bv8>, tenant: string)
    requires IsAnalysis(info, doc, digest, tenant)
    ensures info in AnalysedQueries()
  {
  }

  lemma WithoutTenant(doc: Document, digest: seq<bv8>)
    requires doc.operations != []
    ensures Analysis(doc, digest, "") == Summarize(doc, HexText(digest))
  {
  }

  /** Every analysed query has a hash, one of three operation types, and at least one operation. */
  lemma AnalysedFacts(info: Summary)
    requires info in AnalysedQueries()
    ensures info.queryHash != "" && '|' !in info.operationType && info.batchSize >= 1
  {
    var doc, digest, tenant :| IsAnalysis(info, doc, digest, tenant);
    PlainType(doc.operations[0].kind);
  }

  lemma PlainType(kind: OperationKind)
    ensures '|' !in TypeName(kind)
  {
  }

  // ---------- One operation ----------

  function Single(name: string, kind: OperationKind, selections: seq<Selection>): Document {
    Document([Operation(name, kind, 0, [], selections)], [])
  }

  lemma SingleSummary(name: string, kind: OperationKind, selections: seq<Selection>, hash: string)
    ensures var s, t := Summarize(Single(name, kind, selections), hash), OperationTally(selections, []);
            && s.operationType == TypeName(kind) && s.operationName == name && s.tenantId == "" && s.queryHash == hash
            && s.depth == t.depth && s.fieldCount == t.fieldCount && s.fieldPaths == t.fieldPaths
            && s.directives == t.directives && s.batchSize == 1 && s.argumentDepth == t.argumentDepth
            && s.listsRequested == t.listsRequested && s.fragmentSpreadCount == t.fragmentSpreadCount
  {
    var op := Operation(name, kind, 0, [], selections);
    OneOperation(op, [], Depth);
    OneOperation(op, [], FieldCount);
    OneOperation(op, [], DirectiveCount);
    OneOperation(op, [], ArgumentNesting);
    OneOperation(op, [], ListCount);
    OneOperation(op, [], SpreadCount);
    CountAllCloses(Walk(selections, [], [], {}).trace);
    assert [op][..0] == [];
    var paths := FieldPaths(Walk(selections, [], [], {}).trace);
    assert AllPaths([op], []) == [] + paths == paths;
  }

  /** Leaf fields and spreads. */
  predicate Flat(selections: seq<Selection>) {
    forall sel <- selections :: sel.FragmentSpread? || (sel.Field? && sel.selections == [])
  }

  function FlatVisit(sel: Selection): Visit {
    Visit(if sel.Field? then [ResponseKey(sel)] else [], NodeOf(sel), true)
  }

  function FlatVisits(selections: seq<Selection>): seq<Visit> {
    if selections == [] then [] else [FlatVisit(selections[0])] + FlatVisits(selections[1..])
  }

  /** The walk of a flat selection set without fragments, one selection at a time. */
  lemma FlatStep(selections: seq<Selection>, visited: set<string>)
    requires selections != [] && Flat(selections)
    ensures Flat(selections[1..])
    ensures var sel := selections[0];
            Walk(selections, [], [], visited).trace ==
            [VisitOf(sel, [], visited)] + Walk(selections[1..], [], [], Enter(sel, [], [], visited).visited).trace
  {
    var sel := selections[0];
    assert sel in selections && forall s :: s in selections[1..] ==> s in selections;
    EnterDecreases(sel, [], [], visited);
    var b := Enter(sel, [], [], visited);
    assert Walk(b.selections, b.names, [], b.visited) == Walked([], b.visited);
  }

  lemma SameCount(t: Tally, sel: Selection, visited: set<string>)
    ensures Count(t, VisitOf(sel, [], visited)) == Count(t, FlatVisit(sel))
  {
    if sel.Field? {
      assert [] + [ResponseKey(sel)] == [ResponseKey(sel)];
    }
  }

  /** Without fragments a flat selection set is counted selection by selection. */
  lemma {:induction false} FlatCount(selections: seq<Selection>, visited: set<string>, t: Tally)
    requires Flat(selections)
    ensures CountAll(t, Walk(selections, [], [], visited).trace) == CountAll(t, FlatVisits(selections))
    decreases |selections|
  {
    if selections != [] {
      var sel := selections[0];
      var next := Enter(sel, [], [], visited).visited;
      FlatStep(selections, visited);
      SameCount(t, sel, visited);
      CountFirst(t, VisitOf(sel, [], visited), Walk(selections[1..], [], [], next).trace);
      CountFirst(t, FlatVisit(sel), FlatVisits(selections[1..]));
      FlatCount(selections[1..], next, Count(t, FlatVisit(sel)));
    }
  }

  /** One leaf. */
  lemma OneLeaf(f: Selection)
    requires f.Field? && f.selections == []
    ensures OperationTally([f], []) == Count(ZERO, FlatVisit(f))
  {
    FlatCount([f], {}, ZERO);
    assert FlatVisits([f]) == [FlatVisit(f)] + FlatVisits([]);
    CountFirst(ZERO, FlatVisit(f), []);
  }

  lemma OneSpread(name: string)
    ensures OperationTally([FragmentSpread(name, 0)], []) == ZERO.(fragmentSpreadCount := 1)
  {
    var spread := FragmentSpread(name, 0);
    FlatCount([spread], {}, ZERO);
    assert FlatVisits([spread]) == [FlatVisit(spread)] + FlatVisits([]);
    CountFirst(ZERO, FlatVisit(spread), []);
  }

  lemma Two(a: Selection, b: Selection)
    requires Flat([a, b])
    ensures OperationTally([a, b], []) == Count(Count(ZERO, FlatVisit(a)), FlatVisit(b))
  {
    FlatCount([a, b], {}, ZERO);
    assert [a, b][1..] == [b] && [b][1..] == [];
    assert FlatVisits([b]) == [FlatVisit(b)] + FlatVisits([]);
    assert FlatVisits([a, b]) == [FlatVisit(a)] + FlatVisits([b]);
    CountFirst(ZERO, FlatVisit(a), FlatVisits([b]));
    CountFirst(Count(ZERO, FlatVisit(a)), FlatVisit(b), []);
  }

  /** The measures of a leaf, path included. */
  lemma LeafMeasures(f: Selection)
    requires f.Field? && f.selections == []
    ensures OperationTally([f], []) ==
            Tally(1, 1, [ResponseKey(f)], f.directives, ArgumentsDepth(f.arguments),
                  if LooksLikeList(ResponseKey(f)) then 1 else 0, 0, 0)
  {
    OneLeaf(f);
    RenderOne(ResponseKey(f));
  }

  // ---------- Leaf queries ----------

  function Leaves(names: seq<string>): seq<Selection> {
    if names == [] then [] else [Leaf(names[0])] + Leaves(names[1..])
  }

  /** An anonymous query of leaf fields. */
  function LeafQuery(names: seq<string>): Document {
    Single("", Query, Leaves(names))
  }

  function Singles(names: seq<string>): seq<seq<string>> {
    if names == [] then [] else [[names[0]]] + Singles(names[1..])
  }

  lemma {:induction false} LeafPaths(names: seq<string>)
    ensures FieldPaths(Walk(Leaves(names), [], [], {}).trace) == Singles(names)
  {
    if names != [] {
      LeafPaths(names[1..]);
      WalkPaths(Leaves(names), [], [], {});
      assert Leaves(names)[1..] == Leaves(names[1..]);
      assert [] + [names[0]] == [names[0]];
    }
  }

  lemma {:induction false} SinglesMeasured(names: seq<string>)
    ensures RenderAll(Singles(names)) == names && |Singles(names)| == |names|
    ensures Deepest(Singles(names)) == if names == [] then 0 else 1
  {
    if names != [] {
      SinglesMeasured(names[1..]);
      RenderOne(names[0]);
      assert Singles(names)[1..] == Singles(names[1..]);
    }
  }

  lemma LeafQuerySummary(names: seq<string>, hash: string)
    ensures var s := Summarize(LeafQuery(names), hash);
            && s.operationType == "query" && s.operationName == "" && s.fieldPaths == names && s.tenantId == ""
            && s.depth == (if names == [] then 0 else 1) && s.fieldCount == |names| && s.queryHash == hash
  {
    var trace := Walk(Leaves(names), [], [], {}).trace;
    SingleSummary("", Query, Leaves(names), hash);
    LeafPaths(names);
    SinglesMeasured(names);
    CountAllCloses(trace);
    FieldPathsTotal(trace);
  }

  /** Leaf queries with equally many fields whose names run together to the same text share a key. */
  lemma LeafQueriesShareKey(a: seq<string>, b: seq<string>, hash: string, hash': string)
    requires |a| == |b| && Joined(a) == Joined(b)
    ensures Key(Summarize(LeafQuery(a), hash)) == Key(Summarize(LeafQuery(b), hash'))
  {
    LeafQuerySummary(a, hash);
    LeafQuerySummary(b, hash');
    KeyIgnoresBoundaries(Summarize(LeafQuery(a), hash), Summarize(LeafQuery(b), hash'));
  }

  lemma JoinedTwo(a: string, b: string)
    ensures Joined([a, b]) == a + b
  {
    assert [a, b][1..] == [b] && [b][1..] == [];
    assert Joined([b]) == b + Joined([]);
  }

  lemma ShiftedQueriesShareKey(x: string, y: string, z: string, hash: string, hash': string)
    ensures Key(Summarize(LeafQuery([x, y + z]), hash)) == Key(Summarize(LeafQuery([x + y, z]), hash'))
  {
    JoinedTwo(x, y + z);
    JoinedTwo(x + y, z);
    assert x + y + z == x + (y + z);
    LeafQueriesShareKey([x, y + z], [x + y, z], hash, hash');
  }

  lemma {:induction false} LeavesWritten(names: seq<string>)
    requires AreNames(names)
    ensures NamesValid(Own(Leaves(names))) && RealNamed(Leaves(names)) && NoEmptySets(Leaves(names))
  {
    if names != [] {
      assert IsName(names[0]) && AreNames(names[1..]);
      LeavesWritten(names[1..]);
      assert Own(Leaves(names)) == [NodeOf(Leaf(names[0]))] + [] + Own(Leaves(names[1..]));
    }
  }

  lemma LeafQueryWritten(names: seq<string>)
    requires AreNames(names) && names != []
    ensures Written(LeafQuery(names)) && Acceptable(LeafQuery(names))
  {
    LeavesWritten(names);
  }

  /** One leaf, with directives and arguments. */
  lemma SingleLeafWritten(name: string, kind: OperationKind, f: Selection)
    requires f.Field? && f.selections == [] && IsName(f.name) && IsName(ResponseKey(f))
    ensures Written(Single(name, kind, [f])) && Acceptable(Single(name, kind, [f]))
  {
    assert [f][1..] == [] && Own([f]) == [NodeOf(f)];
    assert RealNamed([]) && NoEmptySets([]) && RealNamed([f]) && NoEmptySets([f]);
  }

  lemma SingleSpreadWritten(name: string, kind: OperationKind, fragment: string)
    ensures var doc := Single(name, kind, [FragmentSpread(fragment, 0)]); Written(doc) && Acceptable(doc)
  {
    var spread := FragmentSpread(fragment, 0);
    assert [spread][1..] == [] && Own([spread]) == [NodeOf(spread)];
    assert RealNamed([]) && NoEmptySets([]) && RealNamed([spread]) && NoEmptySets([spread]);
  }

  lemma LeafAnalysed(names: seq<string>, digest: seq<bv8>)
    requires AreNames(names) && names != [] && |digest| == HASH_BYTES
    ensures var s := Analysis(LeafQuery(names), digest, "");
            && s in AnalysedQueries() && s == Summarize(LeafQuery(names), HexText(digest))
            && s.operationType == "query" && s.operationName == "" && s.fieldPaths == names && s.tenantId == ""
  {
    LeafQueryWritten(names);
    LeafQuerySummary(names, HexText(digest));
    WithoutTenant(LeafQuery(names), digest);
    IsAnalysed(Analysis(LeafQuery(names), digest, ""), LeafQuery(names), digest, "");
  }
}
