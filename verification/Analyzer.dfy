/** The analysis of a whole document: the worst measures over its operations, and how they fit together. */
module Analyzer {
  import opened Ast
  import opened Text
  import opened Traversal
  import opened Exactness
  import opened Counters

  datatype Result<+T> = Ok(value: T) | Err(message: string)

  datatype Summary = Summary(
    operationType: string, operationName: string, depth: nat, fieldCount: nat, fieldPaths: seq<string>,
    directives: nat, batchSize: nat, argumentDepth: nat, listsRequested: nat, fragmentSpreadCount: nat,
    queryHash: string, variableCount: nat, hasDefaultVariables: bool, operationDirectives: nat,
    inlineFragmentTypesCount: nat, fragmentCount: nat, tenantId: string)

  // ---------- The intended result ----------

  datatype Metric =
    | Depth | FieldCount | DirectiveCount | ArgumentNesting | ListCount | SpreadCount | VariableCount
    | OperationDirectiveCount | InlineTypeCount

  function DefinitionDirectives(fragments: seq<Fragment>): nat {
    if fragments == [] then 0
    else DefinitionDirectives(fragments[..|fragments| - 1]) + fragments[|fragments| - 1].directives
  }

  function Measure(metric: Metric, op: Operation, fragments: seq<Fragment>): nat {
    var t := OperationTally(op.selections, fragments);
    match metric
    case Depth => t.depth
    case FieldCount => t.fieldCount
    case DirectiveCount => t.directives + DefinitionDirectives(fragments)
    case ArgumentNesting => t.argumentDepth
    case ListCount => t.listsRequested
    case SpreadCount => t.fragmentSpreadCount
    case VariableCount => |op.variables|
    case OperationDirectiveCount => op.directives
    case InlineTypeCount => t.inlineFragmentTypesCount
  }

  /** The largest measure of any operation. */
  function Worst(metric: Metric, operations: seq<Operation>, fragments: seq<Fragment>): nat {
    if operations == [] then 0 else
    Max(Worst(metric, operations[..|operations| - 1], fragments),
        Measure(metric, operations[|operations| - 1], fragments))
  }

  /** The field paths of all operations, in document order. */
  function AllPaths(operations: seq<Operation>, fragments: seq<Fragment>): seq<seq<string>> {
    if operations == [] then [] else
    AllPaths(operations[..|operations| - 1], fragments)
    + FieldPaths(Walk(operations[|operations| - 1].selections, [], fragments, {}).trace)
  }

  function TypeName(kind: OperationKind): string {
    match kind
    case Query => "query"
    case Mutation => "mutation"
    case Subscription => "subscription"
    case OtherKind => "query"
  }

  predicate HasDefault(op: Operation) {
    exists v <- op.variables :: v.default.Some?
  }

  /** At least one operation, and several only when all are named. */
  predicate Acceptable(doc: Document) {
    && doc.operations != []
    && (|doc.operations| > 1 ==> forall op <- doc.operations :: op.name != "")
  }

  function Summarize(doc: Document, hash: string): Summary
    requires doc.operations != []
  {
    var ops, fragments := doc.operations, doc.fragments;
    Summary(
      TypeName(ops[0].kind), ops[0].name, Worst(Depth, ops, fragments), Worst(FieldCount, ops, fragments),
      RenderAll(AllPaths(ops, fragments)), Worst(DirectiveCount, ops, fragments), |ops|,
      Worst(ArgumentNesting, ops, fragments), Worst(ListCount, ops, fragments), Worst(SpreadCount, ops, fragments),
      hash, Worst(VariableCount, ops, fragments), exists op <- ops :: HasDefault(op),
      Worst(OperationDirectiveCount, ops, fragments), Worst(InlineTypeCount, ops, fragments), |fragments|, "")
  }

  /** `Worst` is an upper bound over the operations, and one of them attains it. */
  lemma {:induction false} WorstIsMaximum(metric: Metric, operations: seq<Operation>, fragments: seq<Fragment>)
    ensures forall op <- operations :: Measure(metric, op, fragments) <= Worst(metric, operations, fragments)
    ensures operations != [] ==>
              exists op <- operations :: Measure(metric, op, fragments) == Worst(metric, operations, fragments)
  {
    if operations != [] {
      var init, last := operations[..|operations| - 1], operations[|operations| - 1];
      WorstIsMaximum(metric, init, fragments);
      MoreOrLast(operations);
      var m, n := Worst(metric, init, fragments), Measure(metric, last, fragments);
      assert Worst(metric, operations, fragments) == Max(m, n);
      assert init == [] ==> m == 0;
    }
  }

  lemma MoreOrLast<T>(s: seq<T>)
    requires s != []
    ensures forall x :: x in s <==> x in s[..|s| - 1] || x == s[|s| - 1]
  {
    assert s == s[..|s| - 1] + [s[|s| - 1]];
  }

  lemma OneOperation(op: Operation, fragments: seq<Fragment>, metric: Metric)
    ensures Worst(metric, [op], fragments) == Measure(metric, op, fragments)
  {
    assert [op][..0] == [];
  }

  // ---------- The code ----------

  /** The counters of one operation, as the loop body of the analysis fills them. */
  method AnalyzeOperation(op: Operation, fragments: seq<Fragment>) returns (t: Tally, hasDefault: bool)
    ensures t == OperationTally(op.selections, fragments).(
                   directives := Measure(DirectiveCount, op, fragments))
    ensures hasDefault <==> HasDefault(op)
  {
    hasDefault := false;
    for i := 0 to |op.variables|
      invariant !hasDefault && forall j | 0 <= j < i :: op.variables[j].default.None?
    {
      if op.variables[i].default.Some? {
        hasDefault := true;
        break;
      }
    }
    var info := new QueryInfo();
    var visited := new VisitedFragments();
    WalkSelections(op.selections, "", 0, info, fragments, visited, []);
    ghost var walked := info.directives;
    for i := 0 to |fragments|
      invariant info.Counts() == OperationTally(op.selections, fragments).(
                                   directives := walked + DefinitionDirectives(fragments[..i]))
    {
      assert fragments[..i + 1][..i] == fragments[..i];
      info.directives := info.directives + fragments[i].directives;
    }
    assert fragments[..|fragments|] == fragments;
    t := info.Counts();
  }

  lemma {:induction false} RenderAllConcat(a: seq<seq<string>>, b: seq<seq<string>>)
    ensures RenderAll(a + b) == RenderAll(a) + RenderAll(b)
  {
    if a == [] {
      assert a + b == b;
    } else {
      assert (a + b)[1..] == a[1..] + b;
      RenderAllConcat(a[1..], b);
    }
  }

  /** The field of a summary that holds a metric. */
  function Reported(info: Summary, metric: Metric): nat {
    match metric
    case Depth => info.depth
    case FieldCount => info.fieldCount
    case DirectiveCount => info.directives
    case ArgumentNesting => info.argumentDepth
    case ListCount => info.listsRequested
    case SpreadCount => info.fragmentSpreadCount
    case VariableCount => info.variableCount
    case OperationDirectiveCount => info.operationDirectives
    case InlineTypeCount => info.inlineFragmentTypesCount
  }

  /** The measures and paths in `info` are those of the first `n` operations. */
  ghost predicate CoversPrefix(info: Summary, doc: Document, n: nat)
    requires n <= |doc.operations|
  {
    && (forall metric :: Reported(info, metric) == Worst(metric, doc.operations[..n], doc.fragments))
    && info.fieldPaths == RenderAll(AllPaths(doc.operations[..n], doc.fragments))
    && info.hasDefaultVariables == (exists op <- doc.operations[..n] :: HasDefault(op))
  }

  /** The summary after one more operation; the first operation gives the name and the type. */
  function Aggregate(info: Summary, op: Operation, t: Tally, hasDefault: bool): Summary {
    info.(operationName := if info.operationName == "" then op.name else info.operationName,
          operationType := if info.operationType == "" then TypeName(op.kind) else info.operationType,
          depth := Max(info.depth, t.depth),
          fieldCount := Max(info.fieldCount, t.fieldCount),
          fieldPaths := info.fieldPaths + t.fieldPaths,
          directives := Max(info.directives, t.directives),
          argumentDepth := Max(info.argumentDepth, t.argumentDepth),
          listsRequested := Max(info.listsRequested, t.listsRequested),
          fragmentSpreadCount := Max(info.fragmentSpreadCount, t.fragmentSpreadCount),
          variableCount := Max(info.variableCount, |op.variables|),
          hasDefaultVariables := info.hasDefaultVariables || hasDefault,
          operationDirectives := Max(info.operationDirectives, op.directives),
          inlineFragmentTypesCount := Max(info.inlineFragmentTypesCount, t.inlineFragmentTypesCount))
  }

  lemma AggregateField(info: Summary, op: Operation, fragments: seq<Fragment>, t: Tally, b: bool, metric: Metric)
    requires t == OperationTally(op.selections, fragments).(directives := Measure(DirectiveCount, op, fragments))
    ensures Reported(Aggregate(info, op, t, b), metric) == Max(Reported(info, metric), Measure(metric, op, fragments))
  {
  }

  lemma WorstExtend(metric: Metric, operations: seq<Operation>, n: nat, fragments: seq<Fragment>)
    requires n < |operations|
    ensures Worst(metric, operations[..n + 1], fragments) ==
            Max(Worst(metric, operations[..n], fragments), Measure(metric, operations[n], fragments))
  {
    assert operations[..n + 1][..n] == operations[..n];
  }

  lemma AllPathsExtend(operations: seq<Operation>, n: nat, fragments: seq<Fragment>)
    requires n < |operations|
    ensures RenderAll(AllPaths(operations[..n + 1], fragments)) ==
            RenderAll(AllPaths(operations[..n], fragments))
            + OperationTally(operations[n].selections, fragments).fieldPaths
  {
    assert operations[..n + 1][..n] == operations[..n];
    var trace := Walk(operations[n].selections, [], fragments, {}).trace;
    CountAllPaths(ZERO, trace);
    RenderAllConcat(AllPaths(operations[..n], fragments), FieldPaths(trace));
  }

  lemma AggregateCovers(info: Summary, doc: Document, n: nat, t: Tally)
    requires n < |doc.operations| && CoversPrefix(info, doc, n)
    requires t == OperationTally(doc.operations[n].selections, doc.fragments).(
                    directives := Measure(DirectiveCount, doc.operations[n], doc.fragments))
    ensures CoversPrefix(Aggregate(info, doc.operations[n], t, HasDefault(doc.operations[n])), doc, n + 1)
  {
    var op, fragments := doc.operations[n], doc.fragments;
    var next := Aggregate(info, op, t, HasDefault(op));
    forall metric
      ensures Reported(next, metric) == Worst(metric, doc.operations[..n + 1], fragments)
    {
      AggregateField(info, op, fragments, t, HasDefault(op), metric);
      WorstExtend(metric, doc.operations, n, fragments);
    }
    AllPathsExtend(doc.operations, n, fragments);
    assert forall o :: o in doc.operations[..n + 1] <==> o in doc.operations[..n] || o == op;
  }

  /** The loop over all operations. */
  method AnalyzeOperations(doc: Document, hash: string) returns (info: Summary)
    requires Acceptable(doc)
    ensures info == Summarize(doc, hash)
  {
    info := Summary("", "", 0, 0, [], 0, |doc.operations|, 0, 0, 0, hash, 0, false, 0, 0, |doc.fragments|, "");
    for i := 0 to |doc.operations|
      invariant CoversPrefix(info, doc, i)
      invariant info.batchSize == |doc.operations| && info.queryHash == hash
      invariant info.fragmentCount == |doc.fragments| && info.tenantId == ""
      invariant info.operationType == if i > 0 then TypeName(doc.operations[0].kind) else ""
      invariant info.operationName == if i > 0 then doc.operations[0].name else ""
    {
      var t, hasDefault := AnalyzeOperation(doc.operations[i], doc.fragments);
      AggregateCovers(info, doc, i, t);
      info := Aggregate(info, doc.operations[i], t, hasDefault);
    }
    CoversAll(info, doc, hash);
  }

  lemma CoversAll(info: Summary, doc: Document, hash: string)
    requires doc.operations != [] && CoversPrefix(info, doc, |doc.operations|)
    requires info.batchSize == |doc.operations| && info.queryHash == hash
    requires info.fragmentCount == |doc.fragments| && info.tenantId == ""
    requires info.operationType == TypeName(doc.operations[0].kind) && info.operationName == doc.operations[0].name
    ensures info == Summarize(doc, hash)
  {
    assert doc.operations[..|doc.operations|] == doc.operations;
    var s := Summarize(doc, hash);
    forall metric
      ensures Reported(info, metric) == Reported(s, metric)
    {
      SummarizeReports(doc, hash, metric);
    }
    SameSummary(info, s);
  }

  lemma SummarizeReports(doc: Document, hash: string, metric: Metric)
    requires doc.operations != []
    ensures Reported(Summarize(doc, hash), metric) == Worst(metric, doc.operations, doc.fragments)
  {
  }

  lemma SameSummary(a: Summary, b: Summary)
    requires forall metric :: Reported(a, metric) == Reported(b, metric)
    requires a.operationType == b.operationType && a.operationName == b.operationName
    requires a.fieldPaths == b.fieldPaths && a.batchSize == b.batchSize && a.queryHash == b.queryHash
    requires a.hasDefaultVariables == b.hasDefaultVariables && a.fragmentCount == b.fragmentCount
    requires a.tenantId == b.tenantId
    ensures a == b
  {
    assert Reported(a, Depth) == Reported(b, Depth) && Reported(a, FieldCount) == Reported(b, FieldCount);
    assert Reported(a, DirectiveCount) == Reported(b, DirectiveCount);
    assert Reported(a, ArgumentNesting) == Reported(b, ArgumentNesting);
    assert Reported(a, ListCount) == Reported(b, ListCount) && Reported(a, SpreadCount) == Reported(b, SpreadCount);
    assert Reported(a, VariableCount) == Reported(b, VariableCount);
    assert Reported(a, OperationDirectiveCount) == Reported(b, OperationDirectiveCount);
    assert Reported(a, InlineTypeCount) == Reported(b, InlineTypeCount);
  }

  /** `parsed` is what the GraphQL library makes of `query`, `hash` its digest. */
  method ParseGraphQL(query: string, parsed: Result<Document>, hash: string) returns (r: Result<Summary>)
    ensures query == "" ==> r == Err("empty query")
    ensures query != "" && parsed.Err? ==> r == Err("parsing query: " + parsed.message)
    ensures query != "" && parsed.Ok? ==>
              var ops := parsed.value.operations;
              if ops == [] then r == Err("no operations in query")
              else if |ops| > 1 && exists op <- ops :: op.name == ""
              then r == Err("multiple operations require unique operation names")
              else r == Ok(Summarize(parsed.value, hash))
  {
    if query == "" {
      return Err("empty query");
    }
    if parsed.Err? {
      return Err("parsing query: " + parsed.message);
    }
    var doc := parsed.value;
    if |doc.operations| == 0 {
      return Err("no operations in query");
    }
    if |doc.operations| > 1 {
      for i := 0 to |doc.operations|
        invariant forall j | 0 <= j < i :: doc.operations[j].name != ""
      {
        if doc.operations[i].name == "" {
          assert doc.operations[i] in doc.operations;
          return Err("multiple operations require unique operation names");
        }
      }
    }
    var info := AnalyzeOperations(doc, hash);
    r := Ok(info);
  }

  // ---------- How the measures fit together ----------

  /** Every path is longer than `base` and extends it, and follows its own parent unless that is `base`. */
  ghost predicate ParentsFirst(paths: seq<seq<string>>, base: seq<string>) {
    forall i | 0 <= i < |paths| :: HasParent(paths, base, i)
  }

  ghost predicate HasParent(paths: seq<seq<string>>, base: seq<string>, i: nat)
    requires i < |paths|
  {
    && |paths[i]| > |base|
    && base <= paths[i]
    && (|paths[i]| > |base| + 1 ==> exists j | 0 <= j < i :: paths[j] == paths[i][..|paths[i]| - 1])
  }

  lemma ParentsFirstConcat(a: seq<seq<string>>, b: seq<seq<string>>, base: seq<string>)
    requires ParentsFirst(a, base) && ParentsFirst(b, base)
    ensures ParentsFirst(a + b, base)
  {
    forall i | 0 <= i < |a + b|
      ensures HasParent(a + b, base, i)
    {
      if i < |a| {
        assert HasParent(a, base, i);
        if |a[i]| > |base| + 1 {
          var j :| 0 <= j < i && a[j] == a[i][..|a[i]| - 1];
          assert (a + b)[j] == a[j];
        }
      } else {
        var k := i - |a|;
        assert HasParent(b, base, k);
        if |b[k]| > |base| + 1 {
          var j :| 0 <= j < k && b[j] == b[k][..|b[k]| - 1];
          assert (a + b)[|a| + j] == b[j];
        }
      }
    }
  }

  lemma ParentsFirstUnder(paths: seq<seq<string>>, base: seq<string>, key: string)
    requires ParentsFirst(paths, base + [key])
    ensures ParentsFirst([base + [key]] + paths, base)
  {
    var all := [base + [key]] + paths;
    forall i | 0 <= i < |all|
      ensures HasParent(all, base, i)
    {
      if i > 0 {
        assert HasParent(paths, base + [key], i - 1);
        if |all[i]| > |base| + 2 {
          var j :| 0 <= j < i - 1 && paths[j] == all[i][..|all[i]| - 1];
          assert all[j + 1] == paths[j];
        } else {
          assert all[0] == all[i][..|all[i]| - 1];
        }
      }
    }
  }

  lemma ParentsFirstStep(
    sel: Selection, names: seq<string>, below: seq<string>, beneath: seq<seq<string>>, rest: seq<seq<string>>)
    requires below == if sel.Field? then names + [ResponseKey(sel)] else names
    requires ParentsFirst(beneath, below) && ParentsFirst(rest, names)
    ensures ParentsFirst((if sel.Field? then [below] else []) + beneath + rest, names)
  {
    if sel.Field? {
      ParentsFirstUnder(beneath, names, ResponseKey(sel));
      ParentsFirstConcat([below] + beneath, rest, names);
    } else {
      ParentsFirstConcat(beneath, rest, names);
      assert [] + beneath + rest == beneath + rest;
    }
  }

  lemma {:induction false} WalkParentsFirst(
    selections: seq<Selection>, names: seq<string>, fragments: seq<Fragment>, visited: set<string>)
    ensures ParentsFirst(FieldPaths(Walk(selections, names, fragments, visited).trace), names)
    decreases Defined(fragments) - visited, |Own(selections)|
  {
    if selections != [] {
      var sel := selections[0];
      EnterDecreases(sel, names, fragments, visited);
      var b := Enter(sel, names, fragments, visited);
      var inner := Walk(b.selections, b.names, fragments, b.visited);
      var rest := Walk(selections[1..], names, fragments, inner.visited).trace;
      WalkParentsFirst(b.selections, b.names, fragments, b.visited);
      WalkParentsFirst(selections[1..], names, fragments, inner.visited);
      FieldPathsHead(VisitOf(sel, names, visited), inner.trace, rest);
      ParentsFirstStep(sel, names, b.names, FieldPaths(inner.trace), FieldPaths(rest));
    }
  }

  /** The paths of a document: parents come before children. */
  lemma {:induction false} AllPathsParentsFirst(operations: seq<Operation>, fragments: seq<Fragment>)
    ensures ParentsFirst(AllPaths(operations, fragments), [])
  {
    if operations != [] {
      var init, last := operations[..|operations| - 1], operations[|operations| - 1];
      AllPathsParentsFirst(init, fragments);
      WalkParentsFirst(last.selections, [], fragments, {});
      ParentsFirstConcat(AllPaths(init, fragments), FieldPaths(Walk(last.selections, [], fragments, {}).trace), []);
    }
  }

  /** Every prefix of a listed path is listed. */
  lemma {:induction false} PrefixListedToo(paths: seq<seq<string>>, i: nat, n: nat)
    requires ParentsFirst(paths, []) && i < |paths| && 1 <= n <= |paths[i]|
    ensures paths[i][..n] in paths
    decreases i
  {
    assert HasParent(paths, [], i);
    if n == |paths[i]| {
      assert paths[i][..n] == paths[i];
    } else {
      var j :| 0 <= j < i && paths[j] == paths[i][..|paths[i]| - 1];
      PrefixListedToo(paths, j, n);
      assert paths[j][..n] == paths[i][..n];
    }
  }

  lemma {:induction false} PathNoLongerThanPosition(paths: seq<seq<string>>, i: nat)
    requires ParentsFirst(paths, []) && i < |paths|
    ensures |paths[i]| <= i + 1
    decreases i
  {
    assert HasParent(paths, [], i);
    if |paths[i]| > 1 {
      var j :| 0 <= j < i && paths[j] == paths[i][..|paths[i]| - 1];
      PathNoLongerThanPosition(paths, j);
    }
  }

  lemma {:induction false} DeepestIsMaximum(paths: seq<seq<string>>)
    ensures forall path <- paths :: |path| <= Deepest(paths)
    ensures paths != [] ==> exists path <- paths :: |path| == Deepest(paths)
  {
    if paths != [] {
      DeepestIsMaximum(paths[1..]);
      assert forall path :: path in paths <==> path == paths[0] || path in paths[1..];
    }
  }

  lemma DepthWithinCount(paths: seq<seq<string>>)
    requires ParentsFirst(paths, [])
    ensures Deepest(paths) <= |paths|
  {
    DeepestIsMaximum(paths);
    if paths != [] {
      var path :| path in paths && |path| == Deepest(paths);
      var i :| 0 <= i < |paths| && paths[i] == path;
      PathNoLongerThanPosition(paths, i);
    }
  }

  lemma OperationFits(op: Operation, fragments: seq<Fragment>)
    ensures Measure(Depth, op, fragments) <= Measure(FieldCount, op, fragments)
    ensures var paths := FieldPaths(Walk(op.selections, [], fragments, {}).trace);
            Measure(FieldCount, op, fragments) == |paths| && Measure(Depth, op, fragments) == Deepest(paths)
  {
    var trace := Walk(op.selections, [], fragments, {}).trace;
    CountAllCloses(trace);
    FieldPathsTotal(trace);
    WalkParentsFirst(op.selections, [], fragments, {});
    DepthWithinCount(FieldPaths(trace));
  }

  lemma {:induction false} RenderAllLength(paths: seq<seq<string>>)
    ensures |RenderAll(paths)| == |paths|
    ensures forall i | 0 <= i < |paths| :: RenderAll(paths)[i] == Render(paths[i])
  {
    if paths != [] {
      RenderAllLength(paths[1..]);
      assert forall i | 0 < i < |paths| :: paths[i] == paths[1..][i - 1];
    }
  }

  lemma {:induction false} DocumentFits(operations: seq<Operation>, fragments: seq<Fragment>)
    ensures var paths, fields := AllPaths(operations, fragments), Worst(FieldCount, operations, fragments);
            && Worst(Depth, operations, fragments) == Deepest(paths) <= fields <= |paths| <= |operations| * fields
  {
    if operations != [] {
      var init, last := operations[..|operations| - 1], operations[|operations| - 1];
      DocumentFits(init, fragments);
      OperationFits(last, fragments);
      DeepestConcat(AllPaths(init, fragments), FieldPaths(Walk(last.selections, [], fragments, {}).trace));
      AddOneMore(|init|, Worst(FieldCount, init, fragments), Worst(FieldCount, operations, fragments),
                 |AllPaths(init, fragments)|);
    }
  }

  lemma AddOneMore(n: nat, before: nat, after: nat, total: nat)
    requires before <= after && total <= n * before
    ensures total + after <= (n + 1) * after
  {
  }

  /** The measures of every accepted document fit together: depth is the length of the longest
      path, and depth, field count, path count and batch size bound one another. */
  lemma MeasuresFit(doc: Document, hash: string)
    requires doc.operations != []
    ensures var s, paths := Summarize(doc, hash), AllPaths(doc.operations, doc.fragments);
            && s.fieldPaths == RenderAll(paths)
            && ParentsFirst(paths, [])
            && s.depth == Deepest(paths)
            && s.depth <= s.fieldCount <= |s.fieldPaths| <= s.batchSize * s.fieldCount
  {
    AllPathsParentsFirst(doc.operations, doc.fragments);
    DocumentFits(doc.operations, doc.fragments);
    RenderAllLength(AllPaths(doc.operations, doc.fragments));
  }

  // ---------- Names ----------

  predicate NamesValid(nodes: seq<Node>) {
    forall node <- nodes :: node.FieldNode? ==> IsName(node.key)
  }

  /** Every response key in the document is a GraphQL name, as the library's grammar guarantees. */
  predicate WellNamed(doc: Document) {
    && (forall op <- doc.operations :: NamesValid(Own(op.selections)))
    && (forall f <- doc.fragments :: NamesValid(Own(f.selections)))
  }

  lemma {:induction false} ForNameMember(fragments: seq<Fragment>, name: string)
    ensures ForName(fragments, name).Some? ==> ForName(fragments, name).value in fragments
  {
    if fragments != [] {
      ForNameMember(fragments[1..], name);
    }
  }

  lemma NamesValidHead(selections: seq<Selection>)
    requires selections != [] && NamesValid(Own(selections))
    ensures NamesValid([NodeOf(selections[0])]) && NamesValid(Own(selections[1..]))
    ensures !selections[0].FragmentSpread? ==> NamesValid(Own(selections[0].selections))
  {
  }

  predicate PathsNamed(paths: seq<seq<string>>) {
    forall path <- paths :: AreNames(path)
  }

  lemma {:induction false} WalkNamed(
    selections: seq<Selection>, names: seq<string>, fragments: seq<Fragment>, visited: set<string>)
    requires NamesValid(Own(selections)) && AreNames(names)
    requires forall f <- fragments :: NamesValid(Own(f.selections))
    ensures PathsNamed(FieldPaths(Walk(selections, names, fragments, visited).trace))
    decreases Defined(fragments) - visited, |Own(selections)|
  {
    if selections != [] {
      var sel := selections[0];
      EnterDecreases(sel, names, fragments, visited);
      NamesValidHead(selections);
      var b := Enter(sel, names, fragments, visited);
      if sel.FragmentSpread? {
        ForNameMember(fragments, sel.name);
      } else if sel.Field? {
        assert NodeOf(sel) in [NodeOf(sel)];
        assert IsName(ResponseKey(sel));
      }
      var inner := Walk(b.selections, b.names, fragments, b.visited);
      var rest := Walk(selections[1..], names, fragments, inner.visited).trace;
      WalkNamed(b.selections, b.names, fragments, b.visited);
      WalkNamed(selections[1..], names, fragments, inner.visited);
      FieldPathsHead(VisitOf(sel, names, visited), inner.trace, rest);
    }
  }

  lemma {:induction false} AllPathsNamed(operations: seq<Operation>, fragments: seq<Fragment>)
    requires WellNamed(Document(operations, fragments))
    ensures PathsNamed(AllPaths(operations, fragments))
  {
    if operations != [] {
      var init, last := operations[..|operations| - 1], operations[|operations| - 1];
      AllPathsNamed(init, fragments);
      WalkNamed(last.selections, [], fragments, {});
    }
  }
}
