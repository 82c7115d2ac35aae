/** The counters the walk keeps, the walk itself as imperative code, and what the counters mean. */
module Counters {
  import opened Ast
  import opened Text
  import opened Traversal
  import opened Exactness

  // ---------- Argument values ----------

  /** How deep values nest below `v`. */
  function Height(v: Option<Value>): nat {
    if v.None? then 0 else
    Max(ChildrenHeight(v.value.children), if v.value.default.Some? then 1 + Height(v.value.default) else 0)
  }

  function ChildrenHeight(children: seq<Option<Value>>): nat {
    if children == [] then 0 else
    Max(if children[0].Some? then 1 + Height(children[0]) else 0, ChildrenHeight(children[1..]))
  }

  datatype Hop = Child(index: nat) | Default

  /** `hops` leads from `v` down through present values. */
  predicate Descends(v: Value, hops: seq<Hop>) {
    hops == [] ||
    match hops[0]
    case Default => v.default.Some? && Descends(v.default.value, hops[1..])
    case Child(i) => i < |v.children| && v.children[i].Some? && Descends(v.children[i].value, hops[1..])
  }

  lemma {:induction false} ChildHeight(children: seq<Option<Value>>, i: nat)
    requires i < |children| && children[i].Some?
    ensures 1 + Height(children[i]) <= ChildrenHeight(children)
  {
    if i > 0 {
      assert children[i] == children[1..][i - 1];
      ChildHeight(children[1..], i - 1);
    }
  }

  lemma {:induction false} HighestChild(children: seq<Option<Value>>) returns (i: nat)
    requires ChildrenHeight(children) > 0
    ensures i < |children| && children[i].Some? && 1 + Height(children[i]) == ChildrenHeight(children)
  {
    if children[0].Some? && 1 + Height(children[0]) == ChildrenHeight(children) {
      i := 0;
    } else {
      i := HighestChild(children[1..]);
      i := i + 1;
    }
  }

  lemma {:induction false} NoDeeperDescent(v: Value, hops: seq<Hop>)
    requires Descends(v, hops)
    ensures |hops| <= Height(Some(v))
    decreases hops
  {
    if hops != [] {
      match hops[0]
      case Default => NoDeeperDescent(v.default.value, hops[1..]);
      case Child(i) =>
        NoDeeperDescent(v.children[i].value, hops[1..]);
        ChildHeight(v.children, i);
    }
  }

  /** The height of a value is the length of its longest descent. */
  lemma {:induction false} LongestDescent(v: Value) returns (hops: seq<Hop>)
    ensures Descends(v, hops) && |hops| == Height(Some(v))
    ensures forall other | Descends(v, other) :: |other| <= |hops|
  {
    if Height(Some(v)) == 0 {
      hops := [];
    } else if Height(Some(v)) == ChildrenHeight(v.children) {
      var i := HighestChild(v.children);
      var below := LongestDescent(v.children[i].value);
      hops := [Child(i)] + below;
      assert hops[1..] == below;
    } else {
      var below := LongestDescent(v.default.value);
      hops := [Default] + below;
      assert hops[1..] == below;
    }
    forall other | Descends(v, other)
      ensures |other| <= |hops|
    {
      NoDeeperDescent(v, other);
    }
  }

  method MeasureValueDepth(v: Option<Value>, depth: nat) returns (maxDepth: nat)
    ensures maxDepth == depth + Height(v)
    decreases v
  {
    if v.None? {
      return depth;
    }
    maxDepth := depth;
    var children := v.value.children;
    for i := 0 to |children|
      invariant maxDepth >= depth
      invariant Max(maxDepth, depth + ChildrenHeight(children[i..])) == depth + ChildrenHeight(children)
    {
      if children[i].Some? {
        var childDepth := MeasureValueDepth(children[i], depth + 1);
        if childDepth > maxDepth {
          maxDepth := childDepth;
        }
      }
    }
    if v.value.default.Some? {
      var defaultDepth := MeasureValueDepth(v.value.default, depth + 1);
      if defaultDepth > maxDepth {
        maxDepth := defaultDepth;
      }
    }
  }

  // ---------- Per-node quantities ----------

  function ArgumentsDepth(arguments: seq<Option<Value>>): nat {
    if arguments == [] then 0 else Max(1 + Height(arguments[0]), ArgumentsDepth(arguments[1..]))
  }

  predicate LooksLikeList(key: string) {
    |key| > 1 && key[|key| - 1] == 's'
  }

  function Fields(node: Node): nat {
    if node.FieldNode? then 1 else 0
  }

  function Directives(node: Node): nat {
    node.directives
  }

  function Lists(node: Node): nat {
    if node.FieldNode? && LooksLikeList(node.key) then 1 else 0
  }

  function FragmentUses(node: Node): nat {
    if node.FieldNode? then 0 else 1
  }

  function TypedInlines(node: Node): nat {
    if node.InlineNode? && node.typeCondition != "" then 1 else 0
  }

  function ArgumentDepth(node: Node): nat {
    if node.FieldNode? then ArgumentsDepth(node.arguments) else 0
  }

  // ---------- Counters ----------

  datatype Tally = Tally(
    depth: nat, fieldCount: nat, fieldPaths: seq<string>, directives: nat, argumentDepth: nat,
    listsRequested: nat, fragmentSpreadCount: nat, inlineFragmentTypesCount: nat)

  const ZERO := Tally(0, 0, [], 0, 0, 0, 0, 0)

  /** The effect of one visit. */
  function Count(t: Tally, v: Visit): Tally {
    match v.node
    case FieldNode(key, directives, arguments) =>
      Tally(Max(t.depth, |v.names|), t.fieldCount + 1, t.fieldPaths + [Render(v.names)], t.directives + directives,
            Max(t.argumentDepth, ArgumentsDepth(arguments)),
            t.listsRequested + (if LooksLikeList(key) then 1 else 0),
            t.fragmentSpreadCount, t.inlineFragmentTypesCount)
    case InlineNode(typeCondition, directives) =>
      t.(fragmentSpreadCount := t.fragmentSpreadCount + 1, directives := t.directives + directives,
         inlineFragmentTypesCount := t.inlineFragmentTypesCount + (if typeCondition != "" then 1 else 0))
    case SpreadNode(_, directives) =>
      t.(fragmentSpreadCount := t.fragmentSpreadCount + 1, directives := t.directives + directives)
  }

  function CountAll(t: Tally, trace: seq<Visit>): Tally
    decreases |trace|
  {
    if trace == [] then t else CountAll(Count(t, trace[0]), trace[1..])
  }

  lemma {:induction false} CountAllConcat(t: Tally, a: seq<Visit>, b: seq<Visit>)
    ensures CountAll(t, a + b) == CountAll(CountAll(t, a), b)
    decreases |a|
  {
    if a == [] {
      assert a + b == b;
    } else {
      assert (a + b)[1..] == a[1..] + b;
      CountAllConcat(Count(t, a[0]), a[1..], b);
    }
  }

  class QueryInfo {
    var depth: nat
    var fieldCount: nat
    var fieldPaths: seq<string>
    var directives: nat
    var argumentDepth: nat
    var listsRequested: nat
    var fragmentSpreadCount: nat
    var inlineFragmentTypesCount: nat

    constructor ()
      ensures Counts() == ZERO
    {
      depth, fieldCount, fieldPaths, directives := 0, 0, [], 0;
      argumentDepth, listsRequested, fragmentSpreadCount, inlineFragmentTypesCount := 0, 0, 0, 0;
    }

    function Counts(): Tally
      reads this
    {
      Tally(depth, fieldCount, fieldPaths, directives, argumentDepth, listsRequested, fragmentSpreadCount,
                  inlineFragmentTypesCount)
    }

    /** The part of the walk that handles a field, before its own selections are walked. */
    method CountField(field: Selection, path: string, newDepth: nat, ghost names: seq<string>)
      requires field.Field? && path == Render(names) && newDepth == |names|
      modifies this
      ensures Counts() == Count(old(Counts()), Visit(names, NodeOf(field), true))
    {
      var fieldName := ResponseKey(field);
      fieldCount := fieldCount + 1;
      directives := directives + field.directives;
      ghost var before := argumentDepth;
      var arguments := field.arguments;
      for i := 0 to |arguments|
        invariant Max(argumentDepth, ArgumentsDepth(arguments[i..])) == Max(before, ArgumentsDepth(arguments))
        invariant depth == old(depth) && fieldCount == old(fieldCount) + 1 && fieldPaths == old(fieldPaths)
        invariant directives == old(directives) + field.directives && listsRequested == old(listsRequested)
        invariant fragmentSpreadCount == old(fragmentSpreadCount)
        invariant inlineFragmentTypesCount == old(inlineFragmentTypesCount)
      {
        var argDepth := MeasureValueDepth(arguments[i], 1);
        if argDepth > argumentDepth {
          argumentDepth := argDepth;
        }
      }
      if |fieldName| > 1 && fieldName[|fieldName| - 1] == 's' {
        listsRequested := listsRequested + 1;
      }
      fieldPaths := fieldPaths + [path];
      if newDepth > depth {
        depth := newDepth;
      }
    }

    /** The part of the walk that counts an inline fragment. */
    method CountInline(inline: Selection, ghost visit: Visit)
      requires inline.InlineFragment? && visit.node == NodeOf(inline)
      modifies this
      ensures Counts() == Count(old(Counts()), visit)
    {
      fragmentSpreadCount := fragmentSpreadCount + 1;
      directives := directives + inline.directives;
      if inline.typeCondition != "" {
        inlineFragmentTypesCount := inlineFragmentTypesCount + 1;
      }
    }

    /** The part of the walk that counts a spread, whether or not it is expanded. */
    method CountSpread(spread: Selection, ghost visit: Visit)
      requires spread.FragmentSpread? && visit.node == NodeOf(spread)
      modifies this
      ensures Counts() == Count(old(Counts()), visit)
    {
      fragmentSpreadCount := fragmentSpreadCount + 1;
      directives := directives + spread.directives;
    }
  }

  class VisitedFragments {
    var names: set<string>

    constructor ()
      ensures names == {}
    {
      names := {};
    }
  }

  /** The walk. `names` is the list of response keys that `prefix` spells and `depth` counts. */
  method WalkSelections(
    selections: seq<Selection>, prefix: string, depth: nat, info: QueryInfo, fragments: seq<Fragment>,
    visited: VisitedFragments, ghost names: seq<string>)
    requires prefix == Render(names) && depth == |names|
    modifies info, visited
    ensures visited.names == Walk(selections, names, fragments, old(visited.names)).visited
    ensures info.Counts() ==
            CountAll(old(info.Counts()), Walk(selections, names, fragments, old(visited.names)).trace)
    decreases Defined(fragments) - visited.names, |Own(selections)|, 1
  {
    ghost var whole := Walk(selections, names, fragments, visited.names);
    var i := 0;
    while i < |selections|
      invariant 0 <= i <= |selections|
      invariant old(visited.names) <= visited.names
      invariant var left := Walk(selections[i..], names, fragments, visited.names);
                && left.visited == whole.visited
                && CountAll(info.Counts(), left.trace) == CountAll(old(info.Counts()), whole.trace)
      invariant |Own(selections[i..])| <= |Own(selections)|
    {
      ghost var sel, left, before, now := selections[i], selections[i..], info.Counts(), visited.names;
      assert left[0] == sel && left[1..] == selections[i + 1..];
      StepDecomposes(before, left, names, fragments, now);
      WalkSelection(selections[i], prefix, depth, info, fragments, visited, names);
      i := i + 1;
    }
  }

  /** The part of a walk spent on one selection. */
  ghost function Step(sel: Selection, names: seq<string>, fragments: seq<Fragment>, visited: set<string>): Walked {
    var b := Enter(sel, names, fragments, visited);
    var inner := Walk(b.selections, b.names, fragments, b.visited);
    Walked([VisitOf(sel, names, visited)] + inner.trace, inner.visited)
  }

  lemma StepDecomposes(
    t: Tally, left: seq<Selection>, names: seq<string>, fragments: seq<Fragment>, visited: set<string>)
    requires left != []
    ensures var step := Step(left[0], names, fragments, visited);
            var rest := Walk(left[1..], names, fragments, step.visited);
            && visited <= step.visited
            && rest.visited == Walk(left, names, fragments, visited).visited
            && CountAll(CountAll(t, step.trace), rest.trace) == CountAll(t, Walk(left, names, fragments, visited).trace)
    ensures |Own([left[0]])| <= |Own(left)| && |Own(left[1..])| <= |Own(left)|
  {
    var step := Step(left[0], names, fragments, visited);
    EnterDecreases(left[0], names, fragments, visited);
    CountAllConcat(t, step.trace, Walk(left[1..], names, fragments, step.visited).trace);
  }

  lemma CountFirst(t: Tally, v: Visit, rest: seq<Visit>)
    ensures CountAll(t, [v] + rest) == CountAll(Count(t, v), rest)
  {
  }

  method WalkSelection(
    sel: Selection, prefix: string, depth: nat, info: QueryInfo, fragments: seq<Fragment>,
    visited: VisitedFragments, ghost names: seq<string>)
    requires prefix == Render(names) && depth == |names|
    modifies info, visited
    ensures visited.names == Step(sel, names, fragments, old(visited.names)).visited
    ensures info.Counts() == CountAll(old(info.Counts()), Step(sel, names, fragments, old(visited.names)).trace)
    decreases Defined(fragments) - visited.names, |Own([sel])|, 0
  {
    ghost var b := Enter(sel, names, fragments, visited.names);
    ghost var head := VisitOf(sel, names, visited.names);
    EnterDecreases(sel, names, fragments, visited.names);
    CountFirst(info.Counts(), head, Walk(b.selections, b.names, fragments, b.visited).trace);
    match sel {
      case Field(_, _, _, _, nested) =>
        var path := ResponseKey(sel);
        if prefix != "" {
          path := prefix + "." + ResponseKey(sel);
        }
        assert b.names[..|names|] == names;
        info.CountField(sel, path, depth + 1, b.names);
        WalkSelections(nested, path, depth + 1, info, fragments, visited, b.names);
      case InlineFragment(_, _, nested) =>
        info.CountInline(sel, head);
        WalkSelections(nested, prefix, depth, info, fragments, visited, names);
      case FragmentSpread(fragmentName, _) =>
        info.CountSpread(sel, head);
        if fragmentName !in visited.names {
          visited.names := visited.names + {fragmentName};
          var fragment := ForName(fragments, fragmentName);
          if fragment.Some? {
            WalkSelections(fragment.value.selections, prefix, depth, info, fragments, visited, names);
          }
        }
    }
  }

  // ---------- What the counters are ----------

  function Deepest(paths: seq<seq<string>>): nat {
    if paths == [] then 0 else Max(|paths[0]|, Deepest(paths[1..]))
  }

  lemma {:induction false} DeepestConcat(a: seq<seq<string>>, b: seq<seq<string>>)
    ensures Deepest(a + b) == Max(Deepest(a), Deepest(b))
  {
    if a == [] {
      assert a + b == b;
    } else {
      assert (a + b)[1..] == a[1..] + b;
      DeepestConcat(a[1..], b);
    }
  }

  function RenderAll(paths: seq<seq<string>>): seq<string> {
    if paths == [] then [] else [Render(paths[0])] + RenderAll(paths[1..])
  }

  lemma {:induction false} CountAllSums(t: Tally, trace: seq<Visit>)
    ensures var r, nodes := CountAll(t, trace), Nodes(trace);
            && r.fieldCount == t.fieldCount + Total(nodes, Fields)
            && r.directives == t.directives + Total(nodes, Directives)
            && r.listsRequested == t.listsRequested + Total(nodes, Lists)
            && r.fragmentSpreadCount == t.fragmentSpreadCount + Total(nodes, FragmentUses)
            && r.inlineFragmentTypesCount == t.inlineFragmentTypesCount + Total(nodes, TypedInlines)
    decreases |trace|
  {
    if trace != [] {
      CountAllSums(Count(t, trace[0]), trace[1..]);
      assert Nodes(trace)[1..] == Nodes(trace[1..]);
    }
  }

  lemma {:induction false} CountAllPeaks(t: Tally, trace: seq<Visit>)
    ensures CountAll(t, trace).argumentDepth == Max(t.argumentDepth, Peak(Nodes(trace), ArgumentDepth))
    decreases |trace|
  {
    if trace != [] {
      CountAllPeaks(Count(t, trace[0]), trace[1..]);
      assert Nodes(trace)[1..] == Nodes(trace[1..]);
    }
  }

  lemma {:induction false} CountAllPaths(t: Tally, trace: seq<Visit>)
    ensures var r, paths := CountAll(t, trace), FieldPaths(trace);
            r.depth == Max(t.depth, Deepest(paths)) && r.fieldPaths == t.fieldPaths + RenderAll(paths)
    decreases |trace|
  {
    if trace != [] {
      CountAllPaths(Count(t, trace[0]), trace[1..]);
      if trace[0].node.FieldNode? {
        assert FieldPaths(trace)[1..] == FieldPaths(trace[1..]);
      } else {
        assert FieldPaths(trace) == FieldPaths(trace[1..]);
      }
    }
  }

  lemma {:induction false} FieldPathsTotal(trace: seq<Visit>)
    ensures |FieldPaths(trace)| == Total(Nodes(trace), Fields)
  {
    if trace != [] {
      FieldPathsTotal(trace[1..]);
      assert Nodes(trace)[1..] == Nodes(trace[1..]);
    }
  }

  /** Counting a trace from nothing adds up the per-node quantities and collects the field paths. */
  lemma CountAllCloses(trace: seq<Visit>)
    ensures var nodes, paths := Nodes(trace), FieldPaths(trace);
            CountAll(ZERO, trace) == Tally(
              Deepest(paths), Total(nodes, Fields), RenderAll(paths), Total(nodes, Directives),
              Peak(nodes, ArgumentDepth), Total(nodes, Lists), Total(nodes, FragmentUses), Total(nodes, TypedInlines))
  {
    CountAllSums(ZERO, trace);
    CountAllPeaks(ZERO, trace);
    CountAllPaths(ZERO, trace);
  }

  /** The counters of one operation, before the directives of fragment definitions are added. */
  function OperationTally(selections: seq<Selection>, fragments: seq<Fragment>): Tally {
    CountAll(ZERO, Walk(selections, [], fragments, {}).trace)
  }

  /** Each counter equals the operation's own count plus that of every reachable fragment, once. */
  lemma CountersExact(selections: seq<Selection>, fragments: seq<Fragment>, reached: set<string>)
    requires forall name :: name in reached <==> Reachable(selections, fragments, name)
    ensures var t, nodes := OperationTally(selections, fragments), Reference(selections, fragments, reached);
            && t.fieldCount == Total(nodes, Fields)
            && t.directives == Total(nodes, Directives)
            && t.listsRequested == Total(nodes, Lists)
            && t.fragmentSpreadCount == Total(nodes, FragmentUses)
            && t.inlineFragmentTypesCount == Total(nodes, TypedInlines)
            && t.argumentDepth == Peak(nodes, ArgumentDepth)
  {
    var r := Walk(selections, [], fragments, {});
    forall name
      ensures name in r.visited <==> name in reached
    {
      VisitedIsReachable(selections, [], fragments, name);
    }
    assert r.visited == reached;
    CountAllCloses(r.trace);
    WalkTotals(selections, [], fragments, Fields);
    WalkTotals(selections, [], fragments, Directives);
    WalkTotals(selections, [], fragments, Lists);
    WalkTotals(selections, [], fragments, FragmentUses);
    WalkTotals(selections, [], fragments, TypedInlines);
    WalkPeaks(selections, [], fragments, ArgumentDepth);
  }

  /** Rewriting a document in another order of selections changes no counter but depth and paths. */
  lemma CountersIgnoreOrder(
    a: seq<Selection>, fragmentsA: seq<Fragment>, b: seq<Selection>, fragmentsB: seq<Fragment>)
    requires SameUpToOrder(a, fragmentsA, b, fragmentsB)
    ensures var t := OperationTally(b, fragmentsB);
            OperationTally(a, fragmentsA).(depth := t.depth, fieldPaths := t.fieldPaths) == t
  {
    CountAllCloses(Walk(a, [], fragmentsA, {}).trace);
    CountAllCloses(Walk(b, [], fragmentsB, {}).trace);
    OrderIndependence(a, fragmentsA, b, fragmentsB, Fields);
    OrderIndependence(a, fragmentsA, b, fragmentsB, Directives);
    OrderIndependence(a, fragmentsA, b, fragmentsB, Lists);
    OrderIndependence(a, fragmentsA, b, fragmentsB, FragmentUses);
    OrderIndependence(a, fragmentsA, b, fragmentsB, TypedInlines);
    OrderIndependence(a, fragmentsA, b, fragmentsB, ArgumentDepth);
  }

  /** The number of nodes written in all fragment bodies. */
  function FragmentNodes(fragments: seq<Fragment>): nat {
    if fragments == [] then 0 else |Own(fragments[0].selections)| + FragmentNodes(fragments[1..])
  }

  lemma {:induction false} BodiesBounded(fragments: seq<Fragment>, names: set<string>)
    ensures |Bodies(fragments, names)| <= FragmentNodes(fragments)
  {
    if fragments != [] {
      BodiesBounded(fragments[1..], names - {fragments[0].name});
    }
  }

  lemma {:induction false} EveryNodeCounted(nodes: seq<Node>)
    ensures Total(nodes, Fields) + Total(nodes, FragmentUses) == |nodes|
  {
    if nodes != [] {
      EveryNodeCounted(nodes[1..]);
    }
  }

  /** The work of a walk is at most the size of the document, however its fragments refer to each other. */
  lemma WorkBoundedByDocument(selections: seq<Selection>, fragments: seq<Fragment>)
    ensures var t := OperationTally(selections, fragments);
            t.fieldCount + t.fragmentSpreadCount <= |Own(selections)| + FragmentNodes(fragments)
  {
    var r := Walk(selections, [], fragments, {});
    CountAllCloses(r.trace);
    WalkTotals(selections, [], fragments, Fields);
    WalkTotals(selections, [], fragments, FragmentUses);
    EveryNodeCounted(Reference(selections, fragments, r.visited));
    BodiesBounded(fragments, r.visited);
  }
}
