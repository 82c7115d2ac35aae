/** What each reported measure counts, said of the document itself. */
module Measures {
  import opened Ast
  import opened Exactness
  import opened Counters
  import opened Analyzer

  // ---------- The selections of a document ----------

  /** Every selection written in a selection set, at any level. */
  function Everything(selections: seq<Selection>): seq<Selection> {
    if selections == [] then [] else
    [selections[0]] + (if selections[0].FragmentSpread? then [] else Everything(selections[0].selections))
    + Everything(selections[1..])
  }

  /** Every selection written in the fragments named in `names`, each fragment once. */
  ghost function InBodies(fragments: seq<Fragment>, names: set<string>): seq<Selection> {
    if fragments == [] then [] else
    (if fragments[0].name in names then Everything(fragments[0].selections) else [])
    + InBodies(fragments[1..], names - {fragments[0].name})
  }

  /** Every selection of an operation and of the fragments it reaches, each fragment once. */
  ghost function Seen(selections: seq<Selection>, fragments: seq<Fragment>, reached: set<string>): seq<Selection> {
    Everything(selections) + InBodies(fragments, reached)
  }

  /** `reached` are the fragment names to which chains of spreads lead. */
  ghost predicate AreReached(selections: seq<Selection>, fragments: seq<Fragment>, reached: set<string>) {
    forall name :: name in reached <==> Reachable(selections, fragments, name)
  }

  function SumOf(selections: seq<Selection>, weight: Selection -> nat): nat {
    if selections == [] then 0 else weight(selections[0]) + SumOf(selections[1..], weight)
  }

  /** The nodes are those of the selections, in order. */
  ghost predicate NodesOf(nodes: seq<Node>, selections: seq<Selection>) {
    |nodes| == |selections| && forall i | 0 <= i < |nodes| :: nodes[i] == NodeOf(selections[i])
  }

  lemma NodesOfParts(a: seq<Node>, b: seq<Node>, c: seq<Selection>, d: seq<Selection>)
    requires NodesOf(a, c) && NodesOf(b, d)
    ensures NodesOf(a + b, c + d)
  {
  }

  lemma {:induction false} OwnIsEverything(selections: seq<Selection>)
    ensures NodesOf(Own(selections), Everything(selections))
  {
    if selections != [] {
      var sel := selections[0];
      var nested := if sel.FragmentSpread? then [] else Own(sel.selections);
      var inner := if sel.FragmentSpread? then [] else Everything(sel.selections);
      if !sel.FragmentSpread? {
        OwnIsEverything(sel.selections);
      }
      OwnIsEverything(selections[1..]);
      assert NodesOf([NodeOf(sel)], [sel]);
      NodesOfParts([NodeOf(sel)], nested, [sel], inner);
      NodesOfParts([NodeOf(sel)] + nested, Own(selections[1..]), [sel] + inner, Everything(selections[1..]));
    }
  }

  lemma {:induction false} BodiesAreWritten(fragments: seq<Fragment>, names: set<string>)
    ensures NodesOf(Bodies(fragments, names), InBodies(fragments, names))
  {
    if fragments != [] {
      var f := fragments[0];
      var rest := names - {f.name};
      OwnIsEverything(f.selections);
      BodiesAreWritten(fragments[1..], rest);
      NodesOfParts(if f.name in names then Own(f.selections) else [], Bodies(fragments[1..], rest),
                   if f.name in names then Everything(f.selections) else [], InBodies(fragments[1..], rest));
    }
  }

  lemma ReferenceIsSeen(selections: seq<Selection>, fragments: seq<Fragment>, reached: set<string>)
    ensures NodesOf(Reference(selections, fragments, reached), Seen(selections, fragments, reached))
  {
    OwnIsEverything(selections);
    BodiesAreWritten(fragments, reached);
    NodesOfParts(Own(selections), Bodies(fragments, reached), Everything(selections), InBodies(fragments, reached));
  }

  lemma {:induction false} TotalIsSum(
    nodes: seq<Node>, selections: seq<Selection>, w: Node -> nat, weight: Selection -> nat)
    requires NodesOf(nodes, selections) && forall sel :: weight(sel) == w(NodeOf(sel))
    ensures Total(nodes, w) == SumOf(selections, weight)
  {
    if nodes != [] {
      assert NodesOf(nodes[1..], selections[1..]);
      TotalIsSum(nodes[1..], selections[1..], w, weight);
    }
  }

  lemma SeenTotal(
    selections: seq<Selection>, fragments: seq<Fragment>, reached: set<string>, w: Node -> nat,
    weight: Selection -> nat)
    requires forall sel :: weight(sel) == w(NodeOf(sel))
    ensures Total(Reference(selections, fragments, reached), w) == SumOf(Seen(selections, fragments, reached), weight)
  {
    ReferenceIsSeen(selections, fragments, reached);
    TotalIsSum(Reference(selections, fragments, reached), Seen(selections, fragments, reached), w, weight);
  }

  // ---------- The counters of one operation ----------

  /** The response key of a field: its alias, or without one its name. */
  ghost predicate HasKey(sel: Selection, key: string) {
    sel.Field? && ((sel.alias != "" && key == sel.alias) || (sel.alias == "" && key == sel.name))
  }

  /** A field whose response key is something followed by an s. */
  ghost predicate IsPlural(sel: Selection) {
    exists k: string :: k != "" && HasKey(sel, k + "s")
  }

  lemma PluralMeans(sel: Selection)
    ensures IsPlural(sel) <==> Lists(NodeOf(sel)) == 1
    ensures Lists(NodeOf(sel)) <= 1
  {
    if sel.Field? {
      var key := ResponseKey(sel);
      if LooksLikeList(key) {
        var k := key[..|key| - 1];
        assert key == k + "s" && HasKey(sel, k + "s");
      }
      if k: string :| k != "" && HasKey(sel, k + "s") {
        assert key == k + "s";
      }
    }
  }

  /** Fields counted: those of the operation and of each fragment it reaches, once. */
  lemma FieldsExact(
    selections: seq<Selection>, fragments: seq<Fragment>, reached: set<string>, weight: Selection -> nat)
    requires AreReached(selections, fragments, reached)
    requires forall sel :: weight(sel) == if sel.Field? then 1 else 0
    ensures OperationTally(selections, fragments).fieldCount == SumOf(Seen(selections, fragments, reached), weight)
  {
    CountersExact(selections, fragments, reached);
    SeenTotal(selections, fragments, reached, Fields, weight);
  }

  /** Lists counted: the fields whose key ends in an s after something. */
  lemma ListsExact(
    selections: seq<Selection>, fragments: seq<Fragment>, reached: set<string>, weight: Selection -> nat)
    requires AreReached(selections, fragments, reached)
    requires forall sel :: weight(sel) == if IsPlural(sel) then 1 else 0
    ensures OperationTally(selections, fragments).listsRequested ==
            SumOf(Seen(selections, fragments, reached), weight)
  {
    CountersExact(selections, fragments, reached);
    forall sel
      ensures weight(sel) == Lists(NodeOf(sel))
    {
      PluralMeans(sel);
    }
    SeenTotal(selections, fragments, reached, Lists, weight);
  }

  /** Directives counted: those on fields, on inline fragments and on spreads. */
  lemma DirectivesExact(
    selections: seq<Selection>, fragments: seq<Fragment>, reached: set<string>, weight: Selection -> nat)
    requires AreReached(selections, fragments, reached)
    requires forall sel :: weight(sel) == sel.directives
    ensures OperationTally(selections, fragments).directives == SumOf(Seen(selections, fragments, reached), weight)
  {
    CountersExact(selections, fragments, reached);
    SeenTotal(selections, fragments, reached, Directives, weight);
  }

  /** Spreads counted: inline fragments and fragment spreads, skipped ones included. */
  lemma SpreadsExact(
    selections: seq<Selection>, fragments: seq<Fragment>, reached: set<string>, weight: Selection -> nat)
    requires AreReached(selections, fragments, reached)
    requires forall sel :: weight(sel) == if sel.InlineFragment? || sel.FragmentSpread? then 1 else 0
    ensures OperationTally(selections, fragments).fragmentSpreadCount ==
            SumOf(Seen(selections, fragments, reached), weight)
  {
    CountersExact(selections, fragments, reached);
    SeenTotal(selections, fragments, reached, FragmentUses, weight);
  }

  /** Inline types counted: the inline fragments with a type condition. */
  lemma InlineTypesExact(
    selections: seq<Selection>, fragments: seq<Fragment>, reached: set<string>, weight: Selection -> nat)
    requires AreReached(selections, fragments, reached)
    requires forall sel :: weight(sel) == if sel.InlineFragment? && sel.typeCondition != "" then 1 else 0
    ensures OperationTally(selections, fragments).inlineFragmentTypesCount ==
            SumOf(Seen(selections, fragments, reached), weight)
  {
    CountersExact(selections, fragments, reached);
    SeenTotal(selections, fragments, reached, TypedInlines, weight);
  }

  // ---------- Argument depth ----------

  /** An argument without a value has depth one; one with a value is one deeper than each descent into it. */
  ghost predicate Reaches(argument: Option<Value>, depth: nat) {
    match argument
    case None => depth == 1
    case Some(v) => exists hops :: Descends(v, hops) && depth == 1 + |hops|
  }

  lemma HeightReached(argument: Option<Value>)
    ensures Reaches(argument, 1 + Height(argument))
    ensures forall depth: nat | Reaches(argument, depth) :: depth <= 1 + Height(argument)
  {
    if argument.Some? {
      var hops := LongestDescent(argument.value);
      assert Descends(argument.value, hops);
      forall depth: nat | Reaches(argument, depth)
        ensures depth <= 1 + Height(argument)
      {
        var other :| Descends(argument.value, other) && depth == 1 + |other|;
        NoDeeperDescent(argument.value, other);
      }
    }
  }

  /** The greatest depth of the arguments, zero when there are none. */
  ghost predicate GreatestDepth(arguments: seq<Option<Value>>, n: nat) {
    && (forall argument <- arguments :: forall depth: nat | Reaches(argument, depth) :: depth <= n)
    && (if arguments == [] then n == 0 else exists argument <- arguments :: Reaches(argument, n))
  }

  lemma {:induction false} ArgumentsReached(arguments: seq<Option<Value>>)
    ensures GreatestDepth(arguments, ArgumentsDepth(arguments))
  {
    if arguments != [] {
      var first, rest := arguments[0], arguments[1..];
      HeightReached(first);
      ArgumentsReached(rest);
      assert forall argument :: argument in arguments <==> argument == first || argument in rest;
      if ArgumentsDepth(rest) > 1 + Height(first) {
        var argument :| argument in rest && Reaches(argument, ArgumentsDepth(rest));
        assert argument in arguments;
      } else {
        assert first in arguments && Reaches(first, 1 + Height(first));
      }
    }
  }

  /** The arguments of all fields among the selections. */
  function AllArguments(selections: seq<Selection>): seq<Option<Value>> {
    if selections == [] then [] else
    (if selections[0].Field? then selections[0].arguments else []) + AllArguments(selections[1..])
  }

  lemma GreatestOfBoth(a: seq<Option<Value>>, b: seq<Option<Value>>, m: nat, n: nat)
    requires GreatestDepth(a, m) && GreatestDepth(b, n)
    ensures GreatestDepth(a + b, Max(m, n))
  {
    assert forall argument :: argument in a + b <==> argument in a || argument in b;
    if a != [] && m >= n {
      var argument :| argument in a && Reaches(argument, m);
      assert argument in a + b;
    } else if b != [] {
      var argument :| argument in b && Reaches(argument, n);
      assert argument in a + b;
      if a != [] && m > n {
        assert false;
      }
    }
  }

  lemma {:induction false} PeakReached(nodes: seq<Node>, selections: seq<Selection>)
    requires NodesOf(nodes, selections)
    ensures GreatestDepth(AllArguments(selections), Peak(nodes, ArgumentDepth))
  {
    if nodes != [] {
      var sel := selections[0];
      assert NodesOf(nodes[1..], selections[1..]);
      PeakReached(nodes[1..], selections[1..]);
      var own := if sel.Field? then sel.arguments else [];
      ArgumentsReached(own);
      GreatestOfBoth(own, AllArguments(selections[1..]), ArgumentsDepth(own), Peak(nodes[1..], ArgumentDepth));
    }
  }

  /** The argument depth is one more than the longest descent into any argument of the operation and of the
      fragments it reaches. */
  lemma ArgumentDepthExact(selections: seq<Selection>, fragments: seq<Fragment>, reached: set<string>)
    requires AreReached(selections, fragments, reached)
    ensures GreatestDepth(AllArguments(Seen(selections, fragments, reached)),
                          OperationTally(selections, fragments).argumentDepth)
  {
    CountersExact(selections, fragments, reached);
    ReferenceIsSeen(selections, fragments, reached);
    PeakReached(Reference(selections, fragments, reached), Seen(selections, fragments, reached));
  }

  // ---------- The summary of a document ----------

  /** A bound on every operation that one of them attains. */
  ghost predicate IsGreatest(n: nat, operations: seq<Operation>, measure: Operation -> nat) {
    (forall op <- operations :: measure(op) <= n) && exists op <- operations :: measure(op) == n
  }

  /** What each metric is of an operation. Directives are those within the operation, to which the ones of all
      fragment definitions are added; those on the operation itself are counted apart. */
  ghost predicate IsMeasure(metric: Metric, fragments: seq<Fragment>, op: Operation, n: nat) {
    var t := OperationTally(op.selections, fragments);
    match metric
    case Depth => n == t.depth
    case FieldCount => n == t.fieldCount
    case DirectiveCount => n == t.directives + DefinitionDirectives(fragments)
    case ArgumentNesting => n == t.argumentDepth
    case ListCount => n == t.listsRequested
    case SpreadCount => n == t.fragmentSpreadCount
    case VariableCount => n == |op.variables|
    case OperationDirectiveCount => n == op.directives
    case InlineTypeCount => n == t.inlineFragmentTypesCount
  }

  lemma WorstIsGreatest(metric: Metric, doc: Document, measure: Operation -> nat)
    requires doc.operations != [] && forall op :: IsMeasure(metric, doc.fragments, op, measure(op))
    ensures IsGreatest(Worst(metric, doc.operations, doc.fragments), doc.operations, measure)
  {
    forall op
      ensures measure(op) == Measure(metric, op, doc.fragments)
    {
      assert IsMeasure(metric, doc.fragments, op, measure(op));
    }
    WorstIsMaximum(metric, doc.operations, doc.fragments);
  }

  /** Each measure in the summary is the greatest of the operations. */
  lemma SummaryIsGreatest(doc: Document, hash: string, metric: Metric, measure: Operation -> nat)
    requires doc.operations != [] && forall op :: IsMeasure(metric, doc.fragments, op, measure(op))
    ensures var s := Summarize(doc, hash);
            match metric
            case Depth => IsGreatest(s.depth, doc.operations, measure)
            case FieldCount => IsGreatest(s.fieldCount, doc.operations, measure)
            case DirectiveCount => IsGreatest(s.directives, doc.operations, measure)
            case ArgumentNesting => IsGreatest(s.argumentDepth, doc.operations, measure)
            case ListCount => IsGreatest(s.listsRequested, doc.operations, measure)
            case SpreadCount => IsGreatest(s.fragmentSpreadCount, doc.operations, measure)
            case VariableCount => IsGreatest(s.variableCount, doc.operations, measure)
            case OperationDirectiveCount => IsGreatest(s.operationDirectives, doc.operations, measure)
            case InlineTypeCount => IsGreatest(s.inlineFragmentTypesCount, doc.operations, measure)
  {
    WorstIsGreatest(metric, doc, measure);
  }

  /** The directives of fragment definitions add up, one definition at a time. */
  lemma {:induction false} DefinitionsAddUp(a: seq<Fragment>, b: seq<Fragment>, f: Fragment)
    ensures DefinitionDirectives([]) == 0 && DefinitionDirectives([f]) == f.directives
    ensures DefinitionDirectives(a + b) == DefinitionDirectives(a) + DefinitionDirectives(b)
    decreases |b|
  {
    assert [f][..0] == [];
    if b == [] {
      assert a + b == a;
    } else {
      assert (a + b)[..|a + b| - 1] == a + b[..|b| - 1];
      DefinitionsAddUp(a, b[..|b| - 1], f);
    }
  }

  /** The type, the name and the other facts of a summary. The first operation gives type and name; a kind the
      grammar does not know counts as a query. */
  lemma SummaryFacts(doc: Document, hash: string)
    requires doc.operations != []
    ensures var s, first := Summarize(doc, hash), doc.operations[0];
            && (s.operationType == "mutation" <==> first.kind == Mutation)
            && (s.operationType == "subscription" <==> first.kind == Subscription)
            && (s.operationType == "query" <==> first.kind != Mutation && first.kind != Subscription)
            && s.operationName == first.name && s.queryHash == hash && s.tenantId == ""
            && s.batchSize == |doc.operations| && s.fragmentCount == |doc.fragments|
            && (s.hasDefaultVariables <==>
                exists op <- doc.operations :: exists v <- op.variables :: v.default.Some?)
  {
  }
}
