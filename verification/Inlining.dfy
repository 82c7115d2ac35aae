/** How the walk, which expands each fragment once, relates to expanding every spread. */
module Inlining {
  import opened Ast
  import opened Traversal
  import opened Exactness
  import opened Counters

  /** Expands every spread, except one inside an expansion of the same fragment. */
  ghost function Inline(selections: seq<Selection>, names: seq<string>, fragments: seq<Fragment>, open: set<string>)
    : seq<Visit>
    decreases Defined(fragments) - open, |Own(selections)|
  {
    if selections == [] then [] else
    EnterDecreases(selections[0], names, fragments, open);
    var b := Enter(selections[0], names, fragments, open);
    [VisitOf(selections[0], names, open)] + Inline(b.selections, b.names, fragments, b.visited)
    + Inline(selections[1..], names, fragments, open)
  }

  ghost predicate Subsequence<T(!new)>(a: seq<T>, b: seq<T>) {
    a == [] || (b != [] && ((a[0] == b[0] && Subsequence(a[1..], b[1..])) || Subsequence(a, b[1..])))
  }

  lemma {:induction false} SubsequenceConcat<T(!new)>(a: seq<T>, b: seq<T>, c: seq<T>, d: seq<T>)
    requires Subsequence(a, b) && Subsequence(c, d)
    ensures Subsequence(a + c, b + d)
    decreases |b|
  {
    if b == [] {
      assert a + c == c && b + d == d;
    } else {
      assert (b + d)[1..] == b[1..] + d;
      if a != [] && a[0] == b[0] && Subsequence(a[1..], b[1..]) {
        assert (a + c)[1..] == a[1..] + c;
        SubsequenceConcat(a[1..], b[1..], c, d);
      } else {
        SubsequenceConcat(a, b[1..], c, d);
      }
    }
  }

  lemma {:induction false} SubsequenceLength<T(!new)>(a: seq<T>, b: seq<T>)
    requires Subsequence(a, b)
    ensures |a| <= |b|
    ensures |a| == |b| ==> a == b
    decreases |b|
  {
    if a != [] {
      if a[0] == b[0] && Subsequence(a[1..], b[1..]) {
        SubsequenceLength(a[1..], b[1..]);
      } else {
        SubsequenceLength(a, b[1..]);
      }
    }
  }

  lemma {:induction false} SubsequenceDeepest(a: seq<seq<string>>, b: seq<seq<string>>)
    requires Subsequence(a, b)
    ensures Deepest(a) <= Deepest(b)
    decreases |b|
  {
    if a != [] {
      if a[0] == b[0] && Subsequence(a[1..], b[1..]) {
        SubsequenceDeepest(a[1..], b[1..]);
      } else {
        SubsequenceDeepest(a, b[1..]);
      }
    }
  }

  /** The paths the walk reports are, in order, among those of the inlined selections. */
  lemma {:induction false} WalkWithinInlining(
    selections: seq<Selection>, names: seq<string>, fragments: seq<Fragment>, visited: set<string>, open: set<string>)
    requires open <= visited
    ensures Subsequence(FieldPaths(Walk(selections, names, fragments, visited).trace),
                        FieldPaths(Inline(selections, names, fragments, open)))
    decreases Defined(fragments) - visited, |Own(selections)|
  {
    if selections != [] {
      var sel := selections[0];
      EnterDecreases(sel, names, fragments, visited);
      var b, o := Enter(sel, names, fragments, visited), Enter(sel, names, fragments, open);
      var inner := Walk(b.selections, b.names, fragments, b.visited);
      var inlined := Inline(o.selections, o.names, fragments, o.visited);
      if b.selections != [] {
        WalkWithinInlining(b.selections, b.names, fragments, b.visited, o.visited);
      }
      WalkWithinInlining(selections[1..], names, fragments, inner.visited, open);
      var head, headO := VisitOf(sel, names, visited), VisitOf(sel, names, open);
      var rest, restO := Walk(selections[1..], names, fragments, inner.visited).trace,
                         Inline(selections[1..], names, fragments, open);
      FieldPathsHead(head, inner.trace, rest);
      FieldPathsHead(headO, inlined, restO);
      var own := if sel.Field? then [head.names] else [];
      assert Subsequence(own, own);
      SubsequenceConcat(own, own, FieldPaths(inner.trace), FieldPaths(inlined));
      SubsequenceConcat(own + FieldPaths(inner.trace), own + FieldPaths(inlined), FieldPaths(rest), FieldPaths(restO));
    }
  }

  /** The reported depth never exceeds the depth of the inlined selections. */
  lemma DepthAtMostInlined(selections: seq<Selection>, fragments: seq<Fragment>)
    ensures OperationTally(selections, fragments).depth <= Deepest(FieldPaths(Inline(selections, [], fragments, {})))
  {
    var r := Walk(selections, [], fragments, {});
    CountAllCloses(r.trace);
    WalkWithinInlining(selections, [], fragments, {}, {});
    SubsequenceDeepest(FieldPaths(r.trace), FieldPaths(Inline(selections, [], fragments, {})));
  }

  // ---------- Acyclic documents ----------

  /** No fragment reaches itself (section 5.5.2.2 of the GraphQL Specification, October 2021). */
  ghost predicate Acyclic(fragments: seq<Fragment>) {
    forall name :: var f := ForName(fragments, name);
                   f.Some? ==> !Reachable(f.value.selections, fragments, name)
  }

  /** No open fragment is reachable from the selections. */
  ghost predicate Clear(selections: seq<Selection>, fragments: seq<Fragment>, open: set<string>) {
    forall name :: name in open ==> !Reachable(selections, fragments, name)
  }

  lemma ReachableFromMore(a: seq<Selection>, b: seq<Selection>, fragments: seq<Fragment>, name: string)
    requires Spreads(a) <= Spreads(b) && Reachable(a, fragments, name)
    ensures Reachable(b, fragments, name)
  {
  }

  lemma ReachableThrough(selections: seq<Selection>, fragments: seq<Fragment>, via: string, name: string)
    requires via in Spreads(selections) && ForName(fragments, via).Some?
    requires Reachable(ForName(fragments, via).value.selections, fragments, name)
    ensures Reachable(selections, fragments, name)
  {
    var body := ForName(fragments, via).value.selections;
    var path :| SpreadPath(body, fragments, path) && path[|path| - 1] == name;
    var longer := [via] + path;
    forall i | 0 <= i < |longer| - 1
      ensures Edge(fragments, longer[i], longer[i + 1])
    {
      if i > 0 {
        assert Edge(fragments, path[i - 1], path[i - 1 + 1]);
      }
    }
    assert SpreadPath(selections, fragments, longer);
  }

  lemma ReachableBeneath(
    selections: seq<Selection>, names: seq<string>, fragments: seq<Fragment>, open: set<string>, name: string)
    requires selections != []
    requires || Reachable(Enter(selections[0], names, fragments, open).selections, fragments, name)
             || Reachable(selections[1..], fragments, name)
    ensures Reachable(selections, fragments, name)
  {
    var sel := selections[0];
    OwnHead(selections);
    var beneath := Enter(sel, names, fragments, open).selections;
    if Reachable(selections[1..], fragments, name) {
      ReachableFromMore(selections[1..], selections, fragments, name);
    } else if sel.FragmentSpread? {
      assert beneath != [];
      ReachableThrough(selections, fragments, sel.name, name);
    } else {
      ReachableFromMore(beneath, selections, fragments, name);
    }
  }

  /** In an acyclic document the open set stays clear, so no expansion is ever cut short. */
  lemma ClearBeneath(selections: seq<Selection>, names: seq<string>, fragments: seq<Fragment>, open: set<string>)
    requires selections != [] && Acyclic(fragments) && Clear(selections, fragments, open)
    ensures var b := Enter(selections[0], names, fragments, open);
            Clear(b.selections, fragments, b.visited) && Clear(selections[1..], fragments, open)
    ensures selections[0].FragmentSpread? ==> selections[0].name !in open
  {
    var sel := selections[0];
    var b := Enter(sel, names, fragments, open);
    OwnHead(selections);
    if sel.FragmentSpread? {
      ReachableSpread(selections, fragments, sel.name);
    }
    forall name | name in open
      ensures !Reachable(b.selections, fragments, name) && !Reachable(selections[1..], fragments, name)
    {
      if Reachable(b.selections, fragments, name) || Reachable(selections[1..], fragments, name) {
        ReachableBeneath(selections, names, fragments, open, name);
      }
    }
  }

  /** In an acyclic document inlining depends neither on the open set nor, but for the paths, on the context. */
  lemma {:induction false} InlineContext(
    selections: seq<Selection>, fragments: seq<Fragment>,
    names: seq<string>, open: set<string>, names': seq<string>, open': set<string>)
    requires Acyclic(fragments) && Clear(selections, fragments, open) && Clear(selections, fragments, open')
    ensures var a, b := Inline(selections, names, fragments, open), Inline(selections, names', fragments, open');
            Nodes(a) == Nodes(b) && (names == names' ==> a == b)
    decreases Defined(fragments) - open, |Own(selections)|
  {
    if selections != [] {
      var sel, rest := selections[0], selections[1..];
      EnterDecreases(sel, names, fragments, open);
      ClearBeneath(selections, names, fragments, open);
      ClearBeneath(selections, names', fragments, open');
      var x, y := Enter(sel, names, fragments, open), Enter(sel, names', fragments, open');
      InlineContext(x.selections, fragments, x.names, x.visited, y.names, y.visited);
      InlineContext(rest, fragments, names, open, names', open');
      NodesHead(sel, names, open, Inline(x.selections, x.names, fragments, x.visited),
                Inline(rest, names, fragments, open));
      NodesHead(sel, names', open', Inline(y.selections, y.names, fragments, y.visited),
                Inline(rest, names', fragments, open'));
    }
  }

  lemma NodesHead(sel: Selection, names: seq<string>, open: set<string>, inner: seq<Visit>, rest: seq<Visit>)
    ensures Nodes([VisitOf(sel, names, open)] + inner + rest) == [NodeOf(sel)] + Nodes(inner) + Nodes(rest)
  {
  }

  /** In an acyclic document `Inline` is full inlining: a spread yields the inlined body of its fragment. */
  lemma InlineIsFull(spread: Selection, names: seq<string>, fragments: seq<Fragment>)
    requires spread.FragmentSpread? && Acyclic(fragments)
    ensures FieldPaths(Inline([spread], names, fragments, {})) ==
            match ForName(fragments, spread.name)
            case None => []
            case Some(f) => FieldPaths(Inline(f.selections, names, fragments, {}))
  {
    var b := Enter(spread, names, fragments, {});
    ClearBeneath([spread], names, fragments, {});
    InlineContext(b.selections, fragments, names, b.visited, names, {});
    FieldPathsHead(VisitOf(spread, names, {}), Inline(b.selections, names, fragments, b.visited),
                   Inline([], names, fragments, {}));
  }

  // ---------- What the walk leaves out ----------

  /** The number of field paths that the inlined body of a fragment contributes. */
  ghost function Content(fragments: seq<Fragment>, name: string): nat {
    match ForName(fragments, name)
    case None => 0
    case Some(f) => |FieldPaths(Inline(f.selections, [], fragments, {}))|
  }

  /** The field paths behind the spreads that a walk skipped. */
  ghost function Lost(trace: seq<Visit>, fragments: seq<Fragment>): nat {
    if trace == [] then 0 else
    (if trace[0].node.SpreadNode? && !trace[0].expanded then Content(fragments, trace[0].node.name) else 0)
    + Lost(trace[1..], fragments)
  }

  lemma {:induction false} LostConcat(a: seq<Visit>, b: seq<Visit>, fragments: seq<Fragment>)
    ensures Lost(a + b, fragments) == Lost(a, fragments) + Lost(b, fragments)
  {
    if a == [] {
      assert a + b == b;
    } else {
      assert (a + b)[1..] == a[1..] + b;
      LostConcat(a[1..], b, fragments);
    }
  }

  lemma LostHead(v: Visit, inner: seq<Visit>, rest: seq<Visit>, fragments: seq<Fragment>)
    ensures Lost([v] + inner + rest, fragments) ==
            (if v.node.SpreadNode? && !v.expanded then Content(fragments, v.node.name) else 0)
            + Lost(inner, fragments) + Lost(rest, fragments)
  {
    LostConcat([v] + inner, rest, fragments);
    LostConcat([v], inner, fragments);
    assert [v][1..] == [];
  }

  /** The inlined body of a spread, in the place where it stands. */
  lemma SpreadContent(selections: seq<Selection>, names: seq<string>, fragments: seq<Fragment>, open: set<string>)
    requires selections != [] && selections[0].FragmentSpread?
    requires Acyclic(fragments) && Clear(selections, fragments, open)
    ensures var o := Enter(selections[0], names, fragments, open);
            |FieldPaths(Inline(o.selections, o.names, fragments, o.visited))| == Content(fragments, selections[0].name)
  {
    var name := selections[0].name;
    ClearBeneath(selections, names, fragments, open);
    if ForName(fragments, name).Some? {
      ForNameNamed(fragments, name);
      ContentInContext(ForName(fragments, name).value, names, fragments, open + {name});
    }
  }

  lemma ContentInContext(f: Fragment, names: seq<string>, fragments: seq<Fragment>, open: set<string>)
    requires ForName(fragments, f.name) == Some(f)
    requires Acyclic(fragments) && Clear(f.selections, fragments, open)
    ensures |FieldPaths(Inline(f.selections, names, fragments, open))| == Content(fragments, f.name)
  {
    InlineContext(f.selections, fragments, names, open, [], {});
    FieldPathsTotal(Inline(f.selections, names, fragments, open));
    FieldPathsTotal(Inline(f.selections, [], fragments, {}));
  }

  lemma {:induction false} ForNameNamed(fragments: seq<Fragment>, name: string)
    ensures ForName(fragments, name).Some? ==> ForName(fragments, name).value.name == name
  {
    if fragments != [] {
      ForNameNamed(fragments[1..], name);
    }
  }

  /** The paths of a field itself. */
  function OwnPath(sel: Selection, names: seq<string>): seq<seq<string>> {
    if sel.Field? then [names + [ResponseKey(sel)]] else []
  }

  lemma InlinePaths(selections: seq<Selection>, names: seq<string>, fragments: seq<Fragment>, open: set<string>)
    requires selections != []
    ensures var b := Enter(selections[0], names, fragments, open);
            FieldPaths(Inline(selections, names, fragments, open)) ==
            OwnPath(selections[0], names) + FieldPaths(Inline(b.selections, b.names, fragments, b.visited))
            + FieldPaths(Inline(selections[1..], names, fragments, open))
  {
    EnterDecreases(selections[0], names, fragments, open);
    var b := Enter(selections[0], names, fragments, open);
    FieldPathsHead(VisitOf(selections[0], names, open), Inline(b.selections, b.names, fragments, b.visited),
                   Inline(selections[1..], names, fragments, open));
  }

  /** Conservation: the inlined paths are the reported ones and those behind the skipped spreads. */
  lemma {:induction false} WalkConservesPaths(
    selections: seq<Selection>, names: seq<string>, fragments: seq<Fragment>, visited: set<string>, open: set<string>)
    requires open <= visited && Acyclic(fragments) && Clear(selections, fragments, open)
    ensures var trace := Walk(selections, names, fragments, visited).trace;
            |FieldPaths(Inline(selections, names, fragments, open))| == |FieldPaths(trace)| + Lost(trace, fragments)
    decreases Defined(fragments) - visited, |Own(selections)|
  {
    if selections != [] {
      var sel := selections[0];
      EnterDecreases(sel, names, fragments, visited);
      ClearBeneath(selections, names, fragments, open);
      var b, o := Enter(sel, names, fragments, visited), Enter(sel, names, fragments, open);
      var inner := Walk(b.selections, b.names, fragments, b.visited);
      var rest := Walk(selections[1..], names, fragments, inner.visited);
      var head := VisitOf(sel, names, visited);
      FieldPathsHead(head, inner.trace, rest.trace);
      InlinePaths(selections, names, fragments, open);
      LostHead(head, inner.trace, rest.trace, fragments);
      WalkConservesPaths(selections[1..], names, fragments, inner.visited, open);
      if sel.FragmentSpread? && sel.name in visited {
        SpreadContent(selections, names, fragments, open);
      } else {
        WalkConservesPaths(b.selections, b.names, fragments, b.visited, o.visited);
      }
    }
  }

  /** Marks the spreads of one fragment. */
  function UsesOf(name: string): Node -> nat {
    (node: Node) => if node.SpreadNode? && node.name == name then 1 else 0
  }

  ghost function Skips(trace: seq<Visit>, name: string): nat {
    if trace == [] then 0 else
    (if !trace[0].expanded then UsesOf(name)(trace[0].node) else 0) + Skips(trace[1..], name)
  }

  lemma {:induction false} SkipsConcat(a: seq<Visit>, b: seq<Visit>, name: string)
    ensures Skips(a + b, name) == Skips(a, name) + Skips(b, name)
  {
    if a == [] {
      assert a + b == b;
    } else {
      assert (a + b)[1..] == a[1..] + b;
      SkipsConcat(a[1..], b, name);
    }
  }

  lemma SkipsHead(v: Visit, inner: seq<Visit>, rest: seq<Visit>, name: string)
    ensures Skips([v] + inner + rest, name) ==
            (if v.expanded then 0 else UsesOf(name)(v.node)) + Skips(inner, name) + Skips(rest, name)
  {
    SkipsConcat([v] + inner, rest, name);
    SkipsConcat([v], inner, name);
    assert Skips([v], name) == (if v.expanded then 0 else UsesOf(name)(v.node)) + Skips([], name);
  }

  ghost function Added(name: string, before: set<string>, after: set<string>): nat {
    if name in after && name !in before then 1 else 0
  }

  lemma AddedChain(name: string, v0: set<string>, v1: set<string>, v2: set<string>, v3: set<string>)
    requires v0 <= v1 <= v2 <= v3
    ensures Added(name, v0, v3) == Added(name, v0, v1) + Added(name, v1, v2) + Added(name, v2, v3)
  {
  }

  lemma HeadUse(sel: Selection, names: seq<string>, fragments: seq<Fragment>, visited: set<string>, name: string)
    ensures var head := VisitOf(sel, names, visited);
            UsesOf(name)(head.node) ==
            (if head.expanded then 0 else UsesOf(name)(head.node))
            + Added(name, visited, Enter(sel, names, fragments, visited).visited)
  {
  }

  /** Of the spreads of a fragment, a walk expands the first and skips the others. */
  lemma {:induction false} FirstUseExpands(
    selections: seq<Selection>, names: seq<string>, fragments: seq<Fragment>, visited: set<string>, name: string)
    ensures var r := Walk(selections, names, fragments, visited);
            Total(Nodes(r.trace), UsesOf(name)) == Skips(r.trace, name) + Added(name, visited, r.visited)
    decreases Defined(fragments) - visited, |Own(selections)|
  {
    if selections != [] {
      var sel := selections[0];
      EnterDecreases(sel, names, fragments, visited);
      var b := Enter(sel, names, fragments, visited);
      var inner := Walk(b.selections, b.names, fragments, b.visited);
      var rest := Walk(selections[1..], names, fragments, inner.visited);
      FirstUseExpands(b.selections, b.names, fragments, b.visited, name);
      FirstUseExpands(selections[1..], names, fragments, inner.visited, name);
      var head := VisitOf(sel, names, visited);
      TraceTotals(head, inner.trace, rest.trace, UsesOf(name));
      SkipsHead(head, inner.trace, rest.trace, name);
      AddedChain(name, visited, b.visited, inner.visited, rest.visited);
      HeadUse(sel, names, fragments, visited, name);
    }
  }

  lemma {:induction false} LostNothing(trace: seq<Visit>, fragments: seq<Fragment>)
    ensures Lost(trace, fragments) == 0 <==> forall name :: Skips(trace, name) > 0 ==> Content(fragments, name) == 0
  {
    if trace != [] {
      LostNothing(trace[1..], fragments);
      var node := trace[0].node;
      forall name
        ensures Skips(trace, name) > 0 <==>
                Skips(trace[1..], name) > 0 || (node.SpreadNode? && !trace[0].expanded && node.name == name)
      {
      }
    }
  }

  /** Exactly when the reported paths are those of the inlined operation: no fragment that
      contributes a field is spread more than once in the operation and the fragments it reaches. */
  lemma WalkIsInliningExactly(selections: seq<Selection>, fragments: seq<Fragment>, reached: set<string>)
    requires Acyclic(fragments)
    requires forall name :: name in reached <==> Reachable(selections, fragments, name)
    ensures FieldPaths(Walk(selections, [], fragments, {}).trace) == FieldPaths(Inline(selections, [], fragments, {}))
            <==> forall name :: name in reached && Content(fragments, name) > 0 ==>
                   Total(Reference(selections, fragments, reached), UsesOf(name)) <= 1
  {
    var r := Walk(selections, [], fragments, {});
    var full := Inline(selections, [], fragments, {});
    WalkWithinInlining(selections, [], fragments, {}, {});
    SubsequenceLength(FieldPaths(r.trace), FieldPaths(full));
    WalkConservesPaths(selections, [], fragments, {}, {});
    LostNothing(r.trace, fragments);
    forall name
      ensures name in r.visited <==> name in reached
    {
      VisitedIsReachable(selections, [], fragments, name);
    }
    assert r.visited == reached;
    forall name
      ensures Skips(r.trace, name) > 0 <==>
              name in reached && Total(Reference(selections, fragments, reached), UsesOf(name)) > 1
    {
      FirstUseExpands(selections, [], fragments, {}, name);
      WalkTotals(selections, [], fragments, UsesOf(name));
      if Skips(r.trace, name) > 0 && name !in r.visited {
        SkippedWasVisited(selections, [], fragments, {}, name);
      }
    }
  }

  /** A skipped spread names a fragment that was visited. */
  lemma {:induction false} SkippedWasVisited(
    selections: seq<Selection>, names: seq<string>, fragments: seq<Fragment>, visited: set<string>, name: string)
    ensures var r := Walk(selections, names, fragments, visited); Skips(r.trace, name) > 0 ==> name in r.visited
    decreases Defined(fragments) - visited, |Own(selections)|
  {
    if selections != [] {
      var sel := selections[0];
      EnterDecreases(sel, names, fragments, visited);
      var b := Enter(sel, names, fragments, visited);
      var inner := Walk(b.selections, b.names, fragments, b.visited);
      SkippedWasVisited(b.selections, b.names, fragments, b.visited, name);
      SkippedWasVisited(selections[1..], names, fragments, inner.visited, name);
      var head := VisitOf(sel, names, visited);
      SkipsHead(head, inner.trace, Walk(selections[1..], names, fragments, inner.visited).trace, name);
    }
  }

  // ---------- What the skipped spreads take from the depth ----------

  /** Paths moved beneath `names`. */
  function MovedBelow(names: seq<string>, paths: seq<seq<string>>): (r: seq<seq<string>>)
    ensures |r| == |paths|
  {
    seq(|paths|, i requires 0 <= i < |paths| => names + paths[i])
  }

  /** The depth of paths moved beneath `level` names. */
  function DepthBeneath(level: nat, paths: seq<seq<string>>): nat {
    if paths == [] then 0 else level + Deepest(paths)
  }

  lemma {:induction false} DeepestBeneath(names: seq<string>, paths: seq<seq<string>>)
    ensures Deepest(MovedBelow(names, paths)) == DepthBeneath(|names|, paths)
  {
    if paths != [] {
      DeepestBeneath(names, paths[1..]);
      assert MovedBelow(names, paths)[1..] == MovedBelow(names, paths[1..]);
      if paths[1..] == [] {
        assert Deepest(paths) == |paths[0]|;
      }
    }
  }

  lemma MovedParts(outer: seq<string>, a: seq<seq<string>>, b: seq<seq<string>>, c: seq<seq<string>>)
    ensures MovedBelow(outer, a + b + c) == MovedBelow(outer, a) + MovedBelow(outer, b) + MovedBelow(outer, c)
  {
  }

  lemma OwnPathMoved(sel: Selection, outer: seq<string>, names: seq<string>)
    ensures OwnPath(sel, outer + names) == MovedBelow(outer, OwnPath(sel, names))
  {
    if sel.Field? {
      assert outer + names + [ResponseKey(sel)] == outer + (names + [ResponseKey(sel)]);
    }
  }

  /** Inlining beneath more names only moves the paths. */
  lemma {:induction false} InlineBeneath(
    selections: seq<Selection>, outer: seq<string>, names: seq<string>, fragments: seq<Fragment>, open: set<string>)
    ensures FieldPaths(Inline(selections, outer + names, fragments, open)) ==
            MovedBelow(outer, FieldPaths(Inline(selections, names, fragments, open)))
    decreases Defined(fragments) - open, |Own(selections)|
  {
    if selections != [] {
      var sel, rest := selections[0], selections[1..];
      EnterDecreases(sel, names, fragments, open);
      EnterBeneath(sel, outer, names, fragments, open);
      var x := Enter(sel, names, fragments, open);
      InlineBeneath(x.selections, outer, x.names, fragments, x.visited);
      InlineBeneath(rest, outer, names, fragments, open);
      InlinePaths(selections, names, fragments, open);
      InlinePaths(selections, outer + names, fragments, open);
      OwnPathMoved(sel, outer, names);
      MovedParts(outer, OwnPath(sel, names), FieldPaths(Inline(x.selections, x.names, fragments, x.visited)),
                 FieldPaths(Inline(rest, names, fragments, open)));
    }
  }

  lemma EnterBeneath(
    sel: Selection, outer: seq<string>, names: seq<string>, fragments: seq<Fragment>, open: set<string>)
    ensures var x, y := Enter(sel, names, fragments, open), Enter(sel, outer + names, fragments, open);
            y.selections == x.selections && y.visited == x.visited && y.names == outer + x.names
  {
    if sel.Field? {
      assert outer + names + [ResponseKey(sel)] == outer + (names + [ResponseKey(sel)]);
    }
  }

  /** The depth that the inlined body of a fragment reaches when it stands beneath `level` names. */
  ghost function Reach(fragments: seq<Fragment>, name: string, level: nat): nat {
    match ForName(fragments, name)
    case None => 0
    case Some(f) => DepthBeneath(level, FieldPaths(Inline(f.selections, [], fragments, {})))
  }

  /** The greatest depth behind the spreads that a walk skipped. */
  ghost function LostDepth(trace: seq<Visit>, fragments: seq<Fragment>): nat {
    if trace == [] then 0 else
    Max(if trace[0].node.SpreadNode? && !trace[0].expanded then Reach(fragments, trace[0].node.name, |trace[0].names|)
        else 0,
        LostDepth(trace[1..], fragments))
  }

  lemma {:induction false} LostDepthConcat(a: seq<Visit>, b: seq<Visit>, fragments: seq<Fragment>)
    ensures LostDepth(a + b, fragments) == Max(LostDepth(a, fragments), LostDepth(b, fragments))
  {
    if a == [] {
      assert a + b == b;
    } else {
      assert (a + b)[1..] == a[1..] + b;
      LostDepthConcat(a[1..], b, fragments);
    }
  }

  lemma LostDepthHead(v: Visit, inner: seq<Visit>, rest: seq<Visit>, fragments: seq<Fragment>)
    ensures LostDepth([v] + inner + rest, fragments) ==
            Max(if v.node.SpreadNode? && !v.expanded then Reach(fragments, v.node.name, |v.names|) else 0,
                Max(LostDepth(inner, fragments), LostDepth(rest, fragments)))
  {
    LostDepthConcat([v] + inner, rest, fragments);
    LostDepthConcat([v], inner, fragments);
    assert [v][1..] == [];
  }

  lemma DeepestParts(sel: Selection, names: seq<string>, inner: seq<seq<string>>, rest: seq<seq<string>>)
    ensures Deepest(OwnPath(sel, names) + inner + rest) ==
            Max(if sel.Field? then |names| + 1 else 0, Max(Deepest(inner), Deepest(rest)))
  {
    DeepestConcat(OwnPath(sel, names) + inner, rest);
    DeepestConcat(OwnPath(sel, names), inner);
    if sel.Field? {
      assert OwnPath(sel, names)[1..] == [];
    }
  }

  /** The depth of the inlined body of a spread, in the place where it stands. */
  lemma SpreadReach(selections: seq<Selection>, names: seq<string>, fragments: seq<Fragment>, open: set<string>)
    requires selections != [] && selections[0].FragmentSpread?
    requires Acyclic(fragments) && Clear(selections, fragments, open)
    ensures var o := Enter(selections[0], names, fragments, open);
            Deepest(FieldPaths(Inline(o.selections, o.names, fragments, o.visited))) ==
            Reach(fragments, selections[0].name, |names|)
  {
    var name := selections[0].name;
    ClearBeneath(selections, names, fragments, open);
    if ForName(fragments, name).Some? {
      var body := ForName(fragments, name).value.selections;
      InlineContext(body, fragments, names, open + {name}, names, {});
      InlineBeneath(body, names, [], fragments, {});
      assert names + [] == names;
      DeepestBeneath(names, FieldPaths(Inline(body, [], fragments, {})));
    }
  }

  /** The greatest depth of a walk, reported or behind a skipped spread. */
  ghost function TrueDepth(trace: seq<Visit>, fragments: seq<Fragment>): nat {
    Max(Deepest(FieldPaths(trace)), LostDepth(trace, fragments))
  }

  lemma TrueDepthHead(
    sel: Selection, names: seq<string>, visited: set<string>, inner: seq<Visit>, rest: seq<Visit>,
    fragments: seq<Fragment>)
    ensures TrueDepth([VisitOf(sel, names, visited)] + inner + rest, fragments) ==
            Max(if sel.Field? then |names| + 1
                else if sel.FragmentSpread? && sel.name in visited then Reach(fragments, sel.name, |names|)
                else 0,
                Max(TrueDepth(inner, fragments), TrueDepth(rest, fragments)))
  {
    var head := VisitOf(sel, names, visited);
    FieldPathsHead(head, inner, rest);
    DeepestParts(sel, names, FieldPaths(inner), FieldPaths(rest));
    LostDepthHead(head, inner, rest, fragments);
  }

  /** The depth of the inlined selections is the depth the walk reports or the depth behind its skipped
      spreads, whichever is greater. */
  lemma {:induction false} WalkConservesDepth(
    selections: seq<Selection>, names: seq<string>, fragments: seq<Fragment>, visited: set<string>, open: set<string>)
    requires open <= visited && Acyclic(fragments) && Clear(selections, fragments, open)
    ensures Deepest(FieldPaths(Inline(selections, names, fragments, open))) ==
            TrueDepth(Walk(selections, names, fragments, visited).trace, fragments)
    decreases Defined(fragments) - visited, |Own(selections)|
  {
    if selections != [] {
      var sel := selections[0];
      EnterDecreases(sel, names, fragments, visited);
      ClearBeneath(selections, names, fragments, open);
      var b, o := Enter(sel, names, fragments, visited), Enter(sel, names, fragments, open);
      var inner := Walk(b.selections, b.names, fragments, b.visited);
      WalkConservesDepth(selections[1..], names, fragments, inner.visited, open);
      TrueDepthHead(sel, names, visited, inner.trace, Walk(selections[1..], names, fragments, inner.visited).trace,
                    fragments);
      InlinePaths(selections, names, fragments, open);
      DeepestParts(sel, names, FieldPaths(Inline(o.selections, o.names, fragments, o.visited)),
                   FieldPaths(Inline(selections[1..], names, fragments, open)));
      if sel.FragmentSpread? && sel.name in visited {
        SpreadReach(selections, names, fragments, open);
        assert inner.trace == [];
      } else {
        WalkConservesDepth(b.selections, b.names, fragments, b.visited, o.visited);
      }
    }
  }

  /** The reported depth is that of the inlined operation exactly when no skipped spread reaches deeper. */
  lemma DepthIsInlinedExactly(selections: seq<Selection>, fragments: seq<Fragment>)
    requires Acyclic(fragments)
    ensures var depth, lost := OperationTally(selections, fragments).depth,
                               LostDepth(Walk(selections, [], fragments, {}).trace, fragments);
            && Deepest(FieldPaths(Inline(selections, [], fragments, {}))) == Max(depth, lost)
            && (depth == Deepest(FieldPaths(Inline(selections, [], fragments, {}))) <==> lost <= depth)
  {
    CountAllCloses(Walk(selections, [], fragments, {}).trace);
    WalkConservesDepth(selections, [], fragments, {}, {});
  }

  // ---------- Depth depends on where a fragment is first spread ----------

  function Nest(name: string, selections: seq<Selection>): Selection {
    Field(name, "", 0, [], selections)
  }

  lemma WalkPaths(selections: seq<Selection>, names: seq<string>, fragments: seq<Fragment>, visited: set<string>)
    requires selections != []
    ensures var b := Enter(selections[0], names, fragments, visited);
            var r := Walk(selections, names, fragments, visited);
            var inner := Walk(b.selections, b.names, fragments, b.visited);
            var rest := Walk(selections[1..], names, fragments, inner.visited);
            && r.visited == rest.visited
            && FieldPaths(r.trace) ==
               (if selections[0].Field? then [b.names] else []) + FieldPaths(inner.trace) + FieldPaths(rest.trace)
  {
    EnterDecreases(selections[0], names, fragments, visited);
    var b := Enter(selections[0], names, fragments, visited);
    var inner := Walk(b.selections, b.names, fragments, b.visited);
    FieldPathsHead(VisitOf(selections[0], names, visited), inner.trace,
                   Walk(selections[1..], names, fragments, inner.visited).trace);
  }

  /** The body of the example fragment yields two paths wherever it is expanded. */
  lemma ExampleBody(y: string, z: string, names: seq<string>, fragments: seq<Fragment>, visited: set<string>)
    ensures var r := Walk([Nest(y, [Nest(z, [])])], names, fragments, visited);
            r.visited == visited && FieldPaths(r.trace) == [names + [y], names + [y] + [z]]
  {
    WalkPaths([Nest(y, [Nest(z, [])])], names, fragments, visited);
    WalkPaths([Nest(z, [])], names + [y], fragments, visited);
  }

  lemma ExampleSpread(
    fragment: Fragment, y: string, z: string, names: seq<string>, visited: set<string>)
    requires fragment.selections == [Nest(y, [Nest(z, [])])]
    ensures var r := Walk([FragmentSpread(fragment.name, 0)], names, [fragment], visited);
            && r.visited == visited + {fragment.name}
            && FieldPaths(r.trace) == if fragment.name in visited then [] else [names + [y], names + [y] + [z]]
  {
    assert ForName([fragment], fragment.name) == Some(fragment);
    WalkPaths([FragmentSpread(fragment.name, 0)], names, [fragment], visited);
    ExampleBody(y, z, names, [fragment], visited + {fragment.name});
  }

  lemma ExampleShallowFirst(fragment: Fragment, nest: Selection, x: string, y: string, z: string)
    requires fragment.selections == [Nest(y, [Nest(z, [])])] && nest == Nest(x, [FragmentSpread(fragment.name, 0)])
    ensures FieldPaths(Walk([FragmentSpread(fragment.name, 0), nest], [], [fragment], {}).trace) ==
            [[y], [y] + [z], [x]]
  {
    var spread, seen := FragmentSpread(fragment.name, 0), {fragment.name};
    assert ForName([fragment], fragment.name) == Some(fragment);
    assert Enter(spread, [], [fragment], {}) == Beneath(fragment.selections, [], seen);
    assert [] + [y] == [y];
    ExampleBody(y, z, [], [fragment], seen);
    WalkPaths([spread, nest], [], [fragment], {});
    assert [spread, nest][1..] == [nest] && [nest][1..] == [];
    ExampleSpread(fragment, y, z, [] + [x], seen);
    WalkPaths([nest], [], [fragment], seen);
    assert Enter(nest, [], [fragment], seen) == Beneath([spread], [] + [x], seen);
    assert [] + [x] == [x] && [] + [y] + [z] == [y] + [z];
    assert FieldPaths(Walk([nest], [], [fragment], seen).trace) == [[x]];
  }

  lemma ExampleDeepFirst(fragment: Fragment, nest: Selection, x: string, y: string, z: string)
    requires fragment.selections == [Nest(y, [Nest(z, [])])] && nest == Nest(x, [FragmentSpread(fragment.name, 0)])
    ensures FieldPaths(Walk([nest, FragmentSpread(fragment.name, 0)], [], [fragment], {}).trace) ==
            [[x], [x] + [y], [x] + [y] + [z]]
  {
    var spread := FragmentSpread(fragment.name, 0);
    assert [] + [x] == [x] && [nest, spread][1..] == [spread];
    ExampleSpread(fragment, y, z, [x], {});
    ExampleSpread(fragment, y, z, [], {} + {fragment.name});
    WalkPaths([nest, spread], [], [fragment], {});
  }

  lemma DeepestOfThree(a: seq<string>, b: seq<string>, c: seq<string>)
    ensures Deepest([a, b, c]) == Max(|a|, Max(|b|, |c|))
  {
    assert [a, b, c][1..] == [b, c] && [b, c][1..] == [c] && [c][1..] == [];
    assert Deepest([c]) == |c|;
    assert Deepest([b, c]) == Max(|b|, |c|);
  }

  /** A deep use of a fragment after a shallow one is not measured; before it, it is. */
  lemma DepthDependsOnOrder(fragment: Fragment, x: string, y: string, z: string)
    requires fragment.selections == [Nest(y, [Nest(z, [])])]
    ensures var spread := FragmentSpread(fragment.name, 0);
            && OperationTally([spread, Nest(x, [spread])], [fragment]).depth == 2
            && OperationTally([Nest(x, [spread]), spread], [fragment]).depth == 3
  {
    var spread := FragmentSpread(fragment.name, 0);
    var nest := Nest(x, [spread]);
    ExampleShallowFirst(fragment, nest, x, y, z);
    ExampleDeepFirst(fragment, nest, x, y, z);
    CountAllCloses(Walk([spread, nest], [], [fragment], {}).trace);
    CountAllCloses(Walk([nest, spread], [], [fragment], {}).trace);
    DeepestOfThree([y], [y] + [z], [x]);
    DeepestOfThree([x], [x] + [y], [x] + [y] + [z]);
  }
}
