/** What the walk reaches: the visited names are the reachable fragments, and the visited
    nodes are those of the operation plus those of each reachable fragment, once. */
module Exactness {
  import opened Ast
  import opened Traversal

  ghost function Spreads(selections: seq<Selection>): set<string> {
    set node | node in Own(selections) && node.SpreadNode? :: node.name
  }

  /** `to` is spread in the body of the fragment `from`. */
  ghost predicate Edge(fragments: seq<Fragment>, from: string, to: string) {
    var f := ForName(fragments, from);
    f.Some? && to in Spreads(f.value.selections)
  }

  ghost predicate SpreadPath(selections: seq<Selection>, fragments: seq<Fragment>, path: seq<string>) {
    && path != []
    && path[0] in Spreads(selections)
    && forall i | 0 <= i < |path| - 1 :: Edge(fragments, path[i], path[i + 1])
  }

  /** A chain of spreads leads from the selection set to `name`. */
  ghost predicate Reachable(selections: seq<Selection>, fragments: seq<Fragment>, name: string) {
    exists path :: SpreadPath(selections, fragments, path) && path[|path| - 1] == name
  }

  ghost predicate ClosedUnder(fragments: seq<Fragment>, names: set<string>) {
    forall from, to :: from in names && Edge(fragments, from, to) ==> to in names
  }

  lemma OwnHead(selections: seq<Selection>)
    requires selections != []
    ensures var sel := selections[0];
            && Spreads(selections) ==
               (if sel.FragmentSpread? then {sel.name} else Spreads(sel.selections)) + Spreads(selections[1..])
  {
  }

  /** The names a walk adds stay inside every closed set that holds the spreads of its selections. */
  lemma {:induction false} WalkStaysWithin(
    selections: seq<Selection>, names: seq<string>, fragments: seq<Fragment>, visited: set<string>, bound: set<string>)
    requires Spreads(selections) <= bound && visited <= bound && ClosedUnder(fragments, bound)
    ensures Walk(selections, names, fragments, visited).visited <= bound
    decreases Defined(fragments) - visited, |Own(selections)|
  {
    if selections != [] {
      var sel := selections[0];
      EnterDecreases(sel, names, fragments, visited);
      OwnHead(selections);
      var b := Enter(sel, names, fragments, visited);
      forall to | to in Spreads(b.selections)
        ensures to in bound
      {
        if sel.FragmentSpread? && sel.name !in visited {
          assert Edge(fragments, sel.name, to);
        }
      }
      WalkStaysWithin(b.selections, b.names, fragments, b.visited, bound);
      WalkStaysWithin(selections[1..], names, fragments,
                      Walk(b.selections, b.names, fragments, b.visited).visited, bound);
    }
  }

  /** The walk misses nothing: it visits every spread of its selections and of every fragment it adds. */
  lemma {:induction false} WalkMissesNothing(
    selections: seq<Selection>, names: seq<string>, fragments: seq<Fragment>, visited: set<string>)
    ensures var r := Walk(selections, names, fragments, visited);
            && Spreads(selections) <= r.visited
            && forall from, to :: from in r.visited - visited && Edge(fragments, from, to) ==> to in r.visited
    decreases Defined(fragments) - visited, |Own(selections)|
  {
    if selections != [] {
      var sel := selections[0];
      EnterDecreases(sel, names, fragments, visited);
      OwnHead(selections);
      var b := Enter(sel, names, fragments, visited);
      var inner := Walk(b.selections, b.names, fragments, b.visited);
      WalkMissesNothing(b.selections, b.names, fragments, b.visited);
      WalkMissesNothing(selections[1..], names, fragments, inner.visited);
    }
  }

  lemma SpreadPathWithin(
    selections: seq<Selection>, fragments: seq<Fragment>, path: seq<string>, names: set<string>, i: nat)
    requires SpreadPath(selections, fragments, path) && i < |path|
    requires Spreads(selections) <= names && ClosedUnder(fragments, names)
    ensures path[i] in names
  {
    if i > 0 {
      SpreadPathWithin(selections, fragments, path, names, i - 1);
      assert Edge(fragments, path[i - 1], path[i]);
    }
  }

  lemma ReachableSpread(selections: seq<Selection>, fragments: seq<Fragment>, name: string)
    requires name in Spreads(selections)
    ensures Reachable(selections, fragments, name)
  {
    assert SpreadPath(selections, fragments, [name]);
  }

  lemma ReachableStep(selections: seq<Selection>, fragments: seq<Fragment>, from: string, to: string)
    requires Reachable(selections, fragments, from) && Edge(fragments, from, to)
    ensures Reachable(selections, fragments, to)
  {
    var path :| SpreadPath(selections, fragments, path) && path[|path| - 1] == from;
    var longer := path + [to];
    forall i | 0 <= i < |longer| - 1
      ensures Edge(fragments, longer[i], longer[i + 1])
    {
      if i < |path| - 1 {
        assert Edge(fragments, path[i], path[i + 1]);
      }
    }
    assert SpreadPath(selections, fragments, longer);
  }

  /** After walking an operation, `visited` is exactly the set of reachable fragment names. */
  lemma VisitedIsReachable(selections: seq<Selection>, names: seq<string>, fragments: seq<Fragment>, name: string)
    ensures name in Walk(selections, names, fragments, {}).visited <==> Reachable(selections, fragments, name)
  {
    var visited := Walk(selections, names, fragments, {}).visited;
    WalkMissesNothing(selections, names, fragments, {});
    if Reachable(selections, fragments, name) {
      var path :| SpreadPath(selections, fragments, path) && path[|path| - 1] == name;
      SpreadPathWithin(selections, fragments, path, visited, |path| - 1);
    }
    var reached := set n | n in visited && Reachable(selections, fragments, n);
    forall n | n in Spreads(selections)
      ensures n in reached
    {
      ReachableSpread(selections, fragments, n);
    }
    forall from, to | from in reached && Edge(fragments, from, to)
      ensures to in reached
    {
      ReachableStep(selections, fragments, from, to);
    }
    WalkStaysWithin(selections, names, fragments, {}, reached);
  }

  /** The sum of a per-node quantity. */
  function Total(nodes: seq<Node>, weight: Node -> nat): nat {
    if nodes == [] then 0 else weight(nodes[0]) + Total(nodes[1..], weight)
  }

  /** The maximum of a per-node quantity. */
  function Peak(nodes: seq<Node>, weight: Node -> nat): nat {
    if nodes == [] then 0 else Max(weight(nodes[0]), Peak(nodes[1..], weight))
  }

  function Max(a: nat, b: nat): nat {
    if a < b then b else a
  }

  lemma {:induction false} TotalConcat(a: seq<Node>, b: seq<Node>, weight: Node -> nat)
    ensures Total(a + b, weight) == Total(a, weight) + Total(b, weight)
  {
    if a == [] {
      assert a + b == b;
    } else {
      assert (a + b)[1..] == a[1..] + b;
      TotalConcat(a[1..], b, weight);
    }
  }

  /** Marks the nodes whose weight is at least `k`. */
  function AtLeast(weight: Node -> nat, k: nat): Node -> nat {
    (node: Node) => if weight(node) >= k then 1 else 0
  }

  lemma {:induction false} PeakAtLeast(nodes: seq<Node>, weight: Node -> nat, k: nat)
    ensures k > 0 ==> (Peak(nodes, weight) >= k <==> Total(nodes, AtLeast(weight, k)) > 0)
  {
    if nodes != [] {
      PeakAtLeast(nodes[1..], weight, k);
    }
  }

  /** Node lists with equal totals for the marked nodes have equal peaks. */
  lemma PeakFromTotals(a: seq<Node>, b: seq<Node>, weight: Node -> nat)
    requires forall k: nat :: Total(a, AtLeast(weight, k)) == Total(b, AtLeast(weight, k))
    ensures Peak(a, weight) == Peak(b, weight)
  {
    var p, q := Peak(a, weight), Peak(b, weight);
    PeakAtLeast(a, weight, p);
    PeakAtLeast(b, weight, p);
    PeakAtLeast(a, weight, q);
    PeakAtLeast(b, weight, q);
  }

  lemma WithoutOne(nodes: seq<Node>, i: nat, weight: Node -> nat)
    requires i < |nodes|
    ensures var others := nodes[..i] + nodes[i + 1..];
            && multiset(nodes) == multiset(others) + multiset{nodes[i]}
            && Total(nodes, weight) == Total(others, weight) + weight(nodes[i])
  {
    var before, after := nodes[..i], nodes[i + 1..];
    assert nodes == before + ([nodes[i]] + after);
    assert nodes == before + [nodes[i]] + after;
    TotalConcat(before, [nodes[i]] + after, weight);
    TotalConcat([nodes[i]], after, weight);
    TotalConcat(before, after, weight);
  }

  lemma BagHead(nodes: seq<Node>)
    requires nodes != []
    ensures multiset(nodes) - multiset{nodes[0]} == multiset(nodes[1..])
  {
    assert nodes == [nodes[0]] + nodes[1..];
  }

  /** Totals do not depend on the order of the nodes. */
  lemma {:induction false} TotalOfBag(a: seq<Node>, b: seq<Node>, weight: Node -> nat)
    requires multiset(a) == multiset(b)
    ensures Total(a, weight) == Total(b, weight)
    decreases |a|
  {
    if a == [] {
      assert |multiset(b)| == |b|;
    } else {
      assert a[0] in multiset(a);
      var i :| 0 <= i < |b| && b[i] == a[0];
      var others := b[..i] + b[i + 1..];
      WithoutOne(b, i, weight);
      BagHead(a);
      assert multiset(b) - multiset{b[i]} == multiset(others);
      TotalOfBag(a[1..], others, weight);
    }
  }

  /** The nodes of the fragments named in `names`, each fragment once, in document order. */
  ghost function Bodies(fragments: seq<Fragment>, names: set<string>): seq<Node> {
    if fragments == [] then [] else
    (if fragments[0].name in names then Own(fragments[0].selections) else [])
    + Bodies(fragments[1..], names - {fragments[0].name})
  }

  lemma {:induction false} BodiesUnion(
    fragments: seq<Fragment>, a: set<string>, b: set<string>, weight: Node -> nat)
    requires a !! b
    ensures Total(Bodies(fragments, a + b), weight) ==
            Total(Bodies(fragments, a), weight) + Total(Bodies(fragments, b), weight)
  {
    if fragments != [] {
      var first, rest := fragments[0].name, fragments[1..];
      assert (a + b) - {first} == (a - {first}) + (b - {first});
      BodiesUnion(rest, a - {first}, b - {first}, weight);
      forall names | names in {a, b, a + b} {
        TotalConcat(if first in names then Own(fragments[0].selections) else [], Bodies(rest, names - {first}), weight);
      }
    }
  }

  lemma {:induction false} BodiesNone(fragments: seq<Fragment>)
    ensures Bodies(fragments, {}) == []
  {
    if fragments != [] {
      assert {} - {fragments[0].name} == {};
      BodiesNone(fragments[1..]);
    }
  }

  lemma {:induction false} BodiesOne(fragments: seq<Fragment>, name: string)
    ensures Bodies(fragments, {name}) ==
            match ForName(fragments, name) { case None => [] case Some(f) => Own(f.selections) }
  {
    if fragments != [] {
      if fragments[0].name == name {
        assert {name} - {name} == {};
        BodiesNone(fragments[1..]);
      } else {
        assert {name} - {fragments[0].name} == {name};
        BodiesOne(fragments[1..], name);
      }
    }
  }

  lemma BodiesChain(fragments: seq<Fragment>, v0: set<string>, v1: set<string>, v2: set<string>, weight: Node -> nat)
    requires v0 <= v1 <= v2
    ensures Total(Bodies(fragments, v2 - v0), weight) ==
            Total(Bodies(fragments, v1 - v0), weight) + Total(Bodies(fragments, v2 - v1), weight)
  {
    assert v2 - v0 == (v1 - v0) + (v2 - v1);
    BodiesUnion(fragments, v1 - v0, v2 - v1, weight);
  }

  /** Entering a selection brings in its own nested nodes, or the nodes of the fragment it adds. */
  lemma EnterNodes(sel: Selection, names: seq<string>, fragments: seq<Fragment>, visited: set<string>)
    ensures var b := Enter(sel, names, fragments, visited);
            Own(b.selections) ==
            (if sel.FragmentSpread? then [] else Own(sel.selections)) + Bodies(fragments, b.visited - visited)
  {
    var b := Enter(sel, names, fragments, visited);
    if sel.FragmentSpread? && sel.name !in visited {
      assert b.visited - visited == {sel.name};
      BodiesOne(fragments, sel.name);
    } else {
      assert b.visited - visited == {};
      BodiesNone(fragments);
    }
  }

  lemma OwnTotals(selections: seq<Selection>, weight: Node -> nat)
    requires selections != []
    ensures var sel, rest := selections[0], Own(selections[1..]);
            var nested := if sel.FragmentSpread? then [] else Own(sel.selections);
            Total(Own(selections), weight) == weight(NodeOf(sel)) + Total(nested, weight) + Total(rest, weight)
  {
    var sel, rest := selections[0], Own(selections[1..]);
    var nested := if sel.FragmentSpread? then [] else Own(sel.selections);
    assert Own(selections) == [NodeOf(sel)] + (nested + rest);
    TotalConcat([NodeOf(sel)], nested + rest, weight);
    TotalConcat(nested, rest, weight);
  }

  lemma TraceTotals(visit: Visit, inner: seq<Visit>, rest: seq<Visit>, weight: Node -> nat)
    ensures var nodes := Nodes([visit] + inner + rest);
            Total(nodes, weight) == weight(visit.node) + Total(Nodes(inner), weight) + Total(Nodes(rest), weight)
  {
    assert Nodes([visit] + inner + rest) == [visit.node] + (Nodes(inner) + Nodes(rest));
    TotalConcat([visit.node], Nodes(inner) + Nodes(rest), weight);
    TotalConcat(Nodes(inner), Nodes(rest), weight);
  }

  /** What a walk visits, under every weighing of nodes: the nodes of its selections and
      those of the fragments it adds, each once. */
  lemma {:induction false} WalkNodes(
    selections: seq<Selection>, names: seq<string>, fragments: seq<Fragment>, visited: set<string>, weight: Node -> nat)
    ensures var r := Walk(selections, names, fragments, visited);
            var added := Bodies(fragments, r.visited - visited);
            Total(Nodes(r.trace), weight) == Total(Own(selections), weight) + Total(added, weight)
    decreases Defined(fragments) - visited, |Own(selections)|
  {
    var r := Walk(selections, names, fragments, visited);
    if selections == [] {
      assert r.visited - visited == {};
      BodiesNone(fragments);
    } else {
      var sel := selections[0];
      EnterDecreases(sel, names, fragments, visited);
      var b := Enter(sel, names, fragments, visited);
      var inner := Walk(b.selections, b.names, fragments, b.visited);
      var rest := Walk(selections[1..], names, fragments, inner.visited);
      WalkNodes(b.selections, b.names, fragments, b.visited, weight);
      WalkNodes(selections[1..], names, fragments, inner.visited, weight);
      BodiesChain(fragments, visited, b.visited, inner.visited, weight);
      BodiesChain(fragments, visited, inner.visited, rest.visited, weight);
      var nested := if sel.FragmentSpread? then [] else Own(sel.selections);
      EnterNodes(sel, names, fragments, visited);
      TotalConcat(nested, Bodies(fragments, b.visited - visited), weight);
      TraceTotals(VisitOf(sel, names, visited), inner.trace, rest.trace, weight);
      OwnTotals(selections, weight);
    }
  }

  /** The nodes an analysis should see, stated without the walk: those of the operation
      followed by those of the fragments in `reached`. */
  ghost function Reference(selections: seq<Selection>, fragments: seq<Fragment>, reached: set<string>): seq<Node> {
    Own(selections) + Bodies(fragments, reached)
  }

  /** Every total over a walk is that over the reference nodes. */
  lemma WalkTotals(selections: seq<Selection>, names: seq<string>, fragments: seq<Fragment>, weight: Node -> nat)
    ensures var r := Walk(selections, names, fragments, {});
            Total(Nodes(r.trace), weight) == Total(Reference(selections, fragments, r.visited), weight)
  {
    var r := Walk(selections, names, fragments, {});
    WalkNodes(selections, names, fragments, {}, weight);
    assert r.visited - {} == r.visited;
    TotalConcat(Own(selections), Bodies(fragments, r.visited), weight);
  }

  /** Every peak over a walk is that over the reference nodes. */
  lemma WalkPeaks(selections: seq<Selection>, names: seq<string>, fragments: seq<Fragment>, weight: Node -> nat)
    ensures var r := Walk(selections, names, fragments, {});
            Peak(Nodes(r.trace), weight) == Peak(Reference(selections, fragments, r.visited), weight)
  {
    var r := Walk(selections, names, fragments, {});
    var reference := Reference(selections, fragments, r.visited);
    forall k: nat
      ensures Total(Nodes(r.trace), AtLeast(weight, k)) == Total(reference, AtLeast(weight, k))
    {
      WalkTotals(selections, names, fragments, AtLeast(weight, k));
    }
    PeakFromTotals(Nodes(r.trace), reference, weight);
  }

  /** The same nodes in the operation and in each fragment. */
  ghost predicate SameUpToOrder(
    a: seq<Selection>, fragmentsA: seq<Fragment>, b: seq<Selection>, fragmentsB: seq<Fragment>)
  {
    && multiset(Own(a)) == multiset(Own(b))
    && |fragmentsA| == |fragmentsB|
    && forall i | 0 <= i < |fragmentsA| ::
         && fragmentsA[i].name == fragmentsB[i].name
         && multiset(Own(fragmentsA[i].selections)) == multiset(Own(fragmentsB[i].selections))
  }

  /** The same selections in another order, at every level of nesting. */
  ghost predicate Reorders(a: seq<Selection>, b: seq<Selection>)
    decreases a, 1
  {
    |a| == |b| && (a == [] || exists i | 0 <= i < |b| :: FirstAt(a, b, i))
  }

  /** The first selection of `a` is the i-th of `b`, and the others are reordered. */
  ghost predicate FirstAt(a: seq<Selection>, b: seq<Selection>, i: nat)
    requires a != [] && i < |b|
    decreases a, 0
  {
    && NodeOf(a[0]) == NodeOf(b[i])
    && (!a[0].FragmentSpread? ==> Reorders(a[0].selections, b[i].selections))
    && Reorders(a[1..], b[..i] + b[i + 1..])
  }

  /** The bag of nodes written in a selection set. */
  ghost function Bag(selections: seq<Selection>): multiset<Node> {
    if selections == [] then multiset{} else
    multiset{NodeOf(selections[0])} + Nested(selections[0]) + Bag(selections[1..])
  }

  ghost function Nested(sel: Selection): multiset<Node> {
    if sel.FragmentSpread? then multiset{} else Bag(sel.selections)
  }

  lemma {:induction false} BagOfOwn(selections: seq<Selection>)
    ensures Bag(selections) == multiset(Own(selections))
  {
    if selections != [] {
      BagOfOwn(selections[1..]);
      if !selections[0].FragmentSpread? {
        BagOfOwn(selections[0].selections);
      }
    }
  }

  lemma {:induction false} BagWithoutOne(b: seq<Selection>, i: nat)
    requires i < |b|
    ensures Bag(b) == multiset{NodeOf(b[i])} + Nested(b[i]) + Bag(b[..i] + b[i + 1..])
  {
    var others := b[..i] + b[i + 1..];
    if i == 0 {
      assert others == b[1..];
    } else {
      assert b[1..][i - 1] == b[i];
      assert others[0] == b[0] && others[1..] == b[1..][..i - 1] + b[1..][i..];
      BagWithoutOne(b[1..], i - 1);
    }
  }

  lemma {:induction false} ReorderingKeepsBag(a: seq<Selection>, b: seq<Selection>)
    requires Reorders(a, b)
    ensures Bag(a) == Bag(b)
    decreases a
  {
    if a != [] {
      var i :| 0 <= i < |b| && FirstAt(a, b, i);
      var others := b[..i] + b[i + 1..];
      ReorderingKeepsBag(a[1..], others);
      if !a[0].FragmentSpread? {
        ReorderingKeepsBag(a[0].selections, b[i].selections);
      }
      BagWithoutOne(b, i);
    }
  }

  /** Reordering selections keeps the bag of nodes. */
  lemma ReorderingKeepsNodes(a: seq<Selection>, b: seq<Selection>)
    requires Reorders(a, b)
    ensures multiset(Own(a)) == multiset(Own(b))
  {
    ReorderingKeepsBag(a, b);
    BagOfOwn(a);
    BagOfOwn(b);
  }

  /** Reordering the selections of an operation and of the fragments, at any level, gives the same
      document up to order. */
  lemma ReorderingIsSameUpToOrder(
    a: seq<Selection>, fragmentsA: seq<Fragment>, b: seq<Selection>, fragmentsB: seq<Fragment>)
    requires Reorders(a, b) && |fragmentsA| == |fragmentsB|
    requires forall i | 0 <= i < |fragmentsA| ::
               && fragmentsA[i].name == fragmentsB[i].name
               && Reorders(fragmentsA[i].selections, fragmentsB[i].selections)
    ensures SameUpToOrder(a, fragmentsA, b, fragmentsB)
  {
    ReorderingKeepsNodes(a, b);
    forall i | 0 <= i < |fragmentsA|
      ensures multiset(Own(fragmentsA[i].selections)) == multiset(Own(fragmentsB[i].selections))
    {
      ReorderingKeepsNodes(fragmentsA[i].selections, fragmentsB[i].selections);
    }
  }

  lemma BagSpreads(a: seq<Selection>, b: seq<Selection>)
    requires multiset(Own(a)) == multiset(Own(b))
    ensures Spreads(a) == Spreads(b)
  {
    assert forall node :: node in Own(a) <==> node in multiset(Own(a));
    assert forall node :: node in Own(b) <==> node in multiset(Own(b));
  }

  lemma {:induction false} OrderLookup(fragmentsA: seq<Fragment>, fragmentsB: seq<Fragment>, name: string)
    requires SameUpToOrder([], fragmentsA, [], fragmentsB)
    ensures match (ForName(fragmentsA, name), ForName(fragmentsB, name))
            case (None, None) => true
            case (Some(f), Some(g)) => Spreads(f.selections) == Spreads(g.selections)
            case _ => false
  {
    if fragmentsA != [] {
      if fragmentsA[0].name == name {
        BagSpreads(fragmentsA[0].selections, fragmentsB[0].selections);
      } else {
        OrderLookup(fragmentsA[1..], fragmentsB[1..], name);
      }
    }
  }

  lemma {:induction false} OrderBodies(fragmentsA: seq<Fragment>, fragmentsB: seq<Fragment>, names: set<string>)
    requires SameUpToOrder([], fragmentsA, [], fragmentsB)
    ensures multiset(Bodies(fragmentsA, names)) == multiset(Bodies(fragmentsB, names))
  {
    if fragmentsA != [] {
      OrderBodies(fragmentsA[1..], fragmentsB[1..], names - {fragmentsA[0].name});
    }
  }

  lemma OrderVisited(
    a: seq<Selection>, fragmentsA: seq<Fragment>, b: seq<Selection>, fragmentsB: seq<Fragment>, names: seq<string>)
    requires SameUpToOrder(a, fragmentsA, b, fragmentsB)
    ensures Walk(a, names, fragmentsA, {}).visited <= Walk(b, names, fragmentsB, {}).visited
  {
    var bound := Walk(b, names, fragmentsB, {}).visited;
    WalkMissesNothing(b, names, fragmentsB, {});
    BagSpreads(a, b);
    forall from, to | from in bound && Edge(fragmentsA, from, to)
      ensures to in bound
    {
      OrderLookup(fragmentsA, fragmentsB, from);
      assert Edge(fragmentsB, from, to);
    }
    WalkStaysWithin(a, names, fragmentsA, {}, bound);
  }

  lemma OrderTotals(
    a: seq<Selection>, fragmentsA: seq<Fragment>, b: seq<Selection>, fragmentsB: seq<Fragment>, weight: Node -> nat)
    requires SameUpToOrder(a, fragmentsA, b, fragmentsB)
    ensures var ra, rb := Walk(a, [], fragmentsA, {}), Walk(b, [], fragmentsB, {});
            && ra.visited == rb.visited
            && Total(Nodes(ra.trace), weight) == Total(Nodes(rb.trace), weight)
  {
    var visited := Walk(a, [], fragmentsA, {}).visited;
    OrderVisited(a, fragmentsA, b, fragmentsB, []);
    OrderVisited(b, fragmentsB, a, fragmentsA, []);
    WalkTotals(a, [], fragmentsA, weight);
    WalkTotals(b, [], fragmentsB, weight);
    OrderBodies(fragmentsA, fragmentsB, visited);
    TotalOfBag(Reference(a, fragmentsA, visited), Reference(b, fragmentsB, visited), weight);
  }

  /** The visited names, every total and every peak are independent of the order of selections. */
  lemma OrderIndependence(
    a: seq<Selection>, fragmentsA: seq<Fragment>, b: seq<Selection>, fragmentsB: seq<Fragment>, weight: Node -> nat)
    requires SameUpToOrder(a, fragmentsA, b, fragmentsB)
    ensures var ra, rb := Walk(a, [], fragmentsA, {}), Walk(b, [], fragmentsB, {});
            && ra.visited == rb.visited
            && Total(Nodes(ra.trace), weight) == Total(Nodes(rb.trace), weight)
            && Peak(Nodes(ra.trace), weight) == Peak(Nodes(rb.trace), weight)
  {
    OrderTotals(a, fragmentsA, b, fragmentsB, weight);
    var nodesA, nodesB := Nodes(Walk(a, [], fragmentsA, {}).trace), Nodes(Walk(b, [], fragmentsB, {}).trace);
    forall k: nat
      ensures Total(nodesA, AtLeast(weight, k)) == Total(nodesB, AtLeast(weight, k))
    {
      OrderTotals(a, fragmentsA, b, fragmentsB, AtLeast(weight, k));
    }
    PeakFromTotals(nodesA, nodesB, weight);
  }
}
