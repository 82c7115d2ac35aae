/** The depth-first walk over a selection set, as a trace of visited nodes. */
module Traversal {
  import opened Ast

  /** A visited node. A field carries its own path, other nodes the path around them;
      `expanded` is false for a spread whose fragment was already visited. */
  datatype Visit = Visit(names: seq<string>, node: Node, expanded: bool)

  datatype Walked = Walked(trace: seq<Visit>, visited: set<string>)

  /** What is walked beneath one selection. */
  datatype Beneath = Beneath(selections: seq<Selection>, names: seq<string>, visited: set<string>)

  function Enter(sel: Selection, names: seq<string>, fragments: seq<Fragment>, visited: set<string>): Beneath {
    match sel
    case Field(_, _, _, _, selections) => Beneath(selections, names + [ResponseKey(sel)], visited)
    case InlineFragment(_, _, selections) => Beneath(selections, names, visited)
    case FragmentSpread(name, _) =>
      if name in visited then Beneath([], names, visited)
      else match ForName(fragments, name)
        case None => Beneath([], names, visited + {name})
        case Some(fragment) => Beneath(fragment.selections, names, visited + {name})
  }

  function VisitOf(sel: Selection, names: seq<string>, visited: set<string>): Visit {
    Visit(if sel.Field? then names + [ResponseKey(sel)] else names, NodeOf(sel),
          sel.FragmentSpread? ==> sel.name !in visited)
  }

  /** Entering shrinks the set of unvisited defined fragments, or else the nodes left to walk. */
  lemma EnterDecreases(sel: Selection, names: seq<string>, fragments: seq<Fragment>, visited: set<string>)
    ensures var b := Enter(sel, names, fragments, visited);
            && visited <= b.visited
            && (|| (b.visited == visited && |Own(b.selections)| < |Own([sel])|)
                || Defined(fragments) - b.visited < Defined(fragments) - visited
                || (b.selections == [] && Defined(fragments) - b.visited == Defined(fragments) - visited))
  {
    if sel.FragmentSpread? && sel.name !in visited {
      ForNameDefined(fragments, sel.name);
      if ForName(fragments, sel.name).Some? {
        assert sel.name in (Defined(fragments) - visited) - (Defined(fragments) - (visited + {sel.name}));
      }
    }
  }

  /** The trace of the walk and the fragment names visited when it ends. */
  function Walk(selections: seq<Selection>, names: seq<string>, fragments: seq<Fragment>, visited: set<string>)
    : (r: Walked)
    ensures visited <= r.visited
    decreases Defined(fragments) - visited, |Own(selections)|
  {
    if selections == [] then Walked([], visited) else
    var sel := selections[0];
    EnterDecreases(sel, names, fragments, visited);
    var b := Enter(sel, names, fragments, visited);
    var inner := Walk(b.selections, b.names, fragments, b.visited);
    var rest := Walk(selections[1..], names, fragments, inner.visited);
    Walked([VisitOf(sel, names, visited)] + inner.trace + rest.trace, rest.visited)
  }

  function Nodes(trace: seq<Visit>): (nodes: seq<Node>)
    ensures |nodes| == |trace|
    ensures forall i | 0 <= i < |trace| :: nodes[i] == trace[i].node
  {
    seq(|trace|, i requires 0 <= i < |trace| => trace[i].node)
  }

  /** The paths of the visited fields, in visiting order. */
  function FieldPaths(trace: seq<Visit>): seq<seq<string>> {
    if trace == [] then [] else
    (if trace[0].node.FieldNode? then [trace[0].names] else []) + FieldPaths(trace[1..])
  }

  lemma {:induction false} FieldPathsConcat(a: seq<Visit>, b: seq<Visit>)
    ensures FieldPaths(a + b) == FieldPaths(a) + FieldPaths(b)
  {
    if a == [] {
      assert a + b == b;
    } else {
      assert (a + b)[1..] == a[1..] + b;
      FieldPathsConcat(a[1..], b);
    }
  }

  lemma FieldPathsHead(v: Visit, inner: seq<Visit>, rest: seq<Visit>)
    ensures FieldPaths([v] + inner + rest) ==
            (if v.node.FieldNode? then [v.names] else []) + FieldPaths(inner) + FieldPaths(rest)
  {
    FieldPathsConcat([v] + inner, rest);
    FieldPathsConcat([v], inner);
  }
}
