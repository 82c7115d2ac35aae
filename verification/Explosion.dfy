/** How far a request can exceed what is reported of it: doubling through fragments. */
module Explosion {
  import opened Ast
  import opened Traversal
  import opened Exactness
  import opened Counters
  import opened Inlining
  import opened Analyzer
  import opened Requests
  import opened Policy
  import opened Enforcement

  function Power(n: nat): nat {
    if n == 0 then 1 else 2 * Power(n - 1)
  }

  /** F, FF, FFF, ... */
  function Name(i: nat): string {
    seq(i + 1, _ => 'F')
  }

  function Twice(i: nat): seq<Selection> {
    [FragmentSpread(Name(i), 0), FragmentSpread(Name(i), 0)]
  }

  /** The last fragment has one field, each other spreads the next one twice. */
  function Body(i: nat, n: nat, x: string): seq<Selection> {
    if i >= n then [Leaf(x)] else Twice(i + 1)
  }

  function Chain(i: nat, n: nat, x: string, typeCondition: string): seq<Fragment>
    decreases n - i
  {
    [Fragment(Name(i), typeCondition, 0, Body(i, n, x))] + if i >= n then [] else Chain(i + 1, n, x, typeCondition)
  }

  /** `{ ...F } fragment F { ...FF ...FF } fragment FF { ...FFF ...FFF }` and so on, n times. */
  function Exploding(n: nat, x: string, typeCondition: string): Document {
    QueryOf([FragmentSpread(Name(0), 0)], Chain(0, n, x, typeCondition))
  }

  lemma NameInjective(i: nat, j: nat)
    ensures Name(i) == Name(j) <==> i == j
  {
    assert |Name(i)| == i + 1 && |Name(j)| == j + 1;
  }

  lemma {:induction false} ChainLookup(i: nat, n: nat, x: string, typeCondition: string, j: nat)
    requires i <= j <= n
    ensures ForName(Chain(i, n, x, typeCondition), Name(j)) == Some(Fragment(Name(j), typeCondition, 0, Body(j, n, x)))
    decreases n - i
  {
    NameInjective(i, j);
    if i < j {
      ChainLookup(i + 1, n, x, typeCondition, j);
      assert Chain(i, n, x, typeCondition)[1..] == Chain(i + 1, n, x, typeCondition);
    }
  }

  lemma {:induction false} ChainNames(i: nat, n: nat, x: string, typeCondition: string, name: string)
    requires i <= n && ForName(Chain(i, n, x, typeCondition), name).Some?
    ensures exists j: nat :: i <= j <= n && name == Name(j)
    decreases n - i
  {
    var rest := Chain(i, n, x, typeCondition)[1..];
    assert rest == if i < n then Chain(i + 1, n, x, typeCondition) else [];
    if name != Name(i) {
      ChainNames(i + 1, n, x, typeCondition, name);
    }
  }

  lemma BodySpreads(i: nat, n: nat, x: string)
    ensures Spreads(Body(i, n, x)) == if i < n then {Name(i + 1)} else {}
  {
    if i < n {
      var spread := FragmentSpread(Name(i + 1), 0);
      assert [spread, spread][1..] == [spread] && [spread][1..] == [];
      OwnHead([spread, spread]);
      OwnHead([spread]);
    } else {
      assert [Leaf(x)][1..] == [];
      OwnHead([Leaf(x)]);
    }
  }

  ghost function Later(i: nat, n: nat): set<string> {
    set j | i < j <= n :: Name(j)
  }

  /** No fragment of the chain reaches itself. */
  lemma ChainAcyclic(n: nat, x: string, typeCondition: string)
    ensures Acyclic(Chain(0, n, x, typeCondition))
  {
    var fragments := Chain(0, n, x, typeCondition);
    forall name | ForName(fragments, name).Some?
      ensures !Reachable(ForName(fragments, name).value.selections, fragments, name)
    {
      ChainNames(0, n, x, typeCondition, name);
      var i: nat :| i <= n && name == Name(i);
      ChainLookup(0, n, x, typeCondition, i);
      ReachesLater(i, n, x, typeCondition);
    }
  }

  lemma ReachesLater(i: nat, n: nat, x: string, typeCondition: string)
    requires i <= n
    ensures !Reachable(Body(i, n, x), Chain(0, n, x, typeCondition), Name(i))
  {
    var fragments := Chain(0, n, x, typeCondition);
    BodySpreads(i, n, x);
    forall from, to | from in Later(i, n) && Edge(fragments, from, to)
      ensures to in Later(i, n)
    {
      var j: nat :| i < j <= n && from == Name(j);
      ChainLookup(0, n, x, typeCondition, j);
      BodySpreads(j, n, x);
    }
    forall j | i < j <= n
      ensures Name(j) != Name(i)
    {
      NameInjective(i, j);
    }
    if Reachable(Body(i, n, x), fragments, Name(i)) {
      var path :| SpreadPath(Body(i, n, x), fragments, path) && path[|path| - 1] == Name(i);
      SpreadPathWithin(Body(i, n, x), fragments, path, Later(i, n), |path| - 1);
    }
  }

  /** Each spread of the i-th fragment asks for twice as many fields as one of the next. */
  lemma {:induction false} Doubling(i: nat, n: nat, x: string, typeCondition: string, at: Place, open: set<string>)
    requires i <= n && forall j: nat | i <= j <= n :: Name(j) !in open
    ensures |PathsOf(Requested([FragmentSpread(Name(i), 0)], at, Chain(0, n, x, typeCondition), open))| == Power(n - i)
    decreases n - i
  {
    var fragments, spread := Chain(0, n, x, typeCondition), FragmentSpread(Name(i), 0);
    var inside, within := Inside(spread, at, fragments), open + {Name(i)};
    ChainLookup(0, n, x, typeCondition, i);
    RequestedPaths([spread], at, fragments, open);
    assert [spread][1..] == [];
    if i == n {
      RequestedPaths([Leaf(x)], inside, fragments, within);
      assert [Leaf(x)][1..] == [];
    } else {
      var next := FragmentSpread(Name(i + 1), 0);
      forall j: nat | i + 1 <= j <= n
        ensures Name(j) !in within
      {
        NameInjective(i, j);
      }
      Doubling(i + 1, n, x, typeCondition, inside, within);
      RequestedPaths([next, next], inside, fragments, within);
      RequestedPaths([next], inside, fragments, within);
      assert [next, next][1..] == [next] && [next][1..] == [];
    }
  }

  /** The sum of a quantity over all fragment bodies. */
  function BodyTotal(fragments: seq<Fragment>, weight: Node -> nat): nat {
    if fragments == [] then 0 else Total(Own(fragments[0].selections), weight) + BodyTotal(fragments[1..], weight)
  }

  lemma {:induction false} BodiesAtMost(fragments: seq<Fragment>, names: set<string>, weight: Node -> nat)
    ensures Total(Bodies(fragments, names), weight) <= BodyTotal(fragments, weight)
  {
    if fragments != [] {
      var first := if fragments[0].name in names then Own(fragments[0].selections) else [];
      BodiesAtMost(fragments[1..], names - {fragments[0].name}, weight);
      TotalConcat(first, Bodies(fragments[1..], names - {fragments[0].name}), weight);
    }
  }

  lemma {:induction false} ChainFields(i: nat, n: nat, x: string, typeCondition: string)
    requires i <= n
    ensures BodyTotal(Chain(i, n, x, typeCondition), Fields) == 1
    ensures FragmentNodes(Chain(i, n, x, typeCondition)) == 2 * (n - i) + 1
    decreases n - i
  {
    var chain := Chain(i, n, x, typeCondition);
    BodyNodes(i, n, x);
    if i < n {
      assert chain[1..] == Chain(i + 1, n, x, typeCondition);
      ChainFields(i + 1, n, x, typeCondition);
    } else {
      assert chain[1..] == [];
    }
  }

  lemma BodyNodes(i: nat, n: nat, x: string)
    ensures Total(Own(Body(i, n, x)), Fields) == if i < n then 0 else 1
    ensures |Own(Body(i, n, x))| == if i < n then 2 else 1
  {
    if i < n {
      var spread := FragmentSpread(Name(i + 1), 0);
      assert [spread, spread][1..] == [spread] && [spread][1..] == [];
      assert Own([spread, spread]) == [NodeOf(spread), NodeOf(spread)];
      assert [NodeOf(spread), NodeOf(spread)][1..] == [NodeOf(spread)] && [NodeOf(spread)][1..] == [];
      assert Total([NodeOf(spread)], Fields) == 0;
    } else {
      assert [Leaf(x)][1..] == [] && Own([Leaf(x)]) == [NodeOf(Leaf(x))];
      assert [NodeOf(Leaf(x))][1..] == [];
    }
  }

  lemma TallySmall(n: nat, x: string, typeCondition: string)
    ensures var t := OperationTally([FragmentSpread(Name(0), 0)], Chain(0, n, x, typeCondition));
            t.fieldCount <= 1 && t.fragmentSpreadCount <= 2 * n + 2
  {
    var fragments, spread := Chain(0, n, x, typeCondition), FragmentSpread(Name(0), 0);
    var r := Walk([spread], [], fragments, {});
    assert [spread][1..] == [] && Own([spread]) == [NodeOf(spread)] && [NodeOf(spread)][1..] == [];
    CountAllCloses(r.trace);
    WalkTotals([spread], [], fragments, Fields);
    TotalConcat(Own([spread]), Bodies(fragments, r.visited), Fields);
    BodiesAtMost(fragments, r.visited, Fields);
    ChainFields(0, n, x, typeCondition);
    WorkBoundedByDocument([spread], fragments);
  }

  lemma ReportedSmall(n: nat, x: string, typeCondition: string, hash: string)
    ensures var s := Summarize(Exploding(n, x, typeCondition), hash);
            s.depth <= s.fieldCount <= 1 && s.fragmentSpreadCount <= 2 * n + 2
  {
    var doc := Exploding(n, x, typeCondition);
    var op := doc.operations[0];
    TallySmall(n, x, typeCondition);
    MeasuresFit(doc, hash);
    OneOperation(op, doc.fragments, FieldCount);
    OneOperation(op, doc.fragments, SpreadCount);
  }

  /** For every n there is an acyclic document with 2n + 2 spreads that asks for 2^n fields, while at most one
      is reported: it passes every depth limit, field limit and cost budget of at least one. */
  lemma ExponentialRequest(
    n: nat, x: string, typeCondition: string, hash: string, params: Params, tenants: map<string, Params>)
    requires WellTyped(params)
    requires forall key <- {"depth_limit", "max_field_count", "cost_budget"} :: Within(1, params, key)
    ensures var doc := Exploding(n, x, typeCondition);
            var s, i := Summarize(doc, hash), InputFor(doc, hash, params, tenants);
            && Acceptable(doc) && Acyclic(doc.fragments) && |RealPaths(doc)| == Power(n)
            && s.depth <= s.fieldCount <= 1 && s.fragmentSpreadCount <= 2 * n + 2
            && !Fires(DepthLimit, i) && !Fires(FieldLimit, i) && !Fires(CostBudget, i)
  {
    var doc := Exploding(n, x, typeCondition);
    var s := Summarize(doc, hash);
    QueryPaths(doc.operations[0].selections, doc.fragments);
    Doubling(0, n, x, typeCondition, ROOT, {});
    ChainAcyclic(n, x, typeCondition);
    ReportedSmall(n, x, typeCondition, hash);
    SmallPasses(s, params, tenants);
  }

  lemma SmallPasses(s: Summary, params: Params, tenants: map<string, Params>)
    requires WellTyped(params) && s.depth <= s.fieldCount <= 1
    requires forall key <- {"depth_limit", "max_field_count", "cost_budget"} :: Within(1, params, key)
    ensures var i := BuildInput(s, params, tenants);
            !Fires(DepthLimit, i) && !Fires(FieldLimit, i) && !Fires(CostBudget, i)
  {
    assert Within(1, params, "depth_limit") && Within(1, params, "max_field_count") && Within(1, params, "cost_budget");
    LimitMeans(params, "depth_limit", s.depth);
    LimitMeans(params, "max_field_count", s.fieldCount);
    assert s.depth * s.fieldCount <= 1;
    LimitMeans(params, "cost_budget", s.depth * s.fieldCount);
  }
}
