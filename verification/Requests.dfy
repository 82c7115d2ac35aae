/** What a request really asks for: every field under its real name, every spread expanded where it stands. */
module Requests {
  import opened Ast
  import opened Text
  import opened Traversal
  import opened Exactness
  import opened Counters
  import opened Inlining
  import opened Analyzer

  /** The real names down to a field; the last type condition around it, and the names since then. */
  datatype Place = Place(path: seq<string>, within: Option<string>, since: seq<string>)

  const ROOT := Place([], None, [])

  /** Beneath a type condition, if there is one. */
  function Under(at: Place, typeCondition: string): Place {
    if typeCondition == "" then at else Place(at.path, Some(typeCondition), [])
  }

  /** Where the selections beneath `sel` stand. */
  function Inside(sel: Selection, at: Place, fragments: seq<Fragment>): Place {
    match sel
    case Field(name, _, _, _, _) => Place(at.path + [name], at.within, at.since + [name])
    case InlineFragment(typeCondition, _, _) => Under(at, typeCondition)
    case FragmentSpread(name, _) =>
      match ForName(fragments, name)
      case None => at
      case Some(f) => Under(at, f.typeCondition)
  }

  /** The fields asked for, with every spread expanded except one inside an expansion of the same fragment. */
  ghost function Requested(selections: seq<Selection>, at: Place, fragments: seq<Fragment>, open: set<string>)
    : seq<Place>
    decreases Defined(fragments) - open, |Own(selections)|
  {
    if selections == [] then [] else
    EnterDecreases(selections[0], [], fragments, open);
    var b, inside := Enter(selections[0], [], fragments, open), Inside(selections[0], at, fragments);
    (if selections[0].Field? then [inside] else [])
    + Requested(b.selections, inside, fragments, b.visited)
    + Requested(selections[1..], at, fragments, open)
  }

  ghost function RequestedBy(operations: seq<Operation>, fragments: seq<Fragment>): seq<Place> {
    if operations == [] then [] else
    RequestedBy(operations[..|operations| - 1], fragments)
    + Requested(operations[|operations| - 1].selections, ROOT, fragments, {})
  }

  function PathsOf(places: seq<Place>): (paths: seq<seq<string>>)
    ensures |paths| == |places|
  {
    seq(|places|, i requires 0 <= i < |places| => places[i].path)
  }

  /** The paths of real names that the document asks for. */
  ghost function RealPaths(doc: Document): seq<seq<string>> {
    PathsOf(RequestedBy(doc.operations, doc.fragments))
  }

  /** The paths of response keys that the analyser reports. */
  function KeyPaths(doc: Document): seq<seq<string>> {
    AllPaths(doc.operations, doc.fragments)
  }

  ghost predicate SamePaths(a: seq<seq<string>>, b: seq<seq<string>>) {
    (forall path <- a :: path in b) && (forall path <- b :: path in a)
  }

  // ---------- Requests and inlining ----------

  /** Paths of the same lengths in the same order. */
  ghost predicate SameShape(a: seq<seq<string>>, b: seq<seq<string>>) {
    |a| == |b| && forall i | 0 <= i < |a| :: |a[i]| == |b[i]|
  }

  lemma PathsOfParts(a: seq<Place>, b: seq<Place>, c: seq<Place>)
    ensures PathsOf(a + b + c) == PathsOf(a) + PathsOf(b) + PathsOf(c)
  {
  }

  lemma ShapeOfParts(
    a: seq<seq<string>>, b: seq<seq<string>>, c: seq<seq<string>>,
    a': seq<seq<string>>, b': seq<seq<string>>, c': seq<seq<string>>)
    requires SameShape(a, a') && SameShape(b, b') && SameShape(c, c')
    ensures SameShape(a + b + c, a' + b' + c')
  {
  }

  /** The place of a field itself. */
  ghost function OwnPlace(sel: Selection, at: Place, fragments: seq<Fragment>): seq<Place> {
    if sel.Field? then [Inside(sel, at, fragments)] else []
  }

  lemma RequestedPaths(selections: seq<Selection>, at: Place, fragments: seq<Fragment>, open: set<string>)
    requires selections != []
    ensures var b := Enter(selections[0], [], fragments, open);
            PathsOf(Requested(selections, at, fragments, open)) ==
            PathsOf(OwnPlace(selections[0], at, fragments))
            + PathsOf(Requested(b.selections, Inside(selections[0], at, fragments), fragments, b.visited))
            + PathsOf(Requested(selections[1..], at, fragments, open))
  {
    EnterDecreases(selections[0], [], fragments, open);
    var b := Enter(selections[0], [], fragments, open);
    PathsOfParts(OwnPlace(selections[0], at, fragments),
                 Requested(b.selections, Inside(selections[0], at, fragments), fragments, b.visited),
                 Requested(selections[1..], at, fragments, open));
  }

  /** Names change no shape: the paths asked for are as long as the inlined paths of response keys. */
  lemma {:induction false} RequestedShape(
    selections: seq<Selection>, at: Place, names: seq<string>, fragments: seq<Fragment>, open: set<string>)
    requires |at.path| == |names|
    ensures SameShape(PathsOf(Requested(selections, at, fragments, open)),
                      FieldPaths(Inline(selections, names, fragments, open)))
    decreases Defined(fragments) - open, |Own(selections)|
  {
    if selections != [] {
      var sel := selections[0];
      EnterDecreases(sel, names, fragments, open);
      var b, inside := Enter(sel, names, fragments, open), Inside(sel, at, fragments);
      RequestedShape(b.selections, inside, b.names, fragments, b.visited);
      RequestedShape(selections[1..], at, names, fragments, open);
      RequestedPaths(selections, at, fragments, open);
      InlinePaths(selections, names, fragments, open);
      ShapeOfParts(PathsOf(OwnPlace(sel, at, fragments)),
                   PathsOf(Requested(b.selections, inside, fragments, b.visited)),
                   PathsOf(Requested(selections[1..], at, fragments, open)),
                   OwnPath(sel, names), FieldPaths(Inline(b.selections, b.names, fragments, b.visited)),
                   FieldPaths(Inline(selections[1..], names, fragments, open)));
    }
  }

  /** Every field is known by its real name. */
  predicate Unaliased(selections: seq<Selection>) {
    selections == [] ||
    (&& (selections[0].Field? ==> ResponseKey(selections[0]) == selections[0].name)
     && (!selections[0].FragmentSpread? ==> Unaliased(selections[0].selections))
     && Unaliased(selections[1..]))
  }

  /** A field without alias leads to the same path by its name and by its key. */
  lemma InsideEnter(sel: Selection, at: Place, fragments: seq<Fragment>, open: set<string>)
    requires sel.Field? ==> ResponseKey(sel) == sel.name
    ensures var b, e := Enter(sel, [], fragments, open), Enter(sel, at.path, fragments, open);
            && b.selections == e.selections && b.visited == e.visited
            && (b.selections != [] ==> e.names == Inside(sel, at, fragments).path)
            && PathsOf(OwnPlace(sel, at, fragments)) == OwnPath(sel, at.path)
  {
  }

  lemma UnaliasedBeneath(
    selections: seq<Selection>, fragments: seq<Fragment>, names: seq<string>, open: set<string>)
    requires selections != [] && Unaliased(selections) && forall f <- fragments :: Unaliased(f.selections)
    ensures Unaliased(Enter(selections[0], names, fragments, open).selections) && Unaliased(selections[1..])
    ensures selections[0].Field? ==> ResponseKey(selections[0]) == selections[0].name
  {
    if selections[0].FragmentSpread? {
      ForNameMember(fragments, selections[0].name);
    }
  }

  lemma {:induction false} RequestedUnaliased(
    selections: seq<Selection>, at: Place, fragments: seq<Fragment>, open: set<string>)
    requires Unaliased(selections) && forall f <- fragments :: Unaliased(f.selections)
    ensures PathsOf(Requested(selections, at, fragments, open)) ==
            FieldPaths(Inline(selections, at.path, fragments, open))
    decreases Defined(fragments) - open, |Own(selections)|
  {
    if selections != [] {
      var sel := selections[0];
      EnterDecreases(sel, at.path, fragments, open);
      var b := Enter(sel, at.path, fragments, open);
      UnaliasedBeneath(selections, fragments, at.path, open);
      InsideEnter(sel, at, fragments, open);
      RequestedPaths(selections, at, fragments, open);
      InlinePaths(selections, at.path, fragments, open);
      if b.selections != [] {
        RequestedUnaliased(b.selections, Inside(sel, at, fragments), fragments, b.visited);
      }
      RequestedUnaliased(selections[1..], at, fragments, open);
    }
  }

  // ---------- Documents whose reported paths are the real ones ----------

  /** No fragment that contributes a field is spread more than once in the selections and what they reach. */
  ghost predicate SpreadsOnce(selections: seq<Selection>, fragments: seq<Fragment>) {
    var reached := Walk(selections, [], fragments, {}).visited;
    forall name | name in reached && Content(fragments, name) > 0 ::
      Total(Reference(selections, fragments, reached), UsesOf(name)) <= 1
  }

  /** No aliases, no cycle of fragments, and no field-bearing fragment spread twice in one operation. */
  ghost predicate IsPlain(doc: Document) {
    && Acyclic(doc.fragments)
    && (forall f <- doc.fragments :: Unaliased(f.selections))
    && (forall op <- doc.operations :: Unaliased(op.selections) && SpreadsOnce(op.selections, doc.fragments))
  }

  lemma SpreadsOncePaths(selections: seq<Selection>, fragments: seq<Fragment>)
    requires Acyclic(fragments) && SpreadsOnce(selections, fragments)
    ensures FieldPaths(Walk(selections, [], fragments, {}).trace) == FieldPaths(Inline(selections, [], fragments, {}))
  {
    var reached := Walk(selections, [], fragments, {}).visited;
    forall name
      ensures name in reached <==> Reachable(selections, fragments, name)
    {
      VisitedIsReachable(selections, [], fragments, name);
    }
    WalkIsInliningExactly(selections, fragments, reached);
  }

  lemma PathsOfTwo(a: seq<Place>, b: seq<Place>)
    ensures PathsOf(a + b) == PathsOf(a) + PathsOf(b)
  {
  }

  lemma {:induction false} PlainPaths(operations: seq<Operation>, fragments: seq<Fragment>)
    requires IsPlain(Document(operations, fragments))
    ensures PathsOf(RequestedBy(operations, fragments)) == AllPaths(operations, fragments)
  {
    if operations != [] {
      var init, last := operations[..|operations| - 1], operations[|operations| - 1];
      assert last in operations && forall op :: op in init ==> op in operations;
      PlainPaths(init, fragments);
      RequestedUnaliased(last.selections, ROOT, fragments, {});
      SpreadsOncePaths(last.selections, fragments);
      PathsOfTwo(RequestedBy(init, fragments), Requested(last.selections, ROOT, fragments, {}));
    }
  }

  /** A plain document asks for exactly the paths that are reported. */
  lemma PlainReportsRealPaths(doc: Document)
    requires IsPlain(doc)
    ensures KeyPaths(doc) == RealPaths(doc)
  {
    assert doc == Document(doc.operations, doc.fragments);
    PlainPaths(doc.operations, doc.fragments);
  }

  /** And each of its operations asks for as many fields as are counted. */
  lemma PlainCount(doc: Document, op: Operation)
    requires IsPlain(doc) && op in doc.operations
    ensures |Requested(op.selections, ROOT, doc.fragments, {})| == Measure(FieldCount, op, doc.fragments)
  {
    RequestedUnaliased(op.selections, ROOT, doc.fragments, {});
    SpreadsOncePaths(op.selections, doc.fragments);
    OperationFits(op, doc.fragments);
  }

  // ---------- How deep a request really goes ----------

  lemma {:induction false} ShapeDeepest(a: seq<seq<string>>, b: seq<seq<string>>)
    requires SameShape(a, b)
    ensures Deepest(a) == Deepest(b)
  {
    if a != [] {
      assert forall i | 0 <= i < |a| - 1 :: a[1..][i] == a[i + 1] && b[1..][i] == b[i + 1];
      ShapeDeepest(a[1..], b[1..]);
    }
  }

  /** No skipped spread of any operation reaches deeper than the depth reported for it. */
  ghost predicate DepthsReported(doc: Document) {
    && Acyclic(doc.fragments)
    && forall op <- doc.operations ::
         LostDepth(Walk(op.selections, [], doc.fragments, {}).trace, doc.fragments) <=
         OperationTally(op.selections, doc.fragments).depth
  }

  /** The greatest depth that any operation really asks for. */
  lemma {:induction false} RealDepth(operations: seq<Operation>, fragments: seq<Fragment>)
    requires DepthsReported(Document(operations, fragments))
    ensures Deepest(PathsOf(RequestedBy(operations, fragments))) == Worst(Depth, operations, fragments)
  {
    if operations != [] {
      var init, last := operations[..|operations| - 1], operations[|operations| - 1];
      assert last in operations && forall op :: op in init ==> op in operations;
      RealDepth(init, fragments);
      var asked := Requested(last.selections, ROOT, fragments, {});
      RequestedShape(last.selections, ROOT, [], fragments, {});
      ShapeDeepest(PathsOf(asked), FieldPaths(Inline(last.selections, [], fragments, {})));
      DepthIsInlinedExactly(last.selections, fragments);
      PathsOfTwo(RequestedBy(init, fragments), asked);
      DeepestConcat(PathsOf(RequestedBy(init, fragments)), PathsOf(asked));
    }
  }

  /** The converse for one operation: a request that goes deeper than reported has a skipped spread that
      reaches deeper. */
  lemma OperationDepth(selections: seq<Selection>, fragments: seq<Fragment>)
    requires Acyclic(fragments)
    ensures var depth := OperationTally(selections, fragments).depth;
            Deepest(PathsOf(Requested(selections, ROOT, fragments, {}))) == depth <==>
            LostDepth(Walk(selections, [], fragments, {}).trace, fragments) <= depth
  {
    RequestedShape(selections, ROOT, [], fragments, {});
    ShapeDeepest(PathsOf(Requested(selections, ROOT, fragments, {})),
                 FieldPaths(Inline(selections, [], fragments, {})));
    DepthIsInlinedExactly(selections, fragments);
  }

  // ---------- Names and parents ----------

  /** Every real name is a GraphQL name. */
  predicate RealNamed(selections: seq<Selection>) {
    selections == [] ||
    (&& (selections[0].Field? ==> IsName(selections[0].name))
     && (!selections[0].FragmentSpread? ==> RealNamed(selections[0].selections))
     && RealNamed(selections[1..]))
  }

  predicate RealNamedDocument(doc: Document) {
    && (forall op <- doc.operations :: RealNamed(op.selections))
    && (forall f <- doc.fragments :: RealNamed(f.selections))
  }

  /** A place has a name since its type condition, which ends its path too; without one, the two are equal. */
  ghost predicate WellPlaced(q: Place) {
    q.path != [] && q.since != [] && AreNames(q.path) && AreNames(q.since) && (q.within.None? ==> q.since == q.path)
  }

  lemma {:induction false} RequestedWellPlaced(
    selections: seq<Selection>, at: Place, fragments: seq<Fragment>, open: set<string>)
    requires RealNamed(selections) && forall f <- fragments :: RealNamed(f.selections)
    requires AreNames(at.path) && AreNames(at.since) && (at.within.None? ==> at.since == at.path)
    ensures forall q <- Requested(selections, at, fragments, open) :: WellPlaced(q)
    decreases Defined(fragments) - open, |Own(selections)|
  {
    if selections != [] {
      var sel := selections[0];
      EnterDecreases(sel, [], fragments, open);
      var b := Enter(sel, [], fragments, open);
      if sel.FragmentSpread? {
        ForNameMember(fragments, sel.name);
      }
      RequestedWellPlaced(b.selections, Inside(sel, at, fragments), fragments, b.visited);
      RequestedWellPlaced(selections[1..], at, fragments, open);
    }
  }

  lemma {:induction false} RequestedByWellPlaced(operations: seq<Operation>, fragments: seq<Fragment>)
    requires RealNamedDocument(Document(operations, fragments))
    ensures forall q <- RequestedBy(operations, fragments) :: WellPlaced(q)
  {
    if operations != [] {
      var init, last := operations[..|operations| - 1], operations[|operations| - 1];
      assert last in operations && forall op :: op in init ==> op in operations;
      RequestedByWellPlaced(init, fragments);
      RequestedWellPlaced(last.selections, ROOT, fragments, {});
    }
  }

  /** The real paths are lists of names, none empty. */
  lemma RealPathsNamed(doc: Document)
    requires RealNamedDocument(doc)
    ensures PathsNamed(RealPaths(doc)) && forall path <- RealPaths(doc) :: path != []
  {
    var places := RequestedBy(doc.operations, doc.fragments);
    assert doc == Document(doc.operations, doc.fragments);
    RequestedByWellPlaced(doc.operations, doc.fragments);
    forall path | path in RealPaths(doc)
      ensures AreNames(path) && path != []
    {
      var i :| 0 <= i < |places| && RealPaths(doc)[i] == path;
      assert WellPlaced(places[i]);
    }
  }

  /** A place outside every type condition extends `base`, and its parent is among `places` unless that is `base`. */
  ghost predicate HasPlaceAbove(places: seq<Place>, base: Place, q: Place) {
    q.within.None? ==>
      && base.within.None? && |q.path| > |base.path| && base.path <= q.path
      && (|q.path| > |base.path| + 1 ==> IsOutside(places, q.path[..|q.path| - 1]))
  }

  /** The path is asked for outside every type condition. */
  ghost predicate IsOutside(places: seq<Place>, path: seq<string>) {
    exists q <- places :: q.within.None? && q.path == path
  }

  ghost predicate AllAbove(places: seq<Place>, base: Place) {
    forall i | 0 <= i < |places| :: HasPlaceAbove(places, base, places[i])
  }

  lemma MoreOutside(a: seq<Place>, b: seq<Place>, path: seq<string>)
    requires IsOutside(a, path) && forall q <- a :: q in b
    ensures IsOutside(b, path)
  {
    var q :| q in a && q.within.None? && q.path == path;
    assert q in b;
  }

  lemma AboveInMore(a: seq<Place>, b: seq<Place>, base: Place, q: Place)
    requires HasPlaceAbove(a, base, q) && forall p <- a :: p in b
    ensures HasPlaceAbove(b, base, q)
  {
    if q.within.None? && |q.path| > |base.path| + 1 {
      MoreOutside(a, b, q.path[..|q.path| - 1]);
    }
  }

  lemma AboveTogether(a: seq<Place>, b: seq<Place>, base: Place)
    requires AllAbove(a, base) && AllAbove(b, base)
    ensures AllAbove(a + b, base)
  {
    forall i | 0 <= i < |a + b|
      ensures HasPlaceAbove(a + b, base, (a + b)[i])
    {
      if i < |a| {
        AboveInMore(a, a + b, base, a[i]);
      } else {
        AboveInMore(b, a + b, base, b[i - |a|]);
      }
    }
  }

  lemma AboveInside(sel: Selection, at: Place, fragments: seq<Fragment>, inner: seq<Place>)
    requires AllAbove(inner, Inside(sel, at, fragments))
    ensures AllAbove(OwnPlace(sel, at, fragments) + inner, at)
  {
    var inside, own := Inside(sel, at, fragments), OwnPlace(sel, at, fragments);
    forall i | 0 <= i < |own + inner|
      ensures HasPlaceAbove(own + inner, at, (own + inner)[i])
    {
      if i >= |own| {
        var q := inner[i - |own|];
        assert HasPlaceAbove(inner, inside, q);
        AboveInMore(inner, own + inner, inside, q);
        if q.within.None? && sel.Field? && |q.path| == |at.path| + 2 {
          assert inside in own + inner && q.path[..|q.path| - 1] == inside.path;
        }
      }
    }
  }

  lemma {:induction false} RequestedAbove(
    selections: seq<Selection>, at: Place, fragments: seq<Fragment>, open: set<string>)
    ensures AllAbove(Requested(selections, at, fragments, open), at)
    decreases Defined(fragments) - open, |Own(selections)|
  {
    if selections != [] {
      var sel := selections[0];
      EnterDecreases(sel, [], fragments, open);
      var b, inside := Enter(sel, [], fragments, open), Inside(sel, at, fragments);
      var inner := Requested(b.selections, inside, fragments, b.visited);
      RequestedAbove(b.selections, inside, fragments, b.visited);
      RequestedAbove(selections[1..], at, fragments, open);
      AboveInside(sel, at, fragments, inner);
      AboveTogether(OwnPlace(sel, at, fragments) + inner, Requested(selections[1..], at, fragments, open), at);
    }
  }

  lemma {:induction false} RequestedByAbove(operations: seq<Operation>, fragments: seq<Fragment>)
    ensures AllAbove(RequestedBy(operations, fragments), ROOT)
  {
    if operations != [] {
      var init, last := operations[..|operations| - 1], operations[|operations| - 1];
      RequestedByAbove(init, fragments);
      RequestedAbove(last.selections, ROOT, fragments, {});
      AboveTogether(RequestedBy(init, fragments), Requested(last.selections, ROOT, fragments, {}), ROOT);
    }
  }

  // ---------- Documents that ask for other paths than they report ----------

  function Leaf(name: string): Selection {
    Field(name, "", 0, [], [])
  }

  /** An anonymous query without arguments or directives. */
  function QueryOf(selections: seq<Selection>, fragments: seq<Fragment>): Document {
    Document([Operation("", Query, 0, [], selections)], fragments)
  }

  lemma QueryPaths(selections: seq<Selection>, fragments: seq<Fragment>)
    ensures var doc := QueryOf(selections, fragments);
            && KeyPaths(doc) == FieldPaths(Walk(selections, [], fragments, {}).trace)
            && RealPaths(doc) == PathsOf(Requested(selections, ROOT, fragments, {}))
  {
    var op := QueryOf(selections, fragments).operations[0];
    assert [op][..0] == [];
    assert AllPaths([], fragments) + FieldPaths(Walk(selections, [], fragments, {}).trace) ==
           FieldPaths(Walk(selections, [], fragments, {}).trace);
    assert RequestedBy([], fragments) + Requested(selections, ROOT, fragments, {}) ==
           Requested(selections, ROOT, fragments, {});
  }

  /** `{ alias: name }` */
  function AliasedQuery(alias: string, name: string): Document {
    QueryOf([Field(name, alias, 0, [], [])], [])
  }

  lemma AliasedPaths(alias: string, name: string)
    requires alias != ""
    ensures KeyPaths(AliasedQuery(alias, name)) == [[alias]] && RealPaths(AliasedQuery(alias, name)) == [[name]]
  {
    var field := Field(name, alias, 0, [], []);
    QueryPaths([field], []);
    WalkPaths([field], [], [], {});
    RequestedPaths([field], ROOT, [], {});
    assert [field][1..] == [] && [] + [alias] == [alias] && [] + [name] == [name];
    assert PathsOf(Requested([], ROOT, [], {})) == [];
  }

  /** `{ x { ...F } ...F } fragment F on T { y }` */
  function TwiceSpread(x: string, y: string, fragment: string, typeCondition: string): Document {
    var spread := FragmentSpread(fragment, 0);
    QueryOf([Field(x, "", 0, [], [spread]), spread], [Fragment(fragment, typeCondition, 0, [Leaf(y)])])
  }

  lemma LeafWalk(y: string, names: seq<string>, fragments: seq<Fragment>, visited: set<string>)
    ensures var r := Walk([Leaf(y)], names, fragments, visited);
            r.visited == visited && FieldPaths(r.trace) == [names + [y]]
  {
    WalkPaths([Leaf(y)], names, fragments, visited);
  }

  lemma SpreadWalk(f: Fragment, y: string, names: seq<string>, visited: set<string>)
    requires f.selections == [Leaf(y)]
    ensures var r := Walk([FragmentSpread(f.name, 0)], names, [f], visited);
            && r.visited == visited + {f.name}
            && FieldPaths(r.trace) == if f.name in visited then [] else [names + [y]]
  {
    assert ForName([f], f.name) == Some(f);
    WalkPaths([FragmentSpread(f.name, 0)], names, [f], visited);
    LeafWalk(y, names, [f], visited + {f.name});
  }

  lemma TwiceSpreadKeys(x: string, y: string, fragment: string, typeCondition: string)
    ensures KeyPaths(TwiceSpread(x, y, fragment, typeCondition)) == [[x], [x, y]]
  {
    var f, spread := Fragment(fragment, typeCondition, 0, [Leaf(y)]), FragmentSpread(fragment, 0);
    var nest := Field(x, "", 0, [], [spread]);
    QueryPaths([nest, spread], [f]);
    assert [] + [x] == [x] && [x] + [y] == [x, y] && [nest, spread][1..] == [spread];
    SpreadWalk(f, y, [x], {});
    SpreadWalk(f, y, [], {} + {fragment});
    WalkPaths([nest, spread], [], [f], {});
  }

  /** The leaf is asked for at the top as well. */
  lemma TwiceSpreadReal(x: string, y: string, fragment: string, typeCondition: string)
    ensures [y] in RealPaths(TwiceSpread(x, y, fragment, typeCondition))
  {
    var f, spread := Fragment(fragment, typeCondition, 0, [Leaf(y)]), FragmentSpread(fragment, 0);
    var nest := Field(x, "", 0, [], [spread]);
    QueryPaths([nest, spread], [f]);
    RequestedPaths([nest, spread], ROOT, [f], {});
    assert [nest, spread][1..] == [spread] && ForName([f], fragment) == Some(f);
    RequestedPaths([spread], ROOT, [f], {});
    var inside := Inside(spread, ROOT, [f]);
    RequestedPaths([Leaf(y)], inside, [f], {} + {fragment});
    assert inside.path == [] && [] + [y] == [y];
    assert PathsOf(OwnPlace(Leaf(y), inside, [f])) == [[y]];
  }

  /** `{ x { ... on T { y } } }` */
  function TypedQuery(x: string, y: string, typeCondition: string): Document {
    QueryOf([Field(x, "", 0, [], [InlineFragment(typeCondition, 0, [Leaf(y)])])], [])
  }

  lemma TypedKeys(x: string, y: string, typeCondition: string)
    ensures KeyPaths(TypedQuery(x, y, typeCondition)) == [[x], [x, y]]
  {
    var inline := InlineFragment(typeCondition, 0, [Leaf(y)]);
    var nest := Field(x, "", 0, [], [inline]);
    QueryPaths([nest], []);
    assert [] + [x] == [x] && [x] + [y] == [x, y];
    WalkPaths([nest], [], [], {});
    WalkPaths([inline], [x], [], {});
    LeafWalk(y, [x], [], {});
  }
}
