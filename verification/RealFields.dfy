/** What schema validation is meant to check, the fields a request really asks for, against what it checks. */
module RealFields {
  import opened Ast
  import opened Text
  import opened Traversal
  import opened Analyzer
  import opened Requests
  import opened Schema

  // ---------- The intended check ----------

  /** A type condition moves to the type it names. */
  function Cast(schema: SchemaInfo, position: Position, typeCondition: string): Position {
    if typeCondition == "" then position
    else if typeCondition in schema.types then At(schema.types[typeCondition])
    else Stuck(TypeNotFound(typeCondition))
  }

  function Advance(schema: SchemaInfo, sel: Selection, position: Position, fragments: seq<Fragment>): Position {
    match sel
    case Field(name, _, _, _, _) => Descend(schema, position, name)
    case InlineFragment(typeCondition, _, _) => Cast(schema, position, typeCondition)
    case FragmentSpread(name, _) =>
      match ForName(fragments, name)
      case None => position
      case Some(f) => Cast(schema, position, f.typeCondition)
  }

  /** Every field, by its real name and in every place where it is spread, exists on the type around it. */
  ghost predicate FieldsExist(
    schema: SchemaInfo, selections: seq<Selection>, position: Position, fragments: seq<Fragment>, open: set<string>)
    decreases Defined(fragments) - open, |Own(selections)|
  {
    selections == [] ||
    (EnterDecreases(selections[0], [], fragments, open);
     var sel := selections[0];
     var b := Enter(sel, [], fragments, open);
     && (sel.Field? ==> NameVerdict(position, sel.name).Accepted?)
     && FieldsExist(schema, b.selections, Advance(schema, sel, position, fragments), fragments, b.visited)
     && FieldsExist(schema, selections[1..], position, fragments, open))
  }

  /** Each operation against the root of its own type. A missing root type accepts, as in the code. */
  ghost predicate Intended(schema: SchemaInfo, doc: Document) {
    forall op <- doc.operations :: IntendedFor(schema, op, doc.fragments)
  }

  ghost predicate IntendedFor(schema: SchemaInfo, op: Operation, fragments: seq<Fragment>) {
    var root := RootType(schema, TypeName(op.kind));
    root.Some? ==> FieldsExist(schema, op.selections, At(root.value), fragments, {})
  }

  /** What the code makes of the summary of a document. */
  ghost predicate Validated(schema: SchemaInfo, doc: Document, hash: string)
    requires doc.operations != []
  {
    var s := Summarize(doc, hash);
    Expected(schema, s.operationType, SplitAll(s.fieldPaths)).Accepted?
  }

  // ---------- In terms of places ----------

  /** Where the names since the last type condition start. */
  function Anchor(schema: SchemaInfo, root: Definition, at: Place): Position {
    match at.within
    case None => At(root)
    case Some(typeCondition) => Cast(schema, At(root), typeCondition)
  }

  predicate Resolves(schema: SchemaInfo, root: Definition, q: Place) {
    PathVerdict(schema, Anchor(schema, root, q), q.since).Accepted?
  }

  function PositionOf(schema: SchemaInfo, root: Definition, at: Place): Position {
    DescendAll(schema, Anchor(schema, root, at), at.since)
  }

  /** Type conditions around a place are names. */
  predicate ConditionNamed(at: Place) {
    at.within.Some? ==> at.within.value != ""
  }

  lemma AdvanceInside(
    schema: SchemaInfo, root: Definition, sel: Selection, at: Place, fragments: seq<Fragment>)
    requires Resolves(schema, root, at) && ConditionNamed(at)
    ensures var inside := Inside(sel, at, fragments);
            && ConditionNamed(inside)
            && PositionOf(schema, root, inside) == Advance(schema, sel, PositionOf(schema, root, at), fragments)
            && (Resolves(schema, root, inside) <==>
                (sel.Field? ==> NameVerdict(PositionOf(schema, root, at), sel.name).Accepted?))
  {
    if sel.Field? {
      PathVerdictExtends(schema, Anchor(schema, root, at), at.since, sel.name);
    }
  }

  ghost predicate AllResolve(schema: SchemaInfo, root: Definition, places: seq<Place>) {
    forall q <- places :: Resolves(schema, root, q)
  }

  /** All fields exist exactly when every place that is asked for resolves. */
  lemma {:induction false} ExistMeansResolve(
    schema: SchemaInfo, root: Definition, selections: seq<Selection>, at: Place, fragments: seq<Fragment>,
    open: set<string>)
    requires Resolves(schema, root, at) && ConditionNamed(at)
    ensures FieldsExist(schema, selections, PositionOf(schema, root, at), fragments, open) <==>
            AllResolve(schema, root, Requested(selections, at, fragments, open))
    decreases Defined(fragments) - open, |Own(selections)|
  {
    if selections != [] {
      var sel := selections[0];
      EnterDecreases(sel, [], fragments, open);
      var b, inside := Enter(sel, [], fragments, open), Inside(sel, at, fragments);
      AdvanceInside(schema, root, sel, at, fragments);
      ExistMeansResolve(schema, root, selections[1..], at, fragments, open);
      if Resolves(schema, root, inside) {
        ExistMeansResolve(schema, root, b.selections, inside, fragments, b.visited);
      }
    }
  }

  function OfType(operations: seq<Operation>, operationType: string): seq<Operation> {
    if operations == [] then [] else
    OfType(operations[..|operations| - 1], operationType)
    + (if TypeName(operations[|operations| - 1].kind) == operationType then [operations[|operations| - 1]] else [])
  }

  const TYPES := {"query", "mutation", "subscription"}

  /** What the operations of one type ask for. */
  ghost function RequestedOf(doc: Document, operationType: string): seq<Place> {
    RequestedBy(OfType(doc.operations, operationType), doc.fragments)
  }

  ghost predicate IntendedOf(schema: SchemaInfo, operationType: string, doc: Document) {
    var root := RootType(schema, operationType);
    root.Some? ==> AllResolve(schema, root.value, RequestedOf(doc, operationType))
  }

  lemma {:induction false} OfTypeIn(operations: seq<Operation>, operationType: string)
    ensures forall op <- OfType(operations, operationType) :: op in operations && TypeName(op.kind) == operationType
    ensures forall op <- operations :: TypeName(op.kind) == operationType ==> op in OfType(operations, operationType)
  {
    if operations != [] {
      OfTypeIn(operations[..|operations| - 1], operationType);
    }
  }

  lemma {:induction false} ResolveByOperation(
    schema: SchemaInfo, root: Definition, operations: seq<Operation>, fragments: seq<Fragment>)
    ensures AllResolve(schema, root, RequestedBy(operations, fragments)) <==>
            forall op <- operations :: AllResolve(schema, root, Requested(op.selections, ROOT, fragments, {}))
  {
    if operations != [] {
      var init, last := operations[..|operations| - 1], operations[|operations| - 1];
      ResolveByOperation(schema, root, init, fragments);
      assert forall op :: op in operations <==> op in init || op == last;
    }
  }

  lemma OperationMeans(schema: SchemaInfo, root: Definition, op: Operation, fragments: seq<Fragment>)
    ensures FieldsExist(schema, op.selections, At(root), fragments, {}) <==>
            AllResolve(schema, root, Requested(op.selections, ROOT, fragments, {}))
  {
    ExistMeansResolve(schema, root, op.selections, ROOT, fragments, {});
  }

  lemma OfTypeMeans(schema: SchemaInfo, operationType: string, doc: Document)
    ensures IntendedOf(schema, operationType, doc) <==>
            forall op <- doc.operations :: TypeName(op.kind) == operationType ==> IntendedFor(schema, op, doc.fragments)
  {
    var root, operations := RootType(schema, operationType), OfType(doc.operations, operationType);
    OfTypeIn(doc.operations, operationType);
    if root.Some? {
      ResolveByOperation(schema, root.value, operations, doc.fragments);
      forall op | op in operations
        ensures IntendedFor(schema, op, doc.fragments) <==>
                AllResolve(schema, root.value, Requested(op.selections, ROOT, doc.fragments, {}))
      {
        OperationMeans(schema, root.value, op, doc.fragments);
      }
    }
  }

  lemma IntendedMeans(schema: SchemaInfo, doc: Document)
    ensures Intended(schema, doc) <==> forall operationType <- TYPES :: IntendedOf(schema, operationType, doc)
  {
    forall operationType {
      OfTypeMeans(schema, operationType, doc);
    }
    forall op | op in doc.operations
      ensures TypeName(op.kind) in TYPES
    {
    }
  }

  // ---------- What the code checks ----------

  ghost predicate PathsResolve(schema: SchemaInfo, root: Definition, paths: seq<seq<string>>) {
    forall path <- paths :: PathVerdict(schema, At(root), path).Accepted?
  }

  lemma {:induction false} NoFailureMeansResolve(schema: SchemaInfo, root: Definition, paths: seq<seq<string>>)
    ensures FirstFailure(schema, At(root), paths).Accepted? <==> PathsResolve(schema, root, paths)
  {
    if paths != [] {
      NoFailureMeansResolve(schema, root, paths[1..]);
      assert forall path :: path in paths <==> path == paths[0] || path in paths[1..];
    }
  }

  lemma ValidatedMeans(schema: SchemaInfo, doc: Document, hash: string)
    requires doc.operations != [] && WellNamed(doc)
    ensures Validated(schema, doc, hash) <==>
            var root := RootType(schema, TypeName(doc.operations[0].kind));
            root.Some? ==> PathsResolve(schema, root.value, KeyPaths(doc))
  {
    ValidationIsStructural(schema, doc, hash);
    var root := RootType(schema, TypeName(doc.operations[0].kind));
    if root.Some? {
      AllPathsStructural(schema, At(root.value), doc.operations, doc.fragments);
      NoFailureMeansResolve(schema, root.value, KeyPaths(doc));
    }
  }

  /** The root type that a kind of operation starts from. */
  ghost function RootFor(schema: SchemaInfo, kind: OperationKind): Option<Definition> {
    if kind == Mutation then schema.mutation else if kind == Subscription then schema.subscription else schema.query
  }

  /** Validation follows every reported path from the root type of the first operation's kind, and passes when the
      schema has none. Each operation should be checked from the root type of its own kind. */
  lemma RootsExactly(schema: SchemaInfo, doc: Document, hash: string)
    requires doc.operations != [] && WellNamed(doc)
    ensures Validated(schema, doc, hash) <==>
            var root := RootFor(schema, doc.operations[0].kind);
            root.Some? ==> PathsResolve(schema, root.value, KeyPaths(doc))
    ensures Intended(schema, doc) <==>
            forall op <- doc.operations :: RootFor(schema, op.kind).Some? ==>
              AllResolve(schema, RootFor(schema, op.kind).value, Requested(op.selections, ROOT, doc.fragments, {}))
  {
    ValidatedMeans(schema, doc, hash);
    RootOfKind(schema, doc.operations[0].kind);
    forall op | op in doc.operations
      ensures IntendedFor(schema, op, doc.fragments) <==>
              (RootFor(schema, op.kind).Some? ==>
                 AllResolve(schema, RootFor(schema, op.kind).value, Requested(op.selections, ROOT, doc.fragments, {})))
    {
      RootOfKind(schema, op.kind);
      if RootFor(schema, op.kind).Some? {
        OperationMeans(schema, RootFor(schema, op.kind).value, op, doc.fragments);
      }
    }
  }

  // ---------- A schema that has exactly the given paths ----------

  /** A type name for each path, longer than `prefix`. */
  function Label(prefix: string, q: seq<string>): string {
    prefix + "." + Render(q)
  }

  lemma LabelInjective(prefix: string, a: seq<string>, b: seq<string>)
    requires a != [] && b != [] && AreNames(a) && AreNames(b) && Label(prefix, a) == Label(prefix, b)
    ensures a == b
  {
    var n := |prefix| + 1;
    assert Label(prefix, a)[n..] == Render(a) && Label(prefix, b)[n..] == Render(b);
    RenderInjective(a, b);
  }

  /** One field for each path that is one name longer than `q`; its type is labelled by the path. */
  function FieldsBelow(prefix: string, paths: seq<seq<string>>, q: seq<string>): seq<FieldDef> {
    if paths == [] then [] else
    (if |paths[0]| == |q| + 1 && q <= paths[0]
     then [FieldDef(paths[0][|q|], Some(TypeRef(Label(prefix, paths[0]), None)))] else [])
    + FieldsBelow(prefix, paths[1..], q)
  }

  function TypeAt(prefix: string, paths: seq<seq<string>>, q: seq<string>): Definition {
    Definition(Label(prefix, q), FieldsBelow(prefix, paths, q))
  }

  function TypesFor(prefix: string, some: seq<seq<string>>, paths: seq<seq<string>>): map<string, Definition> {
    if some == [] then map[]
    else TypesFor(prefix, some[1..], paths)[Label(prefix, some[0]) := TypeAt(prefix, paths, some[0])]
  }

  function WithRoot(operationType: string, root: Definition, types: map<string, Definition>): SchemaInfo {
    SchemaInfo(
      if operationType == "query" then Some(root) else None,
      if operationType == "mutation" then Some(root) else None,
      if operationType == "subscription" then Some(root) else None,
      types)
  }

  function TreeSchema(operationType: string, prefix: string, paths: seq<seq<string>>): SchemaInfo {
    WithRoot(operationType, TypeAt(prefix, paths, []), TypesFor(prefix, paths, paths))
  }

  lemma RootOnlyFor(operationType: string, root: Definition, types: map<string, Definition>, other: string)
    requires operationType in TYPES && other in TYPES
    ensures RootType(WithRoot(operationType, root, types), other) == if other == operationType then Some(root) else None
  {
  }

  lemma {:induction false} TypeFound(prefix: string, some: seq<seq<string>>, paths: seq<seq<string>>, q: seq<string>)
    requires q in some && PathsNamed(some) && forall path <- some :: path != []
    ensures var types := TypesFor(prefix, some, paths);
            Label(prefix, q) in types && types[Label(prefix, q)] == TypeAt(prefix, paths, q)
  {
    if some[0] != q {
      assert some[0] in some && AreNames(some[0]) && AreNames(q);
      if Label(prefix, some[0]) == Label(prefix, q) {
        LabelInjective(prefix, some[0], q);
      }
      assert forall path :: path in some[1..] ==> path in some;
      TypeFound(prefix, some[1..], paths, q);
    }
  }

  lemma {:induction false} PrefixNoType(prefix: string, some: seq<seq<string>>, paths: seq<seq<string>>)
    ensures prefix !in TypesFor(prefix, some, paths)
  {
    if some != [] {
      PrefixNoType(prefix, some[1..], paths);
      assert |Label(prefix, some[0])| > |prefix|;
    }
  }

  lemma {:induction false} FieldFound(prefix: string, paths: seq<seq<string>>, q: seq<string>, name: string)
    ensures var field := FieldForName(FieldsBelow(prefix, paths, q), name);
            && (field.Some? <==> q + [name] in paths)
            && (field.Some? ==> field.value.fieldType == Some(TypeRef(Label(prefix, q + [name]), None)))
  {
    if paths != [] {
      FieldFound(prefix, paths[1..], q, name);
      assert forall path :: path in paths <==> path == paths[0] || path in paths[1..];
      if |paths[0]| == |q| + 1 && q <= paths[0] {
        assert paths[0] == q + [paths[0][|q|]];
        assert FieldsBelow(prefix, paths, q)[1..] == FieldsBelow(prefix, paths[1..], q);
        assert q + [name] == paths[0] <==> name == paths[0][|q|] by {
          assert (q + [name])[|q|] == name;
        }
      } else {
        assert q + [name] != paths[0];
        assert FieldsBelow(prefix, paths, q) == FieldsBelow(prefix, paths[1..], q);
      }
    }
  }

  ghost predicate PrefixClosed(paths: seq<seq<string>>) {
    forall path, n: nat | path in paths && 1 <= n <= |path| :: path[..n] in paths
  }

  /** The paths of a tree of names. */
  ghost predicate IsTree(paths: seq<seq<string>>) {
    PathsNamed(paths) && PrefixClosed(paths) && forall path <- paths :: path != []
  }

  lemma ParentsFirstIsTree(paths: seq<seq<string>>)
    requires ParentsFirst(paths, []) && PathsNamed(paths)
    ensures IsTree(paths)
  {
    forall path, n: nat | path in paths && 1 <= n <= |path|
      ensures path[..n] in paths
    {
      var i :| 0 <= i < |paths| && paths[i] == path;
      PrefixListedToo(paths, i, n);
    }
    forall path | path in paths
      ensures path != []
    {
      var i :| 0 <= i < |paths| && paths[i] == path;
      assert HasParent(paths, [], i);
    }
  }

  /** One step down the tree. */
  lemma TreeStep(
    operationType: string, prefix: string, paths: seq<seq<string>>, q: seq<string>, name: string)
    requires IsTree(paths)
    ensures var schema, position := TreeSchema(operationType, prefix, paths), At(TypeAt(prefix, paths, q));
            && (NameVerdict(position, name).Accepted? <==> q + [name] in paths)
            && (q + [name] in paths ==> Descend(schema, position, name) == At(TypeAt(prefix, paths, q + [name])))
  {
    FieldFound(prefix, paths, q, name);
    if q + [name] in paths {
      TypeFound(prefix, paths, paths, q + [name]);
    }
  }

  lemma {:induction false} TreeResolves(
    operationType: string, prefix: string, paths: seq<seq<string>>, q: seq<string>, names: seq<string>)
    requires IsTree(paths) && names != []
    ensures PathVerdict(TreeSchema(operationType, prefix, paths), At(TypeAt(prefix, paths, q)), names).Accepted? <==>
            q + names in paths
    decreases |names|
  {
    var below := q + [names[0]];
    TreeStep(operationType, prefix, paths, q, names[0]);
    assert below + names[1..] == q + names && (q + names)[..|below|] == below;
    if below in paths {
      if names[1..] == [] {
        assert q + names == below;
      } else {
        TreeResolves(operationType, prefix, paths, below, names[1..]);
      }
    }
  }

  /** The tree schema accepts exactly its own paths. */
  lemma TreeAccepts(
    operationType: string, prefix: string, paths: seq<seq<string>>, others: seq<seq<string>>)
    requires IsTree(paths) && forall path <- others :: path != []
    ensures PathsResolve(TreeSchema(operationType, prefix, paths), TypeAt(prefix, paths, []), others) <==>
            forall path <- others :: path in paths
  {
    forall path | path in others
      ensures PathVerdict(TreeSchema(operationType, prefix, paths), At(TypeAt(prefix, paths, [])), path).Accepted?
              <==> path in paths
    {
      TreeResolves(operationType, prefix, paths, [], path);
      assert [] + path == path;
    }
  }

  /** A place on the tree: outside type conditions it resolves when its path is there, and inside a condition
      whose type is missing it does not resolve. */
  lemma PlaceOnTree(operationType: string, prefix: string, paths: seq<seq<string>>, q: Place)
    requires IsTree(paths) && WellPlaced(q) && ConditionNamed(q)
    ensures var schema, root := TreeSchema(operationType, prefix, paths), TypeAt(prefix, paths, []);
            && (q.within.None? ==> (Resolves(schema, root, q) <==> q.path in paths))
            && (q.within == Some(prefix) ==> !Resolves(schema, root, q))
  {
    TreeResolves(operationType, prefix, paths, [], q.since);
    assert [] + q.since == q.since;
    PrefixNoType(prefix, paths, paths);
  }

  // ---------- When the code judges the real fields ----------

  /** Under every schema the code accepts a document exactly when it should. */
  ghost predicate JudgesRealFields(doc: Document, hash: string)
    requires doc.operations != []
  {
    forall schema :: Validated(schema, doc, hash) <==> Intended(schema, doc)
  }

  ghost predicate AsksNothing(doc: Document, operationType: string) {
    RequestedOf(doc, operationType) == []
  }

  /** The operations of the first one's type ask for exactly the reported paths, none of them beneath a type
      condition, and operations of other types ask for no field. */
  ghost predicate KeysAreNames(doc: Document)
    requires doc.operations != []
  {
    var first := TypeName(doc.operations[0].kind);
    && SamePaths(KeyPaths(doc), PathsOf(RequestedOf(doc, first)))
    && (forall q <- RequestedOf(doc, first) :: q.within.None?)
    && forall operationType <- TYPES :: operationType != first ==> AsksNothing(doc, operationType)
  }

  lemma {:induction false} RequestedConditions(
    selections: seq<Selection>, at: Place, fragments: seq<Fragment>, open: set<string>)
    requires ConditionNamed(at)
    ensures forall q <- Requested(selections, at, fragments, open) :: ConditionNamed(q)
    decreases Defined(fragments) - open, |Own(selections)|
  {
    if selections != [] {
      var sel := selections[0];
      EnterDecreases(sel, [], fragments, open);
      var b := Enter(sel, [], fragments, open);
      RequestedConditions(b.selections, Inside(sel, at, fragments), fragments, b.visited);
      RequestedConditions(selections[1..], at, fragments, open);
    }
  }

  lemma {:induction false} RequestedByConditions(operations: seq<Operation>, fragments: seq<Fragment>)
    ensures forall q <- RequestedBy(operations, fragments) :: ConditionNamed(q)
  {
    if operations != [] {
      RequestedByConditions(operations[..|operations| - 1], fragments);
      RequestedConditions(operations[|operations| - 1].selections, ROOT, fragments, {});
    }
  }

  lemma RequestedOfFits(doc: Document, operationType: string)
    requires RealNamedDocument(doc)
    ensures forall q <- RequestedOf(doc, operationType) :: WellPlaced(q) && ConditionNamed(q)
  {
    OfTypeIn(doc.operations, operationType);
    RequestedByWellPlaced(OfType(doc.operations, operationType), doc.fragments);
    RequestedByConditions(OfType(doc.operations, operationType), doc.fragments);
  }

  lemma KeyPathsTree(doc: Document)
    requires WellNamed(doc)
    ensures IsTree(KeyPaths(doc))
  {
    assert doc == Document(doc.operations, doc.fragments);
    AllPathsNamed(doc.operations, doc.fragments);
    AllPathsParentsFirst(doc.operations, doc.fragments);
    ParentsFirstIsTree(KeyPaths(doc));
  }

  lemma PathAt(places: seq<Place>, q: Place)
    requires q in places
    ensures q.path in PathsOf(places)
  {
    var i :| 0 <= i < |places| && places[i] == q;
    assert PathsOf(places)[i] == q.path;
  }

  lemma PlaceOf(places: seq<Place>, path: seq<string>) returns (q: Place)
    requires path in PathsOf(places)
    ensures q in places && q.path == path
  {
    var i :| 0 <= i < |places| && PathsOf(places)[i] == path;
    q := places[i];
  }

  lemma {:induction false} PathsAbove(places: seq<Place>, path: seq<string>, n: nat)
    requires AllAbove(places, ROOT) && IsOutside(places, path) && 1 <= n <= |path|
    ensures path[..n] in PathsOf(places)
    decreases |path|
  {
    var q :| q in places && q.within.None? && q.path == path;
    if n == |path| {
      PathAt(places, q);
      assert path[..n] == path;
    } else {
      var i :| 0 <= i < |places| && places[i] == q;
      assert HasPlaceAbove(places, ROOT, places[i]);
      var parent := path[..|path| - 1];
      PathsAbove(places, parent, n);
      assert parent[..n] == path[..n];
    }
  }

  /** The paths asked for outside type conditions form a tree. */
  lemma RequestedTree(doc: Document, operationType: string)
    requires RealNamedDocument(doc) && forall q <- RequestedOf(doc, operationType) :: q.within.None?
    ensures IsTree(PathsOf(RequestedOf(doc, operationType)))
  {
    var places := RequestedOf(doc, operationType);
    RequestedOfFits(doc, operationType);
    RequestedByAbove(OfType(doc.operations, operationType), doc.fragments);
    forall path | path in PathsOf(places)
      ensures AreNames(path) && path != [] && IsOutside(places, path)
    {
      var q := PlaceOf(places, path);
      assert WellPlaced(q);
    }
    forall path, n: nat | path in PathsOf(places) && 1 <= n <= |path|
      ensures path[..n] in PathsOf(places)
    {
      PathsAbove(places, path, n);
    }
  }

  /** The two checks on the tree schema of one operation type. */
  lemma OnTree(doc: Document, hash: string, operationType: string, prefix: string, paths: seq<seq<string>>)
    requires doc.operations != [] && WellNamed(doc) && IsTree(paths) && operationType in TYPES
    ensures var schema := TreeSchema(operationType, prefix, paths);
            && (Validated(schema, doc, hash) <==>
                (TypeName(doc.operations[0].kind) == operationType ==> forall path <- KeyPaths(doc) :: path in paths))
            && (Intended(schema, doc) <==>
                AllResolve(schema, TypeAt(prefix, paths, []), RequestedOf(doc, operationType)))
  {
    var schema, root := TreeSchema(operationType, prefix, paths), TypeAt(prefix, paths, []);
    ValidatedMeans(schema, doc, hash);
    IntendedMeans(schema, doc);
    forall other | other in TYPES
      ensures RootType(schema, other) == if other == operationType then Some(root) else None
    {
      RootOnlyFor(operationType, root, TypesFor(prefix, paths, paths), other);
    }
    assert forall other <- TYPES :: other != operationType ==> IntendedOf(schema, other, doc);
    KeyPathsTree(doc);
    TreeAccepts(operationType, prefix, paths, KeyPaths(doc));
  }

  function ConditionOf(q: Place): string {
    if q.within.Some? then q.within.value else ""
  }

  /** Operations of other types than the first ask for nothing. */
  lemma OthersAskNothing(doc: Document, hash: string, operationType: string)
    requires doc.operations != [] && WellNamed(doc) && RealNamedDocument(doc) && JudgesRealFields(doc, hash)
    requires operationType in TYPES && operationType != TypeName(doc.operations[0].kind)
    ensures AsksNothing(doc, operationType)
  {
    if !AsksNothing(doc, operationType) {
      var q := RequestedOf(doc, operationType)[0];
      OnTree(doc, hash, operationType, ConditionOf(q), []);
      RequestedOfFits(doc, operationType);
      PlaceOnTree(operationType, ConditionOf(q), [], q);
    }
  }

  /** What the first type asks for is reported, and outside type conditions. */
  lemma RequestedAreReported(doc: Document, hash: string, q: Place)
    requires doc.operations != [] && WellNamed(doc) && RealNamedDocument(doc) && JudgesRealFields(doc, hash)
    requires q in RequestedOf(doc, TypeName(doc.operations[0].kind))
    ensures q.within.None? && q.path in KeyPaths(doc)
  {
    var first := TypeName(doc.operations[0].kind);
    KeyPathsTree(doc);
    OnTree(doc, hash, first, ConditionOf(q), KeyPaths(doc));
    RequestedOfFits(doc, first);
    PlaceOnTree(first, ConditionOf(q), KeyPaths(doc), q);
    assert Validated(TreeSchema(first, ConditionOf(q), KeyPaths(doc)), doc, hash);
    assert Intended(TreeSchema(first, ConditionOf(q), KeyPaths(doc)), doc);
  }

  /** What is reported is asked for. */
  lemma ReportedAreRequested(doc: Document, hash: string)
    requires doc.operations != [] && WellNamed(doc) && RealNamedDocument(doc) && JudgesRealFields(doc, hash)
    requires forall q <- RequestedOf(doc, TypeName(doc.operations[0].kind)) :: q.within.None?
    ensures forall path <- KeyPaths(doc) :: path in PathsOf(RequestedOf(doc, TypeName(doc.operations[0].kind)))
  {
    var first := TypeName(doc.operations[0].kind);
    var places := RequestedOf(doc, first);
    RequestedTree(doc, first);
    RequestedOfFits(doc, first);
    OnTree(doc, hash, first, "", PathsOf(places));
    forall q | q in places
      ensures Resolves(TreeSchema(first, "", PathsOf(places)), TypeAt("", PathsOf(places), []), q)
    {
      PathAt(places, q);
      PlaceOnTree(first, "", PathsOf(places), q);
    }
    assert Intended(TreeSchema(first, "", PathsOf(places)), doc);
    assert Validated(TreeSchema(first, "", PathsOf(places)), doc, hash);
  }

  lemma JudgedMeansKeysAreNames(doc: Document, hash: string)
    requires doc.operations != [] && WellNamed(doc) && RealNamedDocument(doc) && JudgesRealFields(doc, hash)
    ensures KeysAreNames(doc)
  {
    var first := TypeName(doc.operations[0].kind);
    forall q | q in RequestedOf(doc, first)
      ensures q.within.None? && q.path in KeyPaths(doc)
    {
      RequestedAreReported(doc, hash, q);
    }
    ReportedAreRequested(doc, hash);
    forall path | path in PathsOf(RequestedOf(doc, first))
      ensures path in KeyPaths(doc)
    {
      var q := PlaceOf(RequestedOf(doc, first), path);
    }
    forall operationType | operationType in TYPES && operationType != first
      ensures AsksNothing(doc, operationType)
    {
      OthersAskNothing(doc, hash, operationType);
    }
  }

  lemma KeysAreNamesJudged(doc: Document, hash: string, schema: SchemaInfo)
    requires doc.operations != [] && WellNamed(doc) && RealNamedDocument(doc) && KeysAreNames(doc)
    ensures Validated(schema, doc, hash) <==> Intended(schema, doc)
  {
    var first := TypeName(doc.operations[0].kind);
    ValidatedMeans(schema, doc, hash);
    IntendedMeans(schema, doc);
    assert first in TYPES;
    assert forall operationType <- TYPES :: operationType != first ==> IntendedOf(schema, operationType, doc) by {
      forall operationType | operationType in TYPES && operationType != first
        ensures IntendedOf(schema, operationType, doc)
      {
        assert AsksNothing(doc, operationType);
      }
    }
    var root := RootType(schema, first);
    if root.Some? {
      RequestedOfFits(doc, first);
      SamePathsResolve(schema, root.value, RequestedOf(doc, first), KeyPaths(doc));
    }
  }

  lemma SamePathsResolve(schema: SchemaInfo, root: Definition, places: seq<Place>, paths: seq<seq<string>>)
    requires SamePaths(paths, PathsOf(places)) && forall q <- places :: q.within.None? && WellPlaced(q)
    ensures AllResolve(schema, root, places) <==> PathsResolve(schema, root, paths)
  {
    if AllResolve(schema, root, places) {
      forall path | path in paths
        ensures PathVerdict(schema, At(root), path).Accepted?
      {
        var q := PlaceOf(places, path);
        assert Resolves(schema, root, q);
      }
    }
    if PathsResolve(schema, root, paths) {
      forall q | q in places
        ensures Resolves(schema, root, q)
      {
        PathAt(places, q);
      }
    }
  }

  /** Validation judges the fields a document really asks for, under every schema, exactly when the reported
      paths are the ones asked for, outside every type condition, by operations of the first one's type. */
  lemma JudgesRealFieldsExactly(doc: Document, hash: string)
    requires doc.operations != [] && WellNamed(doc) && RealNamedDocument(doc)
    ensures JudgesRealFields(doc, hash) <==> KeysAreNames(doc)
  {
    if KeysAreNames(doc) {
      forall schema
        ensures Validated(schema, doc, hash) <==> Intended(schema, doc)
      {
        KeysAreNamesJudged(doc, hash, schema);
      }
    } else if JudgesRealFields(doc, hash) {
      JudgedMeansKeysAreNames(doc, hash);
    }
  }

  // ---------- Under a schema whose types the conditions keep ----------

  /** No type condition moves to another type than that of the field around it. */
  ghost predicate KeepsTypes(
    schema: SchemaInfo, selections: seq<Selection>, position: Position, fragments: seq<Fragment>, open: set<string>)
    decreases Defined(fragments) - open, |Own(selections)|
  {
    selections == [] ||
    (EnterDecreases(selections[0], [], fragments, open);
     var sel := selections[0];
     var b, inside := Enter(sel, [], fragments, open), Advance(schema, sel, position, fragments);
     && (!sel.Field? ==> inside == position)
     && KeepsTypes(schema, b.selections, inside, fragments, b.visited)
     && KeepsTypes(schema, selections[1..], position, fragments, open))
  }

  /** Then all fields exist exactly when all real paths resolve from the root. */
  lemma {:induction false} ExistMeansPathsResolve(
    schema: SchemaInfo, root: Definition, selections: seq<Selection>, at: Place, fragments: seq<Fragment>,
    open: set<string>)
    requires PathVerdict(schema, At(root), at.path).Accepted?
    requires KeepsTypes(schema, selections, DescendAll(schema, At(root), at.path), fragments, open)
    ensures FieldsExist(schema, selections, DescendAll(schema, At(root), at.path), fragments, open) <==>
            PathsResolve(schema, root, PathsOf(Requested(selections, at, fragments, open)))
    decreases Defined(fragments) - open, |Own(selections)|
  {
    if selections != [] {
      var sel, position := selections[0], DescendAll(schema, At(root), at.path);
      EnterDecreases(sel, [], fragments, open);
      var b, inside := Enter(sel, [], fragments, open), Inside(sel, at, fragments);
      if sel.Field? {
        PathVerdictExtends(schema, At(root), at.path, sel.name);
      }
      ExistMeansPathsResolve(schema, root, selections[1..], at, fragments, open);
      RequestedPaths(selections, at, fragments, open);
      PathsResolveParts(schema, root, PathsOf(OwnPlace(sel, at, fragments)),
                        PathsOf(Requested(b.selections, inside, fragments, b.visited)),
                        PathsOf(Requested(selections[1..], at, fragments, open)));
      OwnResolves(schema, root, sel, at, fragments);
      if PathVerdict(schema, At(root), inside.path).Accepted? {
        ExistMeansPathsResolve(schema, root, b.selections, inside, fragments, b.visited);
      }
    }
  }

  lemma OwnResolves(schema: SchemaInfo, root: Definition, sel: Selection, at: Place, fragments: seq<Fragment>)
    requires PathVerdict(schema, At(root), at.path).Accepted?
    ensures PathsResolve(schema, root, PathsOf(OwnPlace(sel, at, fragments))) <==>
            PathVerdict(schema, At(root), Inside(sel, at, fragments).path).Accepted?
  {
    if sel.Field? {
      assert PathsOf(OwnPlace(sel, at, fragments)) == [Inside(sel, at, fragments).path];
    } else {
      assert PathsOf(OwnPlace(sel, at, fragments)) == [];
    }
  }

  lemma PathsResolveParts(
    schema: SchemaInfo, root: Definition, a: seq<seq<string>>, b: seq<seq<string>>, c: seq<seq<string>>)
    ensures PathsResolve(schema, root, a + b + c) <==>
            PathsResolve(schema, root, a) && PathsResolve(schema, root, b) && PathsResolve(schema, root, c)
  {
    assert forall path :: path in a + b + c <==> path in a || path in b || path in c;
  }

  /** No type condition of an operation moves to another type. */
  ghost predicate OperationKeepsTypes(schema: SchemaInfo, op: Operation, fragments: seq<Fragment>) {
    var root := RootType(schema, TypeName(op.kind));
    root.Some? ==> KeepsTypes(schema, op.selections, At(root.value), fragments, {})
  }

  lemma {:induction false} PathsByOperation(
    schema: SchemaInfo, root: Definition, operations: seq<Operation>, fragments: seq<Fragment>)
    ensures PathsResolve(schema, root, PathsOf(RequestedBy(operations, fragments))) <==>
            forall op <- operations ::
              PathsResolve(schema, root, PathsOf(Requested(op.selections, ROOT, fragments, {})))
  {
    if operations == [] {
      assert PathsOf(RequestedBy(operations, fragments)) == [];
    } else {
      var init, last := operations[..|operations| - 1], operations[|operations| - 1];
      var before, here := RequestedBy(init, fragments), Requested(last.selections, ROOT, fragments, {});
      PathsByOperation(schema, root, init, fragments);
      PathsOfTwo(before, here);
      PathsResolveParts(schema, root, PathsOf(before), PathsOf(here), []);
      assert PathsOf(before) + PathsOf(here) + [] == PathsOf(before) + PathsOf(here);
      assert forall op :: op in operations <==> op in init || op == last;
    }
  }

  /** Under such a schema validation is right for every document that reports the paths it asks for and
      whose operations have one type. */
  lemma JudgedWhenTypesKept(schema: SchemaInfo, doc: Document, hash: string)
    requires doc.operations != [] && WellNamed(doc) && SamePaths(KeyPaths(doc), RealPaths(doc))
    requires forall op <- doc.operations ::
               && TypeName(op.kind) == TypeName(doc.operations[0].kind)
               && OperationKeepsTypes(schema, op, doc.fragments)
    ensures Validated(schema, doc, hash) <==> Intended(schema, doc)
  {
    ValidatedMeans(schema, doc, hash);
    var root := RootType(schema, TypeName(doc.operations[0].kind));
    if root.Some? {
      PathsByOperation(schema, root.value, doc.operations, doc.fragments);
      forall op | op in doc.operations
        ensures IntendedFor(schema, op, doc.fragments) <==>
                PathsResolve(schema, root.value, PathsOf(Requested(op.selections, ROOT, doc.fragments, {})))
      {
        ExistMeansPathsResolve(schema, root.value, op.selections, ROOT, doc.fragments, {});
      }
    }
  }

  /** In particular for plain documents: no aliases, no cycles, no field-bearing fragment spread twice. */
  lemma PlainIsJudged(schema: SchemaInfo, doc: Document, hash: string)
    requires doc.operations != [] && WellNamed(doc) && IsPlain(doc)
    requires forall op <- doc.operations ::
               && TypeName(op.kind) == TypeName(doc.operations[0].kind)
               && OperationKeepsTypes(schema, op, doc.fragments)
    ensures Validated(schema, doc, hash) <==> Intended(schema, doc)
  {
    PlainReportsRealPaths(doc);
    JudgedWhenTypesKept(schema, doc, hash);
  }

  // ---------- Documents that are misjudged ----------

  lemma FieldExists(
    schema: SchemaInfo, field: Selection, position: Position, fragments: seq<Fragment>, open: set<string>)
    requires field.Field?
    ensures FieldsExist(schema, [field], position, fragments, open) <==>
            && NameVerdict(position, field.name).Accepted?
            && FieldsExist(schema, field.selections, Descend(schema, position, field.name), fragments, open)
  {
    EnterDecreases(field, [], fragments, open);
    assert [field][1..] == [];
  }

  lemma QueryIntended(schema: SchemaInfo, q: Definition, selections: seq<Selection>, fragments: seq<Fragment>)
    requires schema.query == Some(q)
    ensures Intended(schema, QueryOf(selections, fragments)) <==> FieldsExist(schema, selections, At(q), fragments, {})
  {
    var op := QueryOf(selections, fragments).operations[0];
    assert op in QueryOf(selections, fragments).operations;
  }

  lemma QueryValidated(schema: SchemaInfo, q: Definition, doc: Document, hash: string)
    requires doc.operations != [] && WellNamed(doc) && schema.query == Some(q) && doc.operations[0].kind == Query
    ensures Validated(schema, doc, hash) <==> PathsResolve(schema, q, KeyPaths(doc))
  {
    ValidatedMeans(schema, doc, hash);
  }

  lemma OneNameResolves(schema: SchemaInfo, q: Definition, name: string)
    ensures PathVerdict(schema, At(q), [name]).Accepted? <==> FieldForName(q.fields, name).Some?
  {
  }

  lemma TwoNamesResolve(schema: SchemaInfo, q: Definition, x: string, d: Definition, y: string)
    requires FieldForName(q.fields, x).Some? && Descend(schema, At(q), x) == At(d)
    ensures PathVerdict(schema, At(q), [x, y]).Accepted? <==> FieldForName(d.fields, y).Some?
  {
    assert [x, y][1..] == [y];
    OneNameResolves(schema, d, y);
  }

  lemma NamesOfField(field: Selection)
    requires field.Field? && IsName(ResponseKey(field)) && NamesValid(Own(field.selections))
    ensures NamesValid(Own([field]))
  {
    assert [field][1..] == [];
    assert Own([field]) == [NodeOf(field)] + Own(field.selections) + [];
  }

  /** `{ alias: name }` is validated by the alias. */
  lemma AliasedQueryJudged(schema: SchemaInfo, q: Definition, alias: string, name: string, hash: string)
    requires schema.query == Some(q) && IsName(alias) && IsName(name)
    ensures var doc := AliasedQuery(alias, name);
            && (Validated(schema, doc, hash) <==> FieldForName(q.fields, alias).Some?)
            && (Intended(schema, doc) <==> FieldForName(q.fields, name).Some?)
  {
    var doc, field := AliasedQuery(alias, name), Field(name, alias, 0, [], []);
    NamesOfField(field);
    QueryValidated(schema, q, doc, hash);
    AliasedPaths(alias, name);
    OneNameResolves(schema, q, alias);
    assert [alias] in KeyPaths(doc);
    QueryIntended(schema, q, [field], []);
    FieldExists(schema, field, At(q), [], {});
  }

  /** With a field `shown` in the root type and none called `hidden`, `{ shown: hidden }` is accepted though it
      asks for a field that does not exist, and `{ hidden: shown }` is rejected though its field does. */
  lemma AliasMisjudged(schema: SchemaInfo, q: Definition, shown: string, hidden: string, hash: string)
    requires schema.query == Some(q) && IsName(shown) && IsName(hidden)
    requires FieldForName(q.fields, shown).Some? && FieldForName(q.fields, hidden).None?
    ensures Validated(schema, AliasedQuery(shown, hidden), hash) && !Intended(schema, AliasedQuery(shown, hidden))
    ensures !Validated(schema, AliasedQuery(hidden, shown), hash) && Intended(schema, AliasedQuery(hidden, shown))
  {
    AliasedQueryJudged(schema, q, shown, hidden, hash);
    AliasedQueryJudged(schema, q, hidden, shown, hash);
  }

  /** A field that is spread first beneath `x`, whose type has it, and then at the root, which does not, is
      accepted: `{ x { ...F } ...F } fragment F on T { y }`, where T is the root type. */
  lemma RepeatedSpreadMisjudged(
    schema: SchemaInfo, q: Definition, d: Definition, x: string, y: string, fragment: string, typeCondition: string,
    hash: string)
    requires schema.query == Some(q) && IsName(x) && IsName(y) && Cast(schema, At(q), typeCondition) == At(q)
    requires FieldForName(q.fields, x).Some? && Descend(schema, At(q), x) == At(d)
    requires FieldForName(d.fields, y).Some? && FieldForName(q.fields, y).None?
    ensures var doc := TwiceSpread(x, y, fragment, typeCondition);
            Validated(schema, doc, hash) && !Intended(schema, doc)
  {
    var doc := TwiceSpread(x, y, fragment, typeCondition);
    var f, spread := doc.fragments[0], FragmentSpread(fragment, 0);
    var nest := doc.operations[0].selections[0];
    TwiceSpreadNamed(x, y, fragment, typeCondition);
    QueryValidated(schema, q, doc, hash);
    TwiceSpreadKeys(x, y, fragment, typeCondition);
    OneNameResolves(schema, q, x);
    TwoNamesResolve(schema, q, x, d, y);
    QueryIntended(schema, q, [nest, spread], [f]);
    assert [nest, spread][1..] == [spread];
    SpreadMissing(schema, q, f, y);
  }

  lemma TwiceSpreadNamed(x: string, y: string, fragment: string, typeCondition: string)
    requires IsName(x) && IsName(y)
    ensures WellNamed(TwiceSpread(x, y, fragment, typeCondition))
  {
    var doc := TwiceSpread(x, y, fragment, typeCondition);
    var nest, spread := doc.operations[0].selections[0], FragmentSpread(fragment, 0);
    NamesOfField(Leaf(y));
    assert [spread][1..] == [] && [nest, spread][1..] == [spread];
    assert Own([spread]) == [NodeOf(spread)];
    assert Own([nest, spread]) == [NodeOf(nest)] + [NodeOf(spread)] + [NodeOf(spread)];
  }

  lemma SpreadMissing(schema: SchemaInfo, q: Definition, f: Fragment, y: string)
    requires f.selections == [Leaf(y)] && Cast(schema, At(q), f.typeCondition) == At(q)
    requires FieldForName(q.fields, y).None?
    ensures !FieldsExist(schema, [FragmentSpread(f.name, 0)], At(q), [f], {})
  {
    var spread := FragmentSpread(f.name, 0);
    EnterDecreases(spread, [], [f], {});
    assert ForName([f], f.name) == Some(f);
    FieldExists(schema, Leaf(y), At(q), [f], {} + {f.name});
  }

  /** The type of a condition should decide about the field beneath it, and the type around it does:
      `{ x { ... on T { y } } }`. */
  lemma ConditionMisjudged(
    schema: SchemaInfo, q: Definition, d: Definition, x: string, y: string, typeCondition: string, hash: string)
    requires schema.query == Some(q) && IsName(x) && IsName(y) && typeCondition != ""
    requires FieldForName(q.fields, x).Some? && Descend(schema, At(q), x) == At(d) && typeCondition in schema.types
    ensures var doc := TypedQuery(x, y, typeCondition);
            && (Validated(schema, doc, hash) <==> FieldForName(d.fields, y).Some?)
            && (Intended(schema, doc) <==> FieldForName(schema.types[typeCondition].fields, y).Some?)
  {
    var doc := TypedQuery(x, y, typeCondition);
    var inline := InlineFragment(typeCondition, 0, [Leaf(y)]);
    var nest := Field(x, "", 0, [], [inline]);
    TypedNamed(nest, inline, y);
    QueryValidated(schema, q, doc, hash);
    TypedKeys(x, y, typeCondition);
    OneNameResolves(schema, q, x);
    TwoNamesResolve(schema, q, x, d, y);
    assert [x] in KeyPaths(doc) && [x, y] in KeyPaths(doc);
    QueryIntended(schema, q, [nest], []);
    FieldExists(schema, nest, At(q), [], {});
    InlineExists(schema, At(d), inline, y);
  }

  lemma TypedNamed(nest: Selection, inline: Selection, y: string)
    requires nest.Field? && IsName(ResponseKey(nest)) && nest.selections == [inline] && IsName(y)
    requires inline.InlineFragment? && inline.selections == [Leaf(y)]
    ensures NamesValid(Own([nest]))
  {
    NamesOfField(Leaf(y));
    assert [inline][1..] == [];
    assert Own([inline]) == [NodeOf(inline)] + Own([Leaf(y)]) + [];
    NamesOfField(nest);
  }

  lemma InlineExists(schema: SchemaInfo, position: Position, inline: Selection, y: string)
    requires inline.InlineFragment? && inline.selections == [Leaf(y)]
    ensures FieldsExist(schema, [inline], position, [], {}) <==>
            NameVerdict(Cast(schema, position, inline.typeCondition), y).Accepted?
  {
    EnterDecreases(inline, [], [], {});
    assert [inline][1..] == [];
    FieldExists(schema, Leaf(y), Cast(schema, position, inline.typeCondition), [], {});
  }

  /** `query A { x } mutation B { y }` */
  function QueryThenMutation(x: string, y: string): Document {
    Document([Operation("A", Query, 0, [], [Leaf(x)]), Operation("B", Mutation, 0, [], [Leaf(y)])], [])
  }

  lemma QueryThenMutationKeys(x: string, y: string)
    ensures KeyPaths(QueryThenMutation(x, y)) == [[x], [y]]
  {
    var ops := QueryThenMutation(x, y).operations;
    assert ops[..1] == [ops[0]] && [ops[0]][..0] == [];
    LeafWalk(x, [], [], {});
    LeafWalk(y, [], [], {});
    assert [] + [x] == [x] && [] + [y] == [y];
    assert AllPaths([ops[0]], []) == [] + [[x]];
    assert AllPaths(ops, []) == AllPaths(ops[..1], []) + [[y]];
  }

  /** With a query type that has `x`, a mutation after the query is accepted exactly when the query type has
      its field, though the mutation type should decide. */
  lemma LaterOperationMisjudged(
    schema: SchemaInfo, query: Definition, mutation: Definition, x: string, y: string, hash: string)
    requires schema.query == Some(query) && schema.mutation == Some(mutation) && IsName(x) && IsName(y)
    requires FieldForName(query.fields, x).Some?
    ensures var doc := QueryThenMutation(x, y);
            && (Validated(schema, doc, hash) <==> FieldForName(query.fields, y).Some?)
            && (Intended(schema, doc) <==> FieldForName(mutation.fields, y).Some?)
  {
    var doc := QueryThenMutation(x, y);
    var a, b := doc.operations[0], doc.operations[1];
    NamesOfField(Leaf(x));
    NamesOfField(Leaf(y));
    assert a in doc.operations && b in doc.operations && forall op :: op in doc.operations ==> op == a || op == b;
    QueryValidated(schema, query, doc, hash);
    QueryThenMutationKeys(x, y);
    OneNameResolves(schema, query, x);
    OneNameResolves(schema, query, y);
    assert [x] in KeyPaths(doc) && [y] in KeyPaths(doc);
    FieldExists(schema, Leaf(x), At(query), [], {});
    FieldExists(schema, Leaf(y), At(mutation), [], {});
  }
}
