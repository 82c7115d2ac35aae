/** Schema validation of flat dotted paths, and the structural check it amounts to. */
module Schema {
  import opened Ast
  import opened Text
  import opened Traversal
  import opened Counters
  import opened Analyzer

  datatype TypeRef = TypeRef(namedType: string, elem: Option<TypeRef>)

  datatype FieldDef = FieldDef(name: string, fieldType: Option<TypeRef>)

  datatype Definition = Definition(name: string, fields: seq<FieldDef>)

  datatype SchemaInfo = SchemaInfo(
    query: Option<Definition>, mutation: Option<Definition>, subscription: Option<Definition>,
    types: map<string, Definition>)

  datatype Verdict =
    | Accepted
    | NoSuchField(segment: string, typeName: string)
    | Unresolvable(segment: string)
    | TypeNotFound(typeName: string)

  function FieldForName(fields: seq<FieldDef>, name: string): Option<FieldDef> {
    if fields == [] then None
    else if fields[0].name == name then Some(fields[0])
    else FieldForName(fields[1..], name)
  }

  /** The first field of the name is found, wherever it stands. */
  lemma {:induction false} FirstFieldFound(fields: seq<FieldDef>, name: string, i: nat)
    requires i <= |fields| && forall j | 0 <= j < i :: fields[j].name != name
    requires i < |fields| ==> fields[i].name == name
    ensures FieldForName(fields, name) == if i < |fields| then Some(fields[i]) else None
  {
    if i > 0 {
      FirstFieldFound(fields[1..], name, i - 1);
    }
  }

  function ResolveNamedType(t: Option<TypeRef>): string {
    if t.None? then ""
    else if t.value.namedType != "" then t.value.namedType
    else if t.value.elem.Some? then ResolveNamedType(t.value.elem)
    else ""
  }

  /** A named type inside list and non-null wrappers. */
  function Wrapped(name: string, wrappers: nat): Option<TypeRef> {
    if wrappers == 0 then Some(TypeRef(name, None)) else Some(TypeRef("", Wrapped(name, wrappers - 1)))
  }

  /** However deep a named type is wrapped, it is found. */
  lemma {:induction false} ResolvesThroughWrappers(name: string, wrappers: nat)
    ensures ResolveNamedType(Wrapped(name, wrappers)) == name
  {
    if wrappers > 0 {
      ResolvesThroughWrappers(name, wrappers - 1);
    }
  }

  /** The type reference beneath `layers` wrappers. */
  function Unwrapped(t: Option<TypeRef>, layers: nat): Option<TypeRef> {
    if layers == 0 || t.None? then t else Unwrapped(t.value.elem, layers - 1)
  }

  /** The outermost name counts, and without any there is none. */
  lemma {:induction false} ResolvesOutermost(t: Option<TypeRef>, layers: nat)
    requires forall j: nat | j < layers :: Unwrapped(t, j).Some? && Unwrapped(t, j).value.namedType == ""
    requires Unwrapped(t, layers).Some? ==> Unwrapped(t, layers).value.namedType != ""
    ensures ResolveNamedType(t) == if Unwrapped(t, layers).None? then "" else Unwrapped(t, layers).value.namedType
  {
    if layers > 0 {
      assert Unwrapped(t, 0) == t;
      forall j: nat | j < layers - 1
        ensures Unwrapped(t.value.elem, j) == Unwrapped(t, j + 1)
      {
      }
      ResolvesOutermost(t.value.elem, layers - 1);
    }
  }

  function RootType(schema: SchemaInfo, operationType: string): Option<Definition> {
    if operationType == "mutation" then schema.mutation
    else if operationType == "subscription" then schema.subscription
    else schema.query
  }

  // ---------- One path ----------

  /** Where a descent through the schema stands: at a type, or at a field whose type is unusable. */
  datatype Position = At(definition: Definition) | Stuck(verdict: Verdict)

  function Below(schema: SchemaInfo, field: FieldDef, segment: string): Position {
    var named := ResolveNamedType(field.fieldType);
    if named == "" then Stuck(Unresolvable(segment))
    else if named !in schema.types then Stuck(TypeNotFound(named))
    else At(schema.types[named])
  }

  /** The verdict on one name at a position. */
  function NameVerdict(position: Position, segment: string): Verdict {
    match position
    case Stuck(verdict) => verdict
    case At(d) => if FieldForName(d.fields, segment).None? then NoSuchField(segment, d.name) else Accepted
  }

  /** The position after a name. */
  function Descend(schema: SchemaInfo, position: Position, segment: string): Position {
    match position
    case Stuck(_) => position
    case At(d) =>
      match FieldForName(d.fields, segment)
      case None => Stuck(NoSuchField(segment, d.name))
      case Some(field) => Below(schema, field, segment)
  }

  /** The verdict on a path of names followed from a position. */
  function PathVerdict(schema: SchemaInfo, position: Position, names: seq<string>): Verdict
    decreases |names|
  {
    if names == [] then Accepted
    else if !NameVerdict(position, names[0]).Accepted? then NameVerdict(position, names[0])
    else PathVerdict(schema, Descend(schema, position, names[0]), names[1..])
  }

  function DescendAll(schema: SchemaInfo, position: Position, names: seq<string>): Position
    decreases |names|
  {
    if names == [] then position else DescendAll(schema, Descend(schema, position, names[0]), names[1..])
  }

  function First(a: Verdict, b: Verdict): Verdict {
    if a.Accepted? then b else a
  }

  /** The verdict on the first path that is not accepted. */
  function FirstFailure(schema: SchemaInfo, position: Position, paths: seq<seq<string>>): Verdict {
    if paths == [] then Accepted
    else First(PathVerdict(schema, position, paths[0]), FirstFailure(schema, position, paths[1..]))
  }

  // ---------- The code ----------

  /** The non-empty pieces of `path` from `start` on. */
  ghost function PiecesFrom(path: string, start: nat): seq<string> {
    if start <= |path| then NonEmpty(SplitOn(path[start..], '.')) else []
  }

  /** A stretch without dots, up to a dot or the end, is the next piece. */
  lemma SplitStep(path: string, start: nat, i: nat, parts: seq<string>)
    requires start <= i <= |path| && '.' !in path[start..i]
    requires i < |path| ==> path[i] == '.'
    ensures parts + PiecesFrom(path, start) ==
            (if start < i then parts + [path[start..i]] else parts) + PiecesFrom(path, i + 1)
  {
    var piece := path[start..i];
    SplitPiece(piece, '.');
    if i == |path| {
      assert path[start..] == piece;
      assert NonEmpty([piece]) == (if piece == "" then [] else [piece]) + NonEmpty([piece][1..]);
      assert PiecesFrom(path, start) == if start < i then [piece] else [];
    } else {
      assert path[start..] == piece + ['.'] + path[i + 1..];
      SplitConcat(piece, '.', path[i + 1..]);
      assert SplitOn(path[start..], '.')[1..] == SplitOn(path[i + 1..], '.');
    }
  }

  lemma PiecesFromEnds(path: string)
    ensures PiecesFrom(path, 0) == NonEmpty(SplitOn(path, '.')) && PiecesFrom(path, |path| + 1) == []
  {
  }

  method SplitPath(path: string) returns (parts: seq<string>)
    ensures parts == NonEmpty(SplitOn(path, '.'))
  {
    parts := [];
    var start, i := 0, 0;
    ghost var all := PiecesFrom(path, 0);
    while i <= |path|
      invariant 0 <= start <= i <= |path| + 1
      invariant forall k | start <= k < i && k < |path| :: path[k] != '.'
      invariant i == |path| + 1 ==> start == i
      invariant parts + PiecesFrom(path, start) == all
    {
      if i == |path| || path[i] == '.' {
        SplitStep(path, start, i, parts);
        if i > start {
          parts := parts + [path[start..i]];
        }
        start := i + 1;
      }
      i := i + 1;
    }
    PiecesFromEnds(path);
  }

  method ValidatePath(schema: SchemaInfo, root: Definition, parts: seq<string>) returns (verdict: Verdict)
    ensures verdict == PathVerdict(schema, At(root), parts)
  {
    var currentType := root;
    for i := 0 to |parts|
      invariant PathVerdict(schema, At(currentType), parts[i..]) == PathVerdict(schema, At(root), parts)
    {
      var segment := parts[i];
      assert parts[i..][0] == segment && parts[i..][1..] == parts[i + 1..];
      var field := FieldForName(currentType.fields, segment);
      if field.None? {
        return NoSuchField(segment, currentType.name);
      }
      if i == |parts| - 1 {
        break;
      }
      assert parts[i + 1..] != [];
      var namedType := ResolveNamedType(field.value.fieldType);
      if namedType == "" {
        return Unresolvable(segment);
      }
      if namedType !in schema.types {
        return TypeNotFound(namedType);
      }
      currentType := schema.types[namedType];
    }
    verdict := Accepted;
  }

  /** The path lists that the strings stand for. */
  function SplitAll(paths: seq<string>): seq<seq<string>> {
    if paths == [] then [] else [NonEmpty(SplitOn(paths[0], '.'))] + SplitAll(paths[1..])
  }

  /** A missing root type lets every path pass. */
  function Expected(schema: SchemaInfo, operationType: string, paths: seq<seq<string>>): Verdict {
    match RootType(schema, operationType)
    case None => Accepted
    case Some(root) => FirstFailure(schema, At(root), paths)
  }

  method Validate(schema: SchemaInfo, operationType: string, fieldPaths: seq<string>) returns (verdict: Verdict)
    ensures verdict == Expected(schema, operationType, SplitAll(fieldPaths))
  {
    for i := 0 to |fieldPaths|
      invariant Expected(schema, operationType, SplitAll(fieldPaths[i..])) ==
                Expected(schema, operationType, SplitAll(fieldPaths))
    {
      assert fieldPaths[i..][1..] == fieldPaths[i + 1..];
      var parts := SplitPath(fieldPaths[i]);
      if |parts| == 0 {
        continue;
      }
      var currentType := RootType(schema, operationType);
      if currentType.None? {
        continue;
      }
      verdict := ValidatePath(schema, currentType.value, parts);
      if !verdict.Accepted? {
        return;
      }
    }
    verdict := Accepted;
  }

  // ---------- The structural check ----------

  datatype Checked = Checked(verdict: Verdict, visited: set<string>)

  /** Checks each field against the type of the field around it, top down, expanding each fragment once. */
  ghost function Check(
    schema: SchemaInfo, selections: seq<Selection>, position: Position, fragments: seq<Fragment>, visited: set<string>)
    : (r: Checked)
    ensures visited <= r.visited
    decreases Defined(fragments) - visited, |Own(selections)|
  {
    if selections == [] then Checked(Accepted, visited) else
    var sel := selections[0];
    EnterDecreases(sel, [], fragments, visited);
    var b := Enter(sel, [], fragments, visited);
    var here := if sel.Field? then NameVerdict(position, ResponseKey(sel)) else Accepted;
    var below := if sel.Field? then Descend(schema, position, ResponseKey(sel)) else position;
    var inner := Check(schema, b.selections, below, fragments, b.visited);
    var rest := Check(schema, selections[1..], position, fragments, inner.visited);
    Checked(First(here, First(inner.verdict, rest.verdict)), rest.visited)
  }

  lemma {:induction false} PathVerdictExtends(schema: SchemaInfo, position: Position, names: seq<string>, name: string)
    requires PathVerdict(schema, position, names).Accepted?
    ensures PathVerdict(schema, position, names + [name]) ==
            NameVerdict(DescendAll(schema, position, names), name)
    ensures DescendAll(schema, position, names + [name]) ==
            Descend(schema, DescendAll(schema, position, names), name)
    decreases |names|
  {
    var longer := names + [name];
    if names == [] {
      assert longer[1..] == [];
    } else {
      assert longer[1..] == names[1..] + [name];
      PathVerdictExtends(schema, Descend(schema, position, names[0]), names[1..], name);
    }
  }

  /** What is accepted so far does not decide: the verdict is that on the rest, from where the start leads. */
  lemma {:induction false} PathVerdictSplits(schema: SchemaInfo, position: Position, names: seq<string>, k: nat)
    requires k <= |names| && PathVerdict(schema, position, names[..k]).Accepted?
    ensures PathVerdict(schema, position, names) ==
            PathVerdict(schema, DescendAll(schema, position, names[..k]), names[k..])
    decreases k
  {
    if k > 0 {
      assert names[..k][1..] == names[1..][..k - 1] && names[1..][k - 1..] == names[k..];
      PathVerdictSplits(schema, Descend(schema, position, names[0]), names[1..], k - 1);
    }
  }

  /** The first path that is not accepted decides. */
  lemma {:induction false} FirstFailureIs(schema: SchemaInfo, position: Position, paths: seq<seq<string>>, i: nat)
    requires i < |paths| && !PathVerdict(schema, position, paths[i]).Accepted?
    requires forall j | 0 <= j < i :: PathVerdict(schema, position, paths[j]).Accepted?
    ensures FirstFailure(schema, position, paths) == PathVerdict(schema, position, paths[i])
  {
    if i > 0 {
      assert forall j | 0 <= j < i - 1 :: paths[1..][j] == paths[j + 1];
      FirstFailureIs(schema, position, paths[1..], i - 1);
    }
  }

  /** The root type of each kind of operation. */
  lemma RootOfKind(schema: SchemaInfo, kind: OperationKind)
    ensures RootType(schema, TypeName(kind)) ==
            if kind == Mutation then schema.mutation
            else if kind == Subscription then schema.subscription
            else schema.query
  {
  }

  lemma {:induction false} FirstFailureConcat(
    schema: SchemaInfo, position: Position, a: seq<seq<string>>, b: seq<seq<string>>)
    ensures FirstFailure(schema, position, a + b) ==
            First(FirstFailure(schema, position, a), FirstFailure(schema, position, b))
  {
    if a == [] {
      assert a + b == b;
    } else {
      assert (a + b)[1..] == a[1..] + b;
      FirstFailureConcat(schema, position, a[1..], b);
    }
  }

  lemma FailuresHead(schema: SchemaInfo, root: Position, v: Visit, inner: seq<Visit>, rest: seq<Visit>)
    ensures FirstFailure(schema, root, FieldPaths([v] + inner + rest)) ==
            First(if v.node.FieldNode? then PathVerdict(schema, root, v.names) else Accepted,
                  First(FirstFailure(schema, root, FieldPaths(inner)), FirstFailure(schema, root, FieldPaths(rest))))
  {
    FieldPathsHead(v, inner, rest);
    var own := if v.node.FieldNode? then [v.names] else [];
    FirstFailureConcat(schema, root, own + FieldPaths(inner), FieldPaths(rest));
    FirstFailureConcat(schema, root, own, FieldPaths(inner));
    if v.node.FieldNode? {
      assert [v.names][1..] == [];
    }
  }

  /** The check and the walk visit the same fragments. */
  lemma {:induction false} CheckVisits(
    schema: SchemaInfo, selections: seq<Selection>, position: Position, names: seq<string>,
    fragments: seq<Fragment>, visited: set<string>)
    ensures Check(schema, selections, position, fragments, visited).visited ==
            Walk(selections, names, fragments, visited).visited
    decreases Defined(fragments) - visited, |Own(selections)|
  {
    if selections != [] {
      var sel := selections[0];
      EnterDecreases(sel, [], fragments, visited);
      var b := Enter(sel, [], fragments, visited);
      var below := if sel.Field? then Descend(schema, position, ResponseKey(sel)) else position;
      CheckVisits(schema, b.selections, below, Enter(sel, names, fragments, visited).names, fragments, b.visited);
      CheckVisits(schema, selections[1..], position, names, fragments,
                  Check(schema, b.selections, below, fragments, b.visited).visited);
    }
  }

  /** Checking the flat paths of a walk is checking the selection tree, with the same first failure. */
  lemma {:induction false} FlatIsStructural(
    schema: SchemaInfo, root: Position, selections: seq<Selection>, names: seq<string>, fragments: seq<Fragment>,
    visited: set<string>)
    requires PathVerdict(schema, root, names).Accepted?
    ensures Check(schema, selections, DescendAll(schema, root, names), fragments, visited).verdict ==
            FirstFailure(schema, root, FieldPaths(Walk(selections, names, fragments, visited).trace))
    decreases Defined(fragments) - visited, |Own(selections)|
  {
    if selections != [] {
      var sel, position := selections[0], DescendAll(schema, root, names);
      EnterDecreases(sel, names, fragments, visited);
      var b := Enter(sel, names, fragments, visited);
      var inner := Walk(b.selections, b.names, fragments, b.visited);
      var rest := Walk(selections[1..], names, fragments, inner.visited);
      FailuresHead(schema, root, VisitOf(sel, names, visited), inner.trace, rest.trace);
      var below := if sel.Field? then Descend(schema, position, ResponseKey(sel)) else position;
      CheckVisits(schema, b.selections, below, b.names, fragments, b.visited);
      FlatIsStructural(schema, root, selections[1..], names, fragments, inner.visited);
      if sel.Field? {
        PathVerdictExtends(schema, root, names, ResponseKey(sel));
      }
      if PathVerdict(schema, root, b.names).Accepted? {
        FlatIsStructural(schema, root, b.selections, b.names, fragments, b.visited);
      }
    }
  }

  /** The structural check of every operation from one root position. */
  ghost function CheckAll(
    schema: SchemaInfo, root: Position, operations: seq<Operation>, fragments: seq<Fragment>): Verdict
  {
    if operations == [] then Accepted else
    var init, last := operations[..|operations| - 1], operations[|operations| - 1];
    First(CheckAll(schema, root, init, fragments), Check(schema, last.selections, root, fragments, {}).verdict)
  }

  lemma {:induction false} AllPathsStructural(
    schema: SchemaInfo, root: Position, operations: seq<Operation>, fragments: seq<Fragment>)
    ensures FirstFailure(schema, root, AllPaths(operations, fragments)) ==
            CheckAll(schema, root, operations, fragments)
  {
    if operations != [] {
      var init, last := operations[..|operations| - 1], operations[|operations| - 1];
      AllPathsStructural(schema, root, init, fragments);
      FlatIsStructural(schema, root, last.selections, [], fragments, {});
      FirstFailureConcat(schema, root, AllPaths(init, fragments),
                         FieldPaths(Walk(last.selections, [], fragments, {}).trace));
    }
  }

  lemma {:induction false} SplitRenderAll(paths: seq<seq<string>>)
    requires PathsNamed(paths) && forall path <- paths :: path != []
    ensures SplitAll(RenderAll(paths)) == paths
  {
    if paths != [] {
      assert paths[0] in paths;
      SplitRender(paths[0]);
      NonEmptyNames(paths[0]);
      assert forall path :: path in paths[1..] ==> path in paths;
      SplitRenderAll(paths[1..]);
      assert RenderAll(paths)[1..] == RenderAll(paths[1..]);
    }
  }

  /** Validating the summary of a document gives the verdict, including the reason, of the structural
      check of its selection trees against the root type of its first operation. */
  lemma ValidationIsStructural(schema: SchemaInfo, doc: Document, hash: string)
    requires doc.operations != [] && WellNamed(doc)
    ensures var s := Summarize(doc, hash);
            Expected(schema, s.operationType, SplitAll(s.fieldPaths)) ==
            match RootType(schema, TypeName(doc.operations[0].kind))
            case None => Accepted
            case Some(root) => CheckAll(schema, At(root), doc.operations, doc.fragments)
  {
    var paths := AllPaths(doc.operations, doc.fragments);
    AllPathsNamed(doc.operations, doc.fragments);
    AllPathsParentsFirst(doc.operations, doc.fragments);
    forall path | path in paths
      ensures path != []
    {
      var i :| 0 <= i < |paths| && paths[i] == path;
      assert HasParent(paths, [], i);
    }
    SplitRenderAll(paths);
    var root := RootType(schema, TypeName(doc.operations[0].kind));
    if root.Some? {
      AllPathsStructural(schema, At(root.value), doc.operations, doc.fragments);
    }
  }
}
