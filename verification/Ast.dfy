/** The parsed query document the analyser starts from. */
module Ast {

  datatype Option<+T> = None | Some(value: T)

  /** An argument value. A child may carry no value; a variable may link to the default of its definition. */
  datatype Value = Value(children: seq<Option<Value>>, default: Option<Value>)

  datatype Selection =
    | Field(name: string, alias: string, directives: nat, arguments: seq<Option<Value>>, selections: seq<Selection>)
    | InlineFragment(typeCondition: string, directives: nat, selections: seq<Selection>)
    | FragmentSpread(name: string, directives: nat)

  /** The fragment's type condition is not read by the analyser. */
  datatype Fragment = Fragment(name: string, typeCondition: string, directives: nat, selections: seq<Selection>)

  datatype OperationKind = Query | Mutation | Subscription | OtherKind

  datatype Variable = Variable(default: Option<Value>)

  datatype Operation = Operation(
    name: string, kind: OperationKind, directives: nat, variables: seq<Variable>, selections: seq<Selection>)

  datatype Document = Document(operations: seq<Operation>, fragments: seq<Fragment>)

  /** The first fragment of the given name. */
  function ForName(fragments: seq<Fragment>, name: string): Option<Fragment> {
    if fragments == [] then None
    else if fragments[0].name == name then Some(fragments[0])
    else ForName(fragments[1..], name)
  }

  /** The first fragment of the name is found, wherever it stands. */
  lemma {:induction false} FirstFragmentFound(fragments: seq<Fragment>, name: string, i: nat)
    requires i <= |fragments| && forall j | 0 <= j < i :: fragments[j].name != name
    requires i < |fragments| ==> fragments[i].name == name
    ensures ForName(fragments, name) == if i < |fragments| then Some(fragments[i]) else None
  {
    if i > 0 {
      FirstFragmentFound(fragments[1..], name, i - 1);
    }
  }

  ghost function Defined(fragments: seq<Fragment>): set<string> {
    set f | f in fragments :: f.name
  }

  lemma {:induction false} ForNameDefined(fragments: seq<Fragment>, name: string)
    ensures ForName(fragments, name).Some? <==> name in Defined(fragments)
  {
    if fragments != [] {
      ForNameDefined(fragments[1..], name);
      assert forall f :: f in fragments <==> f == fragments[0] || f in fragments[1..];
    }
  }

  /** What one selection says by itself, without what is nested in it. */
  datatype Node =
    | FieldNode(key: string, directives: nat, arguments: seq<Option<Value>>)
    | InlineNode(typeCondition: string, directives: nat)
    | SpreadNode(name: string, directives: nat)

  /** The response key of a field is its alias, or its name when it has none. */
  function ResponseKey(sel: Selection): string
    requires sel.Field?
  {
    if sel.alias != "" then sel.alias else sel.name
  }

  function NodeOf(sel: Selection): Node {
    match sel
    case Field(_, _, directives, arguments, _) => FieldNode(ResponseKey(sel), directives, arguments)
    case InlineFragment(typeCondition, directives, _) => InlineNode(typeCondition, directives)
    case FragmentSpread(name, directives) => SpreadNode(name, directives)
  }

  /** All nodes written in a selection set, fragment spreads left unexpanded. */
  function Own(selections: seq<Selection>): seq<Node> {
    if selections == [] then [] else
    [NodeOf(selections[0])]
    + (if selections[0].FragmentSpread? then [] else Own(selections[0].selections))
    + Own(selections[1..])
  }
}
