/**
 * The parse tree: one datatype per production of the grammar
 *
 *   start: (constant | dict)*
 *   constant: "(" "define" NAME value ")"
 *   dict: "begin" (assignment ";")* "end"
 *   assignment: NAME ":=" value
 *   value: number | string | dict | constant_usage
 *   constant_usage: "[" NAME "]"
 *   number: SIGNED_INT
 *   string: ESCAPED_STRING
 *
 * Token texts are kept as they appear in the source, quotes and signs included.
 */
module Syntax {

  datatype StartNode = Start(items: seq<Item>)

  datatype Item =
    | Constant(name: string, value: ValueNode)
    | DictItem(dict: DictNode)

  datatype DictNode = DictNode(assignments: seq<Assignment>)

  datatype Assignment = Assignment(name: string, value: ValueNode)

  datatype ValueNode =
    | Number(lexeme: string)
    | StringLit(lexeme: string)
    | NestedDict(dict: DictNode)
    | ConstantUsage(name: string)

  /** The names of the assignments of a block, in order. */
  function Names(asg: seq<Assignment>): (ns: seq<string>)
    ensures |ns| == |asg|
    ensures forall i :: 0 <= i < |asg| ==> ns[i] == asg[i].name
  {
    seq(|asg|, i requires 0 <= i < |asg| => asg[i].name)
  }

  /** `v` contains the constant usage `[n]`, at any depth. */
  predicate Mentions(v: ValueNode, n: string)
  {
    match v
    case ConstantUsage(m) => m == n
    case NestedDict(d) => exists i :: 0 <= i < |d.assignments| && Mentions(d.assignments[i].value, n)
    case _ => false
  }

  /** The item uses `[n]`: in a declaration's value, or anywhere in a block. */
  predicate ItemMentions(item: Item, n: string)
  {
    match item
    case Constant(_, v) => Mentions(v, n)
    case DictItem(d) => Mentions(NestedDict(d), n)
  }
}
