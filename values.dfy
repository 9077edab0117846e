/** The nested Python values the transformer produces: `int`, `str` and `dict`. */
module Values {
  import opened Dicts

  datatype Value =
    | Int(i: int)                   // Python `int`: unbounded
    | Str(s: string)
    | Dict(entries: Entries<Value>) // Python `dict`: insertion-ordered

  /** Every dict inside `v`, at any depth, has distinct keys, as a Python dict does. */
  predicate WellFormed(v: Value)
  {
    match v
    case Dict(e) => Valid(e) && forall i :: 0 <= i < |e| ==> WellFormed(e[i].1)
    case _ => true
  }
}
