/**
 * `ConfigTransformer`: the object whose `constants` table the `constant` production
 * updates in place, and whose `transform` walks the parse tree bottom-up, left to right.
 * The value productions are the functions of `Evaluator`, applied to the current table.
 */
module Transformer {
  import opened Errors
  import opened Dicts
  import opened Values
  import opened Syntax
  import opened Evaluator

  class ConfigTransformer {
    /** `self.constants` */
    var constants: Constants

    /** `__init__`: an empty table. */
    constructor ()
      ensures constants == map[]
    {
      constants := map[];
    }

    /** `constant`: sets one entry of the table, leaves every other entry alone, and yields nothing. */
    method Constant(name: string, value: Value)
      modifies this
      ensures constants == old(constants)[name := value]
      ensures forall n :: n != name && n in old(constants) ==> n in constants && constants[n] == old(constants)[n]
      ensures forall n :: n != name && n !in old(constants) ==> n !in constants
    {
      constants := constants[name := value];
    }

    /** `start`: starts from an empty dict and updates it with every child that is a dict, in order. */
    method Start(items: seq<Option<Entries<Value>>>) returns (result: Entries<Value>)
      ensures result == Merge(items)
      ensures Valid(result)
      ensures forall k :: k in Keys(result) <==>
                exists i :: 0 <= i < |items| && items[i].Some? && k in Keys(items[i].value)
    {
      result := [];
      var i := 0;
      while i < |items|
        invariant 0 <= i <= |items|
        invariant result == Merge(items[..i])
      {
        assert items[..i + 1][..i] == items[..i];
        match items[i] {
          case Some(e) => result := PutAll(result, e);
          case None =>
        }
        i := i + 1;
      }
      assert items[..i] == items;
      forall k {
        MergeKeys(items, k);
      }
    }

    /** `transform(tree)`: each top-level item in turn, then `start` over the children.
        On an error the walk stops; declarations made before it stay in the table. */
    method Transform(tree: StartNode) returns (r: Result<Entries<Value>>)
      modifies this
      ensures (r, constants) == Evaluator.Transform(old(constants), tree)
    {
      ghost var c0 := constants;
      var children: seq<Option<Entries<Value>>> := [];
      var i := 0;
      while i < |tree.items|
        invariant 0 <= i <= |tree.items|
        invariant TransformItems(c0, tree.items[..i]) == Run(Success(children), constants)
      {
        TransformItemsNext(c0, tree.items, i);
        match tree.items[i] {
          case Constant(name, v) =>
            var value := EvalValue(constants, v);
            if value.Failure? {
              FailureSticks(c0, tree.items, i + 1);
              return Failure(value.error);
            }
            Constant(name, value.value);
            children := children + [None];
          case DictItem(d) =>
            var block := EvalDict(constants, d);
            if block.Failure? {
              FailureSticks(c0, tree.items, i + 1);
              return Failure(block.error);
            }
            children := children + [Some(block.value)];
        }
        i := i + 1;
      }
      assert tree.items[..i] == tree.items;
      var merged := Start(children);
      r := Success(merged);
    }
  }
}
