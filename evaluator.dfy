/**
 * What `ConfigTransformer` computes, as functions of the constant table: one function
 * per production (`number`, `string`, `constant_usage`, `value`, `assignment`, `dict`),
 * and the left-to-right walk over the top-level items that `transform` performs,
 * threading the table from one item to the next.
 */
module Evaluator {
  import opened Errors
  import opened Messages
  import opened Dicts
  import opened Values
  import opened Numbers
  import opened Syntax

  /** `self.constants`: constant name to its value. */
  type Constants = map<string, Value>

  ghost predicate TableWellFormed(c: Constants)
  {
    forall n :: n in c ==> WellFormed(c[n])
  }

  /** `number`: `int(n)` of the token text. */
  function EvalNumber(lexeme: string): (r: Result<Value>)
    ensures r.Success? <==> IsSignedInt(lexeme) && DigitCount(lexeme) <= MaxStrDigits
    ensures r.Failure? && !IsSignedInt(lexeme) ==> r.error == InvalidLiteral(lexeme)
    ensures r.Failure? && IsSignedInt(lexeme) ==> r.error == TooManyDigits(DigitCount(lexeme))
    ensures r.Success? ==> r.value.Int?
  {
    var n :- ParseInt(lexeme);
    Success(Int(n))
  }

  /** `number` reads an integer back from its decimal text exactly when `|n| < 10^MaxStrDigits`:
      the digit limit is the only bound, and nothing overflows. */
  lemma NumberOfShow(n: int)
    ensures EvalNumber(Show(n)).Success? <==> (if n < 0 then -n else n) < Pow10(MaxStrDigits)
    ensures EvalNumber(Show(n)).Success? ==> EvalNumber(Show(n)).value == Int(n)
  {
    ShowWithinLimit(n);
  }

  /** `string`: the token text with its first and last characters dropped (`s[1:-1]`); escapes stay as written. */
  function EvalString(lexeme: string): (r: Value)
    ensures r.Str?
    ensures |lexeme| >= 2 ==> |r.s| == |lexeme| - 2 && forall i :: 0 <= i < |r.s| ==> r.s[i] == lexeme[i + 1]
    ensures |lexeme| < 2 ==> r.s == ""
  {
    Str(if |lexeme| >= 2 then lexeme[1..|lexeme| - 1] else "")
  }

  /** `constant_usage`: the table's value for `name`, or the undefined-constant error. */
  function EvalConstantUsage(c: Constants, name: string): (r: Result<Value>)
    ensures r.Failure? <==> name !in c
    ensures r.Failure? ==> r.error == UndefinedConstant(name) && Message(r.error) == "Undefined constant: " + name
    ensures r.Success? ==> r.value == c[name]
  {
    if name !in c then Failure(UndefinedConstant(name)) else Success(c[name])
  }

  /** `value`, together with the production it wraps. Children are evaluated left to right; the first error wins. */
  function EvalValue(c: Constants, v: ValueNode): (r: Result<Value>)
    ensures TableWellFormed(c) && r.Success? ==> WellFormed(r.value)
  {
    match v
    case Number(lexeme) => EvalNumber(lexeme)
    case StringLit(lexeme) => Success(EvalString(lexeme))
    case NestedDict(d) =>
      var e :- EvalDict(c, d);
      Success(Dict(e))
    case ConstantUsage(name) => EvalConstantUsage(c, name)
  }

  /** `assignment`: the pair `(name, value)`. */
  function EvalAssignment(c: Constants, a: Assignment): (r: Result<(string, Value)>)
    ensures r.Success? <==> EvalValue(c, a.value).Success?
    ensures r.Success? ==> r.value == (a.name, EvalValue(c, a.value).value)
  {
    var v :- EvalValue(c, a.value);
    Success((a.name, v))
  }

  /** The pairs of a block's assignments, in order, or the first error. */
  function EvalAssignments(c: Constants, asg: seq<Assignment>): (r: Result<seq<(string, Value)>>)
    ensures r.Success? ==> |r.value| == |asg|
    ensures r.Success? ==> forall i :: 0 <= i < |asg| ==>
              r.value[i].0 == asg[i].name && EvalValue(c, asg[i].value) == Success(r.value[i].1)
  {
    if asg == [] then Success([])
    else
      var p :- EvalAssignment(c, asg[0]);
      var rest :- EvalAssignments(c, asg[1..]);
      Success([p] + rest)
  }

  /** `dict`: `dict(pairs)` of the block's pairs. */
  function EvalDict(c: Constants, d: DictNode): (r: Result<Entries<Value>>)
    ensures r.Success? ==> Valid(r.value)
    ensures TableWellFormed(c) && r.Success? ==> WellFormed(Dict(r.value))
  {
    var pairs :- EvalAssignments(c, d.assignments);
    PutAllWellFormed([], pairs);
    assert TableWellFormed(c) ==> AllWellFormed(pairs);
    Success(PutAll([], pairs))
  }

  predicate AllWellFormed(e: Entries<Value>)
  {
    forall i :: 0 <= i < |e| ==> WellFormed(e[i].1)
  }

  lemma {:induction false} PutAllWellFormed(d: Entries<Value>, ps: seq<(string, Value)>)
    requires Valid(d)
    ensures AllWellFormed(d) && AllWellFormed(ps) ==> AllWellFormed(PutAll(d, ps))
    decreases |ps|
  {
    if ps != [] && AllWellFormed(d) && AllWellFormed(ps) {
      var n := |ps| - 1;
      assert AllWellFormed(ps[..n]);
      PutAllWellFormed(d, ps[..n]);
      var prev := PutAll(d, ps[..n]);
      var r := PutAll(d, ps);
      assert r == Put(prev, ps[n].0, ps[n].1);
      PutEntries(prev, ps[n].0, ps[n].1);
      forall i | 0 <= i < |r| ensures WellFormed(r[i].1) {
        if r[i] != ps[n] {
          var j :| 0 <= j < |prev| && prev[j] == r[i];
        }
      }
    }
  }

  // ---------------------------------------------------------------------------
  // When a value evaluates at all

  /** Every `[NAME]` inside `v` names a constant of `c`, and every number is a `SIGNED_INT`
      within the digit limit. */
  ghost predicate Resolvable(c: Constants, v: ValueNode)
  {
    match v
    case Number(lexeme) => IsSignedInt(lexeme) && DigitCount(lexeme) <= MaxStrDigits
    case StringLit(_) => true
    case ConstantUsage(name) => name in c
    case NestedDict(d) => forall i :: 0 <= i < |d.assignments| ==> Resolvable(c, d.assignments[i].value)
  }

  /** A value evaluates exactly when all its constants are defined and all its numbers are well formed
      and within the digit limit. */
  lemma {:induction false} EvalValueSucceedsIff(c: Constants, v: ValueNode)
    ensures EvalValue(c, v).Success? <==> Resolvable(c, v)
    decreases v, 1
  {
    match v
    case NestedDict(d) =>
      EvalAssignmentsSucceedsIff(c, d.assignments);
      assert EvalDict(c, d).Success? <==> EvalAssignments(c, d.assignments).Success?;
    case _ =>
  }

  lemma {:induction false} EvalAssignmentsSucceedsIff(c: Constants, asg: seq<Assignment>)
    ensures EvalAssignments(c, asg).Success? <==> forall i :: 0 <= i < |asg| ==> Resolvable(c, asg[i].value)
    decreases asg, 0
  {
    if asg != [] {
      EvalValueSucceedsIff(c, asg[0].value);
      EvalAssignmentsSucceedsIff(c, asg[1..]);
      assert forall i :: 1 <= i < |asg| ==> asg[i] == asg[1..][i - 1];
    }
  }

  lemma {:induction false} MentionedIsDefined(c: Constants, v: ValueNode, n: string)
    requires Resolvable(c, v) && Mentions(v, n)
    ensures n in c
    decreases v
  {
    match v
    case NestedDict(d) =>
      var i :| 0 <= i < |d.assignments| && Mentions(d.assignments[i].value, n);
      MentionedIsDefined(c, d.assignments[i].value, n);
    case _ =>
  }

  /** A value that uses a constant the table lacks, at any depth, fails. */
  lemma UndefinedUseFails(c: Constants, v: ValueNode, n: string)
    requires Mentions(v, n) && n !in c
    ensures EvalValue(c, v).Failure?
  {
    EvalValueSucceedsIff(c, v);
    if Resolvable(c, v) {
      MentionedIsDefined(c, v, n);
    }
  }

  /** A block's assignments fail with the error of the first assignment whose value fails. */
  lemma {:induction false} FirstFailingAssignment(c: Constants, asg: seq<Assignment>)
    requires EvalAssignments(c, asg).Failure?
    ensures exists i :: 0 <= i < |asg| && EvalValue(c, asg[i].value) == Failure(EvalAssignments(c, asg).error)
                        && forall j :: 0 <= j < i ==> EvalValue(c, asg[j].value).Success?
    decreases |asg|
  {
    var e := EvalAssignments(c, asg).error;
    if EvalValue(c, asg[0].value).Failure? {
      assert EvalValue(c, asg[0].value) == Failure(e);
    } else {
      var rest := asg[1..];
      assert EvalAssignments(c, rest) == Failure(e);
      FirstFailingAssignment(c, rest);
      var k :| 0 <= k < |rest| && EvalValue(c, rest[k].value) == Failure(e)
               && forall j :: 0 <= j < k ==> EvalValue(c, rest[j].value).Success?;
      assert asg[k + 1] == rest[k];
      assert forall j :: 1 <= j < k + 1 ==> asg[j] == rest[j - 1];
    }
  }

  /** An undefined-constant error names a constant that the value uses and the table lacks. */
  lemma {:induction false} UndefinedErrorMentioned(c: Constants, v: ValueNode, n: string)
    requires EvalValue(c, v) == Failure(UndefinedConstant(n))
    ensures Mentions(v, n) && n !in c
    decreases v
  {
    match v
    case NestedDict(d) =>
      assert EvalAssignments(c, d.assignments) == Failure(UndefinedConstant(n));
      FirstFailingAssignment(c, d.assignments);
      var i :| 0 <= i < |d.assignments| && EvalValue(c, d.assignments[i].value) == Failure(UndefinedConstant(n))
               && forall j :: 0 <= j < i ==> EvalValue(c, d.assignments[j].value).Success?;
      UndefinedErrorMentioned(c, d.assignments[i].value, n);
    case _ =>
  }

  // ---------------------------------------------------------------------------
  // A block: keys in first-occurrence order, the last assignment wins

  /** The keys of an evaluated block are its assignment names, each once, in order of first occurrence. */
  lemma DictKeyOrder(c: Constants, d: DictNode)
    requires EvalDict(c, d).Success?
    ensures FirstOccurrenceOrder(Keys(EvalDict(c, d).value), Names(d.assignments))
  {
    var pairs := EvalAssignments(c, d.assignments).value;
    DictIsPutAll(c, d);
    PutAllKeyOrder([], pairs);
    PairKeys(c, d.assignments);
    assert Keys<Value>([]) + Keys(pairs) == Names(d.assignments);
  }

  lemma DictIsPutAll(c: Constants, d: DictNode)
    requires EvalDict(c, d).Success?
    ensures EvalAssignments(c, d.assignments).Success?
    ensures EvalDict(c, d).value == PutAll([], EvalAssignments(c, d.assignments).value)
  {
  }

  /** The keys of a block's pairs are its assignment names. */
  lemma PairKeys(c: Constants, asg: seq<Assignment>)
    requires EvalAssignments(c, asg).Success?
    ensures Keys(EvalAssignments(c, asg).value) == Names(asg)
  {
  }

  /** Each key of an evaluated block holds the value of the last assignment to that name. */
  lemma DictLastAssignmentWins(c: Constants, d: DictNode, i: nat)
    requires EvalDict(c, d).Success?
    requires i < |d.assignments|
    requires forall j :: i < j < |d.assignments| ==> d.assignments[j].name != d.assignments[i].name
    ensures Get(EvalDict(c, d).value, d.assignments[i].name) == Some(EvalValue(c, d.assignments[i].value).value)
  {
    var pairs := EvalAssignments(c, d.assignments).value;
    PutAllLastWins([], pairs);
  }

  // ---------------------------------------------------------------------------
  // The top level

  /** The state of a `transform` after some top-level items: the children handed to `start` so far
      (`None` for a constant, the dict for a block) or the first error, and the constant table. */
  datatype Run = Run(children: Result<seq<Option<Entries<Value>>>>, constants: Constants)

  /** One top-level item: a constant extends the table and hands `start` nothing, a block hands it its dict;
      an error stops the walk, and once stopped nothing changes. */
  function Step(prev: Run, item: Item): (r: Run)
    ensures r.children.Success? ==> prev.children.Success? && |r.children.value| == |prev.children.value| + 1
  {
    if prev.children.Failure? then prev
    else
      match item
      case Constant(name, v) =>
        var r := EvalValue(prev.constants, v);
        if r.Failure? then Run(Failure(r.error), prev.constants)
        else Run(Success(prev.children.value + [None]), prev.constants[name := r.value])
      case DictItem(d) =>
        var r := EvalDict(prev.constants, d);
        if r.Failure? then Run(Failure(r.error), prev.constants)
        else Run(Success(prev.children.value + [Some(r.value)]), prev.constants)
  }

  /** Transforms the items left to right, starting from table `c`. */
  function TransformItems(c: Constants, items: seq<Item>): (r: Run)
    ensures r.children.Success? ==> |r.children.value| == |items|
    ensures c.Keys <= r.constants.Keys
    decreases |items|
  {
    if items == [] then Run(Success([]), c)
    else Step(TransformItems(c, items[..|items| - 1]), items[|items| - 1])
  }

  /** `transform(tree)` starting from table `c`: the merged document or the first error, and the table afterwards. */
  function Transform(c: Constants, tree: StartNode): (r: (Result<Entries<Value>>, Constants))
    ensures r.0.Success? ==> Valid(r.0.value)
    ensures c.Keys <= r.1.Keys
  {
    var run := TransformItems(c, tree.items);
    match run.children
    case Success(children) => (Success(Merge(children)), run.constants)
    case Failure(e) => (Failure(e), run.constants)
  }

  /** The table after items `..i`. */
  function TableBefore(c: Constants, items: seq<Item>, i: nat): Constants
    requires i <= |items|
  {
    TransformItems(c, items[..i]).constants
  }

  /** Walking one more item is one more step. */
  lemma TransformItemsNext(c: Constants, items: seq<Item>, i: nat)
    requires i < |items|
    ensures TransformItems(c, items[..i + 1]) == Step(TransformItems(c, items[..i]), items[i])
  {
    assert items[..i + 1][..i] == items[..i];
  }

  /** The last step of a successful walk. */
  lemma LastStep(c: Constants, items: seq<Item>)
    requires items != []
    requires TransformItems(c, items).children.Success?
    ensures var prev := TransformItems(c, items[..|items| - 1]);
      && prev.children.Success?
      && var run := TransformItems(c, items);
      match items[|items| - 1]
      case Constant(name, v) =>
        && EvalValue(prev.constants, v).Success?
        && run.constants == prev.constants[name := EvalValue(prev.constants, v).value]
        && run.children.value == prev.children.value + [None]
      case DictItem(d) =>
        && EvalDict(prev.constants, d).Success?
        && run.constants == prev.constants
        && run.children.value == prev.children.value + [Some(EvalDict(prev.constants, d).value)]
  {
  }

  /** Once the walk has failed, later items change nothing. */
  lemma {:induction false} FailureSticks(c: Constants, items: seq<Item>, i: nat)
    requires i <= |items|
    requires TransformItems(c, items[..i]).children.Failure?
    ensures TransformItems(c, items) == TransformItems(c, items[..i])
    decreases |items|
  {
    if i < |items| {
      var n := |items| - 1;
      assert items[..n][..i] == items[..i];
      FailureSticks(c, items[..n], i);
      var prev := TransformItems(c, items[..n]);
      assert prev.children.Failure?;
      assert TransformItems(c, items) == Step(prev, items[n]);
    } else {
      assert items[..i] == items;
    }
  }

  /** A walk that succeeds also succeeds on every prefix, and the children of the prefix are a prefix of its children. */
  lemma {:induction false} PrefixSucceeds(c: Constants, items: seq<Item>, i: nat)
    requires i <= |items|
    requires TransformItems(c, items).children.Success?
    ensures TransformItems(c, items[..i]).children.Success?
    ensures TransformItems(c, items[..i]).children.value == TransformItems(c, items).children.value[..i]
    decreases |items|
  {
    if i == |items| {
      assert items[..i] == items;
    } else {
      var n := |items| - 1;
      assert items[..n][..i] == items[..i];
      PrefixSucceeds(c, items[..n], i);
    }
  }

  /** A successful walk hands `start` `None` for each constant and, for each block, the block
      evaluated with the table as it stood just before that block. */
  lemma ChildOfItem(c: Constants, items: seq<Item>, i: nat)
    requires i < |items|
    requires TransformItems(c, items).children.Success?
    ensures items[i].Constant? ==> TransformItems(c, items).children.value[i] == None
    ensures items[i].DictItem? ==>
              && EvalDict(TableBefore(c, items, i), items[i].dict).Success?
              && TransformItems(c, items).children.value[i] == Some(EvalDict(TableBefore(c, items, i), items[i].dict).value)
  {
    PrefixSucceeds(c, items, i + 1);
    TransformItemsNext(c, items, i);
    var prev := TransformItems(c, items[..i]);
    StepChild(prev, items[i]);
    assert |prev.children.value| == i;
    assert TransformItems(c, items).children.value[i] == TransformItems(c, items[..i + 1]).children.value[i];
  }

  /** The child a successful step hands `start`. */
  lemma StepChild(prev: Run, item: Item)
    requires Step(prev, item).children.Success?
    ensures prev.children.Success?
    ensures var child := Step(prev, item).children.value[|prev.children.value|];
      match item
      case Constant(_, _) => child == None
      case DictItem(d) => EvalDict(prev.constants, d).Success? && child == Some(EvalDict(prev.constants, d).value)
  {
  }

  /** Some item of `items` is a `(define n ...)`. */
  ghost predicate Declares(items: seq<Item>, n: string)
  {
    exists j :: 0 <= j < |items| && items[j].Constant? && items[j].name == n
  }

  lemma DeclaresSnoc(items: seq<Item>, n: string)
    requires items != []
    ensures Declares(items, n) <==>
              Declares(items[..|items| - 1], n) || (items[|items| - 1].Constant? && items[|items| - 1].name == n)
  {
    var k := |items| - 1;
    if j :| 0 <= j < |items| && items[j].Constant? && items[j].name == n {
      if j < k {
        assert items[..k][j] == items[j];
      }
    }
    if j :| 0 <= j < k && items[..k][j].Constant? && items[..k][j].name == n {
      assert items[..k][j] == items[j];
    }
  }

  /** After a successful walk, a name is defined exactly when it was defined before or some item declares it. */
  lemma {:induction false} DefinedIff(c: Constants, items: seq<Item>, n: string)
    requires TransformItems(c, items).children.Success?
    ensures n in TransformItems(c, items).constants <==> n in c || Declares(items, n)
    decreases |items|
  {
    if items == [] {
      assert TransformItems(c, items).constants == c;
    } else {
      var k := |items| - 1;
      var init := items[..k];
      var prev := TransformItems(c, init);
      assert TransformItems(c, items) == Step(prev, items[k]);
      StepKeys(prev, items[k]);
      DefinedIff(c, init, n);
      DeclaresSnoc(items, n);
    }
  }

  /** A successful step defines exactly the name a declaration declares, and nothing for a block. */
  lemma StepKeys(prev: Run, item: Item)
    requires Step(prev, item).children.Success?
    ensures prev.children.Success?
    ensures Step(prev, item).constants.Keys == prev.constants.Keys + (if item.Constant? then {item.name} else {})
  {
  }

  /** After a successful walk, a constant holds the value of its last declaration, evaluated with the table of that moment. */
  lemma {:induction false} LastDeclarationWins(c: Constants, items: seq<Item>, j: nat)
    requires TransformItems(c, items).children.Success?
    requires j < |items| && items[j].Constant?
    requires forall k :: j < k < |items| ==> !(items[k].Constant? && items[k].name == items[j].name)
    ensures EvalValue(TableBefore(c, items, j), items[j].value).Success?
    ensures items[j].name in TransformItems(c, items).constants
    ensures TransformItems(c, items).constants[items[j].name] == EvalValue(TableBefore(c, items, j), items[j].value).value
    decreases |items|
  {
    var k := |items| - 1;
    if j == k {
      LastStep(c, items);
      assert items[..j] == items[..k];
    } else {
      var init := items[..k];
      assert TransformItems(c, items) == Step(TransformItems(c, init), items[k]);
      NotRedeclaredInPrefix(items, j);
      LastDeclarationWins(c, init, j);
      StepKeeps(TransformItems(c, init), items[k], items[j].name);
    }
  }

  /** Dropping the last item keeps the declaration at `j` and keeps it the last one of its name. */
  lemma NotRedeclaredInPrefix(items: seq<Item>, j: nat)
    requires j < |items| - 1 && items[j].Constant?
    requires forall k :: j < k < |items| ==> !(items[k].Constant? && items[k].name == items[j].name)
    ensures var init := items[..|items| - 1];
      && init[j] == items[j] && init[..j] == items[..j]
      && (forall m :: j < m < |init| ==> !(init[m].Constant? && init[m].name == items[j].name))
      && !(items[|items| - 1].Constant? && items[|items| - 1].name == items[j].name)
  {
    var init := items[..|items| - 1];
    forall m | j < m < |init| ensures !(init[m].Constant? && init[m].name == items[j].name) {
      assert init[m] == items[m];
    }
  }

  /** A successful step that does not declare `name` leaves its entry alone. */
  lemma StepKeeps(prev: Run, item: Item, name: string)
    requires Step(prev, item).children.Success?
    requires name in prev.constants
    requires !(item.Constant? && item.name == name)
    ensures name in Step(prev, item).constants
    ensures Step(prev, item).constants[name] == prev.constants[name]
  {
  }

  /** Definitions are not hoisted: in a fresh transform, an item that uses `[n]` before any
      `(define n ...)` makes the whole transform fail, whether the use is in a block or in the
      value of a later declaration (including `n`'s own). */
  lemma UseBeforeDefinitionFails(items: seq<Item>, i: nat, n: string)
    requires i < |items| && ItemMentions(items[i], n)
    requires forall j :: 0 <= j < i ==> !(items[j].Constant? && items[j].name == n)
    ensures Transform(map[], Start(items)).0.Failure?
  {
    if TransformItems(map[], items).children.Success? {
      PrefixSucceeds(map[], items, i + 1);
      TransformItemsNext(map[], items, i);
      var prev := TransformItems(map[], items[..i]);
      NotDeclaredNotDefined(items[..i], n);
      MentionStepFails(prev, items[i], n);
      assert false;
    }
  }

  /** After a successful fresh walk with no `(define n ...)`, `n` is not in the table. */
  lemma NotDeclaredNotDefined(items: seq<Item>, n: string)
    requires TransformItems(map[], items).children.Success?
    requires forall j :: 0 <= j < |items| ==> !(items[j].Constant? && items[j].name == n)
    ensures n !in TransformItems(map[], items).constants
  {
    DefinedIff(map[], items, n);
  }

  /** A step whose item uses a name the table lacks fails. */
  lemma MentionStepFails(prev: Run, item: Item, n: string)
    requires n !in prev.constants && ItemMentions(item, n)
    ensures Step(prev, item).children.Failure?
  {
    match item
    case Constant(_, v) => UndefinedUseFails(prev.constants, v, n);
    case DictItem(d) => UndefinedUseFails(prev.constants, NestedDict(d), n);
  }

  /** A walk that fails with an undefined constant fails at an item that uses it where the table, after the
      items before it, lacks it; every item before that one succeeded. */
  lemma {:induction false} UndefinedErrorItem(c: Constants, items: seq<Item>, n: string)
    requires TransformItems(c, items).children == Failure(UndefinedConstant(n))
    ensures exists i :: 0 <= i < |items| && ItemMentions(items[i], n) && n !in TableBefore(c, items, i)
                        && TransformItems(c, items[..i]).children.Success?
    decreases |items|
  {
    var k := |items| - 1;
    var init := items[..k];
    var prev := TransformItems(c, init);
    assert TransformItems(c, items) == Step(prev, items[k]);
    if prev.children.Failure? {
      UndefinedErrorItem(c, init, n);
      var i :| 0 <= i < |init| && ItemMentions(init[i], n) && n !in TableBefore(c, init, i)
               && TransformItems(c, init[..i]).children.Success?;
      assert init[..i] == items[..i] && init[i] == items[i];
    } else {
      assert TableBefore(c, items, k) == prev.constants;
      match items[k]
      case Constant(_, v) =>
        UndefinedErrorMentioned(prev.constants, v, n);
      case DictItem(d) =>
        assert EvalValue(prev.constants, NestedDict(d)) == Failure(UndefinedConstant(n));
        UndefinedErrorMentioned(prev.constants, NestedDict(d), n);
    }
  }

  /** The document is the update-merge of the blocks: a key takes its value from the last block that has it. */
  lemma DocumentLastBlockWins(c: Constants, items: seq<Item>, i: nat, k: string)
    requires Transform(c, Start(items)).0.Success?
    requires i < |items| && items[i].DictItem?
    requires EvalDict(TableBefore(c, items, i), items[i].dict).Success?
    requires k in Keys(EvalDict(TableBefore(c, items, i), items[i].dict).value)
    requires forall j :: i < j < |items| && items[j].DictItem? && EvalDict(TableBefore(c, items, j), items[j].dict).Success? ==>
               k !in Keys(EvalDict(TableBefore(c, items, j), items[j].dict).value)
    ensures Get(Transform(c, Start(items)).0.value, k) == Get(EvalDict(TableBefore(c, items, i), items[i].dict).value, k)
  {
    var children := TransformItems(c, items).children.value;
    assert Transform(c, Start(items)).0 == Success(Merge(children));
    forall j | 0 <= j < |items| && children[j].Some? ensures Valid(children[j].value) {
      ChildOfItem(c, items, j);
    }
    forall j | i < j < |items| && children[j].Some? ensures k !in Keys(children[j].value) {
      ChildOfItem(c, items, j);
    }
    ChildOfItem(c, items, i);
    MergeLastWins(children, i, k);
  }
}
