/**
 * The whole pipeline, text to document, as a fresh `ConfigTransformer` applied to the
 * parse of a text; what it means for texts the parser accepts; and the examples
 * that the repository's tests pin down.
 */
module ConfigLang {
  import opened Errors
  import opened Messages
  import opened Dicts
  import opened Values
  import opened Numbers
  import opened Syntax
  import opened Lexer
  import opened Parser
  import opened Evaluator

  /** `ConfigTransformer().transform(make_parser().parse(text))`: the document, or the first error. */
  function Load(text: string): (r: Result<Entries<Value>>)
    ensures r.Success? ==> Valid(r.value)
  {
    var tree :- Parse(text);
    Transform(map[], tree).0
  }

  lemma {:induction false} WellFormedValueErrors(c: Constants, v: ValueNode)
    requires WellFormedValue(v)
    ensures EvalValue(c, v).Failure? ==> EvalValue(c, v).error.UndefinedConstant? || EvalValue(c, v).error.TooManyDigits?
    decreases v, 1
  {
    match v
    case Number(x) =>
    case NestedDict(d) => WellFormedAssignmentsErrors(c, d.assignments);
    case _ =>
  }

  lemma {:induction false} WellFormedAssignmentsErrors(c: Constants, asg: seq<Assignment>)
    requires forall i :: 0 <= i < |asg| ==> WellFormedAssignment(asg[i])
    ensures EvalAssignments(c, asg).Failure? ==>
              EvalAssignments(c, asg).error.UndefinedConstant? || EvalAssignments(c, asg).error.TooManyDigits?
    decreases asg, 0
  {
    if asg != [] {
      assert WellFormedAssignment(asg[0]);
      WellFormedValueErrors(c, asg[0].value);
      assert forall i :: 0 <= i < |asg| - 1 ==> asg[1..][i] == asg[i + 1];
      WellFormedAssignmentsErrors(c, asg[1..]);
    }
  }

  lemma {:induction false} WellFormedItemsErrors(c: Constants, items: seq<Item>)
    requires forall i :: 0 <= i < |items| ==> WellFormedItem(items[i])
    ensures TransformItems(c, items).children.Failure? ==>
              TransformItems(c, items).children.error.UndefinedConstant? || TransformItems(c, items).children.error.TooManyDigits?
    decreases |items|
  {
    if items != [] {
      var n := |items| - 1;
      WellFormedItemsErrors(c, items[..n]);
      var prev := TransformItems(c, items[..n]);
      assert WellFormedItem(items[n]);
      match items[n]
      case Constant(name, v) => WellFormedValueErrors(prev.constants, v);
      case DictItem(d) => WellFormedAssignmentsErrors(prev.constants, d.assignments);
    }
  }

  /** For a text the parser accepts, the transform fails only on an undefined constant or on a
      number with more digits than `int()` accepts: it never meets an invalid literal. */
  lemma TransformErrorKinds(text: string)
    requires Parse(text).Success?
    requires Load(text).Failure?
    ensures Load(text).error.UndefinedConstant? || Load(text).error.TooManyDigits?
  {
    var tree := Parse(text).value;
    WellFormedItemsErrors(map[], tree.items);
  }

  /** Printing a well-formed tree and loading the text is transforming the tree with a fresh table. */
  lemma LoadUnparse(tree: StartNode)
    requires WellFormedTree(tree)
    ensures Load(Unparse(tree)) == Transform(map[], tree).0
  {
    ParseUnparse(tree);
  }

  // ---------------------------------------------------------------------------
  // Examples

  /** The string `"a\nb"` gives the four characters `a`, backslash, `n`, `b`: escapes are kept, not decoded. */
  lemma EscapesKept()
    ensures EvalString("\"a\\nb\"") == Str("a\\nb")
    ensures |EvalString("\"a\\nb\"").s| == 4
  {
    assert "\"a\\nb\""[1..5] == "a\\nb";
  }

  /** A walk over one, two or three items is that many steps from the empty walk. */
  lemma RunOfOne(c: Constants, a: Item)
    ensures TransformItems(c, [a]) == Step(Run(Success([]), c), a)
  {
    assert [a][..0] == [];
  }

  lemma RunOfTwo(c: Constants, a: Item, b: Item)
    ensures TransformItems(c, [a, b]) == Step(Step(Run(Success([]), c), a), b)
  {
    assert [a, b][..1] == [a];
    RunOfOne(c, a);
  }

  lemma RunOfThree(c: Constants, a: Item, b: Item, d: Item)
    ensures TransformItems(c, [a, b, d]) == Step(Step(Step(Run(Success([]), c), a), b), d)
  {
    assert [a, b, d][..2] == [a, b];
    RunOfTwo(c, a, b);
  }

  lemma TransformSnoc(c: Constants, items: seq<Item>, x: Item)
    ensures TransformItems(c, items + [x]) == Step(TransformItems(c, items), x)
  {
    assert (items + [x])[..|items|] == items;
  }

  lemma {:induction false} MergeNothing(items: seq<Option<Entries<Value>>>)
    requires forall i :: 0 <= i < |items| ==> items[i].None?
    ensures Merge(items) == []
    decreases |items|
  {
    if items != [] {
      MergeNothing(items[..|items| - 1]);
    }
  }

  /** Constants hand `start` nothing, so a document of constants and then one block is that block. */
  lemma MergeOneBlock(items: seq<Option<Entries<Value>>>, e: Entries<Value>)
    requires forall i :: 0 <= i < |items| ==> items[i].None?
    requires Valid(e)
    ensures Merge(items + [Some(e)]) == e
  {
    assert (items + [Some(e)])[..|items|] == items;
    MergeNothing(items);
    PutAllDistinct(e);
  }

  lemma AssignmentsOfOne(c: Constants, a: Assignment)
    ensures EvalAssignments(c, [a]) ==
              if EvalAssignment(c, a).Failure? then Failure(EvalAssignment(c, a).error)
              else Success([EvalAssignment(c, a).value])
  {
    assert [a][1..] == [];
    if EvalAssignment(c, a).Success? {
      assert [EvalAssignment(c, a).value] + [] == [EvalAssignment(c, a).value];
    }
  }

  lemma AssignmentsOfTwo(c: Constants, a: Assignment, b: Assignment)
    requires EvalAssignment(c, a).Success? && EvalAssignment(c, b).Success?
    ensures EvalAssignments(c, [a, b]) == Success([EvalAssignment(c, a).value, EvalAssignment(c, b).value])
  {
    assert [a, b][1..] == [b];
    AssignmentsOfOne(c, b);
    assert [EvalAssignment(c, a).value] + [EvalAssignment(c, b).value]
        == [EvalAssignment(c, a).value, EvalAssignment(c, b).value];
  }

  lemma AssignmentsOfThree(c: Constants, a: Assignment, b: Assignment, d: Assignment)
    requires EvalAssignment(c, a).Success? && EvalAssignment(c, b).Success? && EvalAssignment(c, d).Success?
    ensures EvalAssignments(c, [a, b, d])
         == Success([EvalAssignment(c, a).value, EvalAssignment(c, b).value, EvalAssignment(c, d).value])
  {
    assert [a, b, d][1..] == [b, d];
    AssignmentsOfTwo(c, b, d);
    assert [EvalAssignment(c, a).value] + [EvalAssignment(c, b).value, EvalAssignment(c, d).value]
        == [EvalAssignment(c, a).value, EvalAssignment(c, b).value, EvalAssignment(c, d).value];
  }

  /** The value productions on lexemes whose meaning is known. */
  lemma NumberValue(c: Constants, lexeme: string, n: int)
    requires ParseInt(lexeme) == Success(n)
    ensures EvalValue(c, Number(lexeme)) == Success(Int(n))
  {
  }

  lemma StringValue(c: Constants, lexeme: string, s: string)
    requires lexeme == "\"" + s + "\""
    ensures EvalValue(c, StringLit(lexeme)) == Success(Str(s))
  {
    assert lexeme[1..|lexeme| - 1] == s;
  }

  /** A block whose assignments give pairs with distinct names is the dict of those pairs, in order. */
  lemma BlockValue(c: Constants, d: DictNode, pairs: Entries<Value>)
    requires EvalAssignments(c, d.assignments) == Success(pairs)
    requires Valid(pairs)
    ensures EvalDict(c, d) == Success(pairs)
    ensures EvalValue(c, NestedDict(d)) == Success(Dict(pairs))
  {
    PutAllDistinct(pairs);
  }

  lemma PairsOfTwo(c: Constants, asg: seq<Assignment>, x: Value, y: Value)
    requires |asg| == 2
    requires EvalValue(c, asg[0].value) == Success(x) && EvalValue(c, asg[1].value) == Success(y)
    ensures EvalAssignments(c, asg) == Success([(asg[0].name, x), (asg[1].name, y)])
  {
    assert asg == [asg[0], asg[1]];
    AssignmentsOfTwo(c, asg[0], asg[1]);
  }

  lemma PairsOfThree(c: Constants, asg: seq<Assignment>, x: Value, y: Value, z: Value)
    requires |asg| == 3
    requires EvalValue(c, asg[0].value) == Success(x) && EvalValue(c, asg[1].value) == Success(y)
    requires EvalValue(c, asg[2].value) == Success(z)
    ensures EvalAssignments(c, asg) == Success([(asg[0].name, x), (asg[1].name, y), (asg[2].name, z)])
  {
    assert asg == [asg[0], asg[1], asg[2]];
    AssignmentsOfThree(c, asg[0], asg[1], asg[2]);
  }

  /** A constant declaration whose value evaluates extends the table and hands `start` nothing. */
  lemma DeclarationStep(prev: Run, name: string, v: ValueNode, x: Value)
    requires prev.children.Success?
    requires EvalValue(prev.constants, v) == Success(x)
    ensures Step(prev, Constant(name, v)) == Run(Success(prev.children.value + [None]), prev.constants[name := x])
  {
  }

  /** Constant declarations that succeed, then one block: the document is that block's dict. */
  lemma ConstantsThenBlock(c: Constants, prefix: seq<Item>, block: DictNode)
    requires TransformItems(c, prefix).children.Success?
    requires forall i :: 0 <= i < |prefix| ==> TransformItems(c, prefix).children.value[i].None?
    requires EvalDict(TransformItems(c, prefix).constants, block).Success?
    ensures Transform(c, Start(prefix + [DictItem(block)])).0
         == Success(EvalDict(TransformItems(c, prefix).constants, block).value)
  {
    var run := TransformItems(c, prefix);
    var e := EvalDict(run.constants, block).value;
    TransformSnoc(c, prefix, DictItem(block));
    assert Step(run, DictItem(block)) == Run(Success(run.children.value + [Some(e)]), run.constants);
    MergeOneBlock(run.children.value, e);
  }

  /** A document that is one block. */
  lemma OnlyBlock(c: Constants, tree: StartNode)
    requires |tree.items| == 1 && tree.items[0].DictItem?
    requires EvalDict(c, tree.items[0].dict).Success?
    ensures Transform(c, tree).0 == Success(EvalDict(c, tree.items[0].dict).value)
  {
    ConstantsThenBlock(c, [], tree.items[0].dict);
    assert [] + [tree.items[0]] == tree.items;
  }

  lemma ParseSmall()
    ensures ParseInt("1") == Success(1) && ParseInt("2") == Success(2) && ParseInt("3") == Success(3)
  {
    assert "1"[..0] == "" && "2"[..0] == "" && "3"[..0] == "";
  }

  lemma Parse30()
    ensures ParseInt("30") == Success(30)
  {
    assert "30"[..1] == "3" && "3"[..0] == "";
  }

  lemma Parse100()
    ensures ParseInt("100") == Success(100)
  {
    assert "100"[..2] == "10" && "10"[..1] == "1" && "1"[..0] == "";
  }

  lemma Parse8080()
    ensures ParseInt("8080") == Success(8080)
  {
    assert "8080"[..3] == "808" && "808"[..2] == "80" && "80"[..1] == "8" && "8"[..0] == "";
  }

  /** `(define MAX 100) begin size := [MAX]; name := "test"; end` gives `{"size": 100, "name": "test"}`. */
  lemma DefinedConstant(define: Item, block: DictNode)
    requires define == Constant("MAX", Number("100"))
    requires block == DictNode([Assignment("size", ConstantUsage("MAX")), Assignment("name", StringLit("\"test\""))])
    ensures Transform(map[], Start([define, DictItem(block)])).0 == Success([("size", Int(100)), ("name", Str("test"))])
  {
    var c1: Constants := map["MAX" := Int(100)];
    MaxDeclaration(define);
    TestBlock(c1, block);
    OneDeclarationThenBlock(map[], define, block, c1, EvalDict(c1, block).value);
  }

  lemma MaxDeclaration(define: Item)
    requires define == Constant("MAX", Number("100"))
    ensures TransformItems(map[], [define]) == Run(Success([None]), map["MAX" := Int(100)])
  {
    Parse100();
    NumberValue(map[], define.value.lexeme, 100);
    RunOfOne(map[], define);
    DeclarationStep(Run(Success([]), map[]), "MAX", define.value, Int(100));
    var none: Option<Entries<Value>> := None;
    assert [] + [none] == [none];
  }

  lemma TestBlock(c: Constants, block: DictNode)
    requires c == map["MAX" := Int(100)]
    requires block == DictNode([Assignment("size", ConstantUsage("MAX")), Assignment("name", StringLit("\"test\""))])
    ensures EvalDict(c, block) == Success([("size", Int(100)), ("name", Str("test"))])
  {
    assert "\"test\"" == "\"" + "test" + "\"";
    StringValue(c, block.assignments[1].value.lexeme, "test");
    PairsOfTwo(c, block.assignments, Int(100), Str("test"));
    BlockValue(c, block, [("size", Int(100)), ("name", Str("test"))]);
  }

  lemma OneDeclarationThenBlock(c: Constants, a: Item, block: DictNode, c1: Constants, e: Entries<Value>)
    requires TransformItems(c, [a]) == Run(Success([None]), c1)
    requires EvalDict(c1, block) == Success(e)
    ensures Transform(c, Start([a, DictItem(block)])).0 == Success(e)
  {
    ConstantsThenBlock(c, [a], block);
    assert [a] + [DictItem(block)] == [a, DictItem(block)];
  }

  /** `begin size := [UNDEFINED]; end` fails with `Undefined constant: UNDEFINED`. */
  lemma UndefinedConstantExample(block: DictNode)
    requires block == DictNode([Assignment("size", ConstantUsage("UNDEFINED"))])
    ensures Transform(map[], Start([DictItem(block)])).0 == Failure(UndefinedConstant("UNDEFINED"))
    ensures Message(Transform(map[], Start([DictItem(block)])).0.error) == "Undefined constant: UNDEFINED"
  {
    UndefinedBlockFails(map[], block.assignments[0]);
  }

  /** The undefined-constant test read from the printed text of its tree, through the lexer and the parser. */
  lemma UndefinedConstantText(block: DictNode)
    requires block == DictNode([Assignment("size", ConstantUsage("UNDEFINED"))])
    ensures Load(Unparse(Start([DictItem(block)]))) == Failure(UndefinedConstant("UNDEFINED"))
  {
    UndefinedConstantExample(block);
    UndefinedConstantWellFormed();
    LoadUnparse(Start([DictItem(block)]));
  }

  lemma UndefinedConstantWellFormed()
    ensures WellFormedTree(Start([DictItem(DictNode([Assignment("size", ConstantUsage("UNDEFINED"))]))]))
  {
    assert IsName("size") && !IsKeyword("size") && IsName("UNDEFINED") && !IsKeyword("UNDEFINED");
    OneAssignmentWellFormed(Assignment("size", ConstantUsage("UNDEFINED")));
  }

  /** The `database` block of the nested example, which uses no constant. */
  lemma DatabaseBlock(c: Constants, database: DictNode)
    requires database == DictNode([Assignment("name", StringLit("\"mydb\"")), Assignment("timeout", Number("30"))])
    ensures EvalValue(c, NestedDict(database)) == Success(Dict([("name", Str("mydb")), ("timeout", Int(30))]))
  {
    Parse30();
    assert "\"mydb\"" == "\"" + "mydb" + "\"";
    StringValue(c, database.assignments[0].value.lexeme, "mydb");
    NumberValue(c, database.assignments[1].value.lexeme, 30);
    PairsOfTwo(c, database.assignments, Str("mydb"), Int(30));
    BlockValue(c, database, [("name", Str("mydb")), ("timeout", Int(30))]);
  }

  /** The `server` block of the nested example, under a table holding `HOST` and `PORT`. */
  lemma ServerBlock(c: Constants, server: DictNode)
    requires c == map["PORT" := Int(8080), "HOST" := Str("localhost")]
    requires server == DictNode([
               Assignment("host", ConstantUsage("HOST")),
               Assignment("port", ConstantUsage("PORT")),
               Assignment("database", NestedDict(DictNode([
                 Assignment("name", StringLit("\"mydb\"")),
                 Assignment("timeout", Number("30"))])))])
    ensures EvalValue(c, NestedDict(server))
         == Success(Dict([("host", Str("localhost")), ("port", Int(8080)),
                          ("database", Dict([("name", Str("mydb")), ("timeout", Int(30))]))]))
  {
    var database := Dict([("name", Str("mydb")), ("timeout", Int(30))]);
    var pairs := [("host", Str("localhost")), ("port", Int(8080)), ("database", database)];
    DatabaseBlock(c, server.assignments[2].value.dict);
    UsageValue(c, "HOST", Str("localhost"));
    UsageValue(c, "PORT", Int(8080));
    PairsOfThree(c, server.assignments, Str("localhost"), Int(8080), database);
    ThreeKeys(pairs[0], pairs[1], pairs[2]);
    assert [pairs[0], pairs[1], pairs[2]] == pairs;
    BlockValue(c, server, pairs);
  }

  lemma UsageValue(c: Constants, name: string, x: Value)
    requires name in c && c[name] == x
    ensures EvalValue(c, ConstantUsage(name)) == Success(x)
  {
  }

  lemma ThreeKeys<V>(a: (string, V), b: (string, V), d: (string, V))
    requires a.0 != b.0 && a.0 != d.0 && b.0 != d.0
    ensures Valid([a, b, d])
  {
    assert Keys([a, b, d]) == [a.0, b.0, d.0];
  }

  /** `(define PORT 8080) (define HOST "localhost") begin server := begin host := [HOST]; port := [PORT];
      database := begin name := "mydb"; timeout := 30; end; end; end`: constants resolve two levels down. */
  lemma NestedDictExample(port: Item, host: Item, block: DictNode)
    requires port == Constant("PORT", Number("8080"))
    requires host == Constant("HOST", StringLit("\"localhost\""))
    requires block == DictNode([Assignment("server", NestedDict(DictNode([
               Assignment("host", ConstantUsage("HOST")),
               Assignment("port", ConstantUsage("PORT")),
               Assignment("database", NestedDict(DictNode([
                 Assignment("name", StringLit("\"mydb\"")),
                 Assignment("timeout", Number("30"))])))])))])
    ensures Transform(map[], Start([port, host, DictItem(block)])).0
         == Success([("server", Dict([
              ("host", Str("localhost")),
              ("port", Int(8080)),
              ("database", Dict([("name", Str("mydb")), ("timeout", Int(30))]))]))])
  {
    var c2: Constants := map["PORT" := Int(8080), "HOST" := Str("localhost")];
    NestedDeclarations(port, host);
    NestedOuter(c2, block);
    TwoDeclarationsThenBlock(map[], port, host, block, c2, EvalDict(c2, block).value);
  }

  lemma TwoDeclarationsThenBlock(c: Constants, a: Item, b: Item, block: DictNode, c2: Constants, e: Entries<Value>)
    requires TransformItems(c, [a, b]) == Run(Success([None, None]), c2)
    requires EvalDict(c2, block) == Success(e)
    ensures Transform(c, Start([a, b, DictItem(block)])).0 == Success(e)
  {
    ConstantsThenBlock(c, [a, b], block);
    assert [a, b] + [DictItem(block)] == [a, b, DictItem(block)];
  }

  lemma NestedDeclarations(port: Item, host: Item)
    requires port == Constant("PORT", Number("8080"))
    requires host == Constant("HOST", StringLit("\"localhost\""))
    ensures TransformItems(map[], [port, host]) == Run(Success([None, None]), map["PORT" := Int(8080), "HOST" := Str("localhost")])
  {
    var c1: Constants := map["PORT" := Int(8080)];
    var c2: Constants := map["PORT" := Int(8080), "HOST" := Str("localhost")];
    var none: Option<Entries<Value>> := None;
    Parse8080();
    NumberValue(map[], port.value.lexeme, 8080);
    assert "\"localhost\"" == "\"" + "localhost" + "\"";
    StringValue(c1, host.value.lexeme, "localhost");
    RunOfTwo(map[], port, host);
    DeclarationStep(Run(Success([]), map[]), "PORT", port.value, Int(8080));
    assert map[]["PORT" := Int(8080)] == c1 && [] + [none] == [none];
    assert Step(Run(Success([]), map[]), port) == Run(Success([none]), c1);
    DeclarationStep(Run(Success([none]), c1), "HOST", host.value, Str("localhost"));
    assert c1["HOST" := Str("localhost")] == c2 && [none] + [none] == [none, none];
  }

  lemma NestedOuter(c: Constants, block: DictNode)
    requires c == map["PORT" := Int(8080), "HOST" := Str("localhost")]
    requires block == DictNode([Assignment("server", NestedDict(DictNode([
               Assignment("host", ConstantUsage("HOST")),
               Assignment("port", ConstantUsage("PORT")),
               Assignment("database", NestedDict(DictNode([
                 Assignment("name", StringLit("\"mydb\"")),
                 Assignment("timeout", Number("30"))])))])))])
    ensures EvalDict(c, block)
         == Success([("server", Dict([
              ("host", Str("localhost")),
              ("port", Int(8080)),
              ("database", Dict([("name", Str("mydb")), ("timeout", Int(30))]))]))])
  {
    var server := Dict([("host", Str("localhost")), ("port", Int(8080)),
                        ("database", Dict([("name", Str("mydb")), ("timeout", Int(30))]))]);
    ServerBlock(c, block.assignments[0].value.dict);
    AssignmentsOfOne(c, block.assignments[0]);
    assert block.assignments == [block.assignments[0]];
    BlockValue(c, block, [("server", server)]);
  }

  /** The defined-constant test read from the printed text of its tree, through the lexer and the parser. */
  lemma DefinedConstantText(define: Item, block: DictNode)
    requires define == Constant("MAX", Number("100"))
    requires block == DictNode([Assignment("size", ConstantUsage("MAX")), Assignment("name", StringLit("\"test\""))])
    ensures Load(Unparse(Start([define, DictItem(block)]))) == Success([("size", Int(100)), ("name", Str("test"))])
  {
    DefinedConstant(define, block);
    DefinedConstantWellFormed();
    LoadUnparse(Start([define, DictItem(block)]));
  }

  /** The nested-dict test read from the printed text of its tree, through the lexer and the parser. */
  lemma NestedDictText(port: Item, host: Item, block: DictNode)
    requires port == Constant("PORT", Number("8080"))
    requires host == Constant("HOST", StringLit("\"localhost\""))
    requires block == DictNode([Assignment("server", NestedDict(DictNode([
               Assignment("host", ConstantUsage("HOST")),
               Assignment("port", ConstantUsage("PORT")),
               Assignment("database", NestedDict(DictNode([
                 Assignment("name", StringLit("\"mydb\"")),
                 Assignment("timeout", Number("30"))])))])))])
    ensures Load(Unparse(Start([port, host, DictItem(block)])))
         == Success([("server", Dict([
              ("host", Str("localhost")),
              ("port", Int(8080)),
              ("database", Dict([("name", Str("mydb")), ("timeout", Int(30))]))]))])
  {
    NestedDictExample(port, host, block);
    NestedDictWellFormed();
    LoadUnparse(Start([port, host, DictItem(block)]));
  }

  /** `(define X 1) (define X 2) begin a := [X]; end`: the later definition is the one in effect. */
  lemma RedefinitionExample(one: Item, two: Item, block: DictNode)
    requires one == Constant("X", Number("1"))
    requires two == Constant("X", Number("2"))
    requires block == DictNode([Assignment("a", ConstantUsage("X"))])
    ensures Transform(map[], Start([one, two, DictItem(block)])).0 == Success([("a", Int(2))])
  {
    var c2: Constants := map["X" := Int(2)];
    Redeclarations(one, two);
    UseX(c2, block, Int(2));
    TwoDeclarationsThenBlock(map[], one, two, block, c2, [("a", Int(2))]);
  }

  lemma Redeclarations(one: Item, two: Item)
    requires one == Constant("X", Number("1"))
    requires two == Constant("X", Number("2"))
    ensures TransformItems(map[], [one, two]) == Run(Success([None, None]), map["X" := Int(2)])
  {
    ParseSmall();
    NumberValue(map[], one.value.lexeme, 1);
    NumberValue(map["X" := Int(1)], two.value.lexeme, 2);
    RunOfTwo(map[], one, two);
    DeclarationStep(Run(Success([]), map[]), "X", one.value, Int(1));
    DeclarationStep(Run(Success([None]), map["X" := Int(1)]), "X", two.value, Int(2));
    assert map["X" := Int(1)]["X" := Int(2)] == map["X" := Int(2)];
    var none: Option<Entries<Value>> := None;
    assert [] + [none] == [none] && [none] + [none] == [none, none];
  }

  /** `begin a := [X]; end` under a table holding `X`. */
  lemma UseX(c: Constants, block: DictNode, x: Value)
    requires "X" in c && c["X"] == x
    requires block == DictNode([Assignment("a", ConstantUsage("X"))])
    ensures EvalDict(c, block) == Success([("a", x)])
  {
    AssignmentsOfOne(c, block.assignments[0]);
    BlockValue(c, block, [("a", x)]);
  }

  /** `dict([("a", 1), ("b", 2), ("a", 3)])` is `{"a": 3, "b": 2}`. */
  lemma RepeatedKey()
    ensures PutAll([], [("a", Int(1)), ("b", Int(2)), ("a", Int(3))]) == [("a", Int(3)), ("b", Int(2))]
  {
    RepeatedFirstKey(("a", Int(1)), ("b", Int(2)), ("a", Int(3)));
  }

  lemma RepeatedFirstKey<V>(x: (string, V), y: (string, V), z: (string, V))
    requires x.0 == z.0 && x.0 != y.0
    ensures PutAll([], [x, y, z]) == [z, y]
  {
    var first := [x, y];
    calc {
      PutAll([], [x, y, z]);
      { assert [x, y, z] == first + [z]; }
      PutAll([], first + [z]);
      { PutAllSnoc([], first, z); }
      Put(PutAll([], first), z.0, z.1);
      { TwoKeys(x, y); PutAllDistinct(first); }
      Put(first, x.0, z.1);
      { FirstReplaced(x, y, z.1); }
      [(x.0, z.1), y];
    }
  }

  lemma TwoKeys<V>(x: (string, V), y: (string, V))
    requires x.0 != y.0
    ensures Valid([x, y])
  {
    assert Keys([x, y]) == [x.0, y.0];
  }

  lemma FirstReplaced<V>(x: (string, V), y: (string, V), v: V)
    requires Valid([x, y])
    ensures Put([x, y], x.0, v) == [(x.0, v), y]
  {
    PutExisting([x, y], 0, v);
  }

  /** `begin a := 1; b := 2; a := 3; end`: `a` keeps its first position and takes its last value. */
  lemma DuplicateKeyExample(block: DictNode)
    requires block == DictNode([Assignment("a", Number("1")), Assignment("b", Number("2")), Assignment("a", Number("3"))])
    ensures Transform(map[], Start([DictItem(block)])).0 == Success([("a", Int(3)), ("b", Int(2))])
  {
    DuplicateBlock(block);
    OnlyBlock(map[], Start([DictItem(block)]));
  }

  lemma DuplicateBlock(block: DictNode)
    requires block == DictNode([Assignment("a", Number("1")), Assignment("b", Number("2")), Assignment("a", Number("3"))])
    ensures EvalDict(map[], block) == Success([("a", Int(3)), ("b", Int(2))])
  {
    ParseSmall();
    NumberValue(map[], block.assignments[0].value.lexeme, 1);
    NumberValue(map[], block.assignments[1].value.lexeme, 2);
    NumberValue(map[], block.assignments[2].value.lexeme, 3);
    PairsOfThree(map[], block.assignments, Int(1), Int(2), Int(3));
    RepeatedKey();
  }

  /** One transformer used twice keeps its table: a constant defined by the first text resolves in the
      second, where a fresh transformer fails. */
  lemma ReusedTransformerExample(define: Item, block: DictNode)
    requires define == Constant("X", Number("1"))
    requires block == DictNode([Assignment("a", ConstantUsage("X"))])
    ensures Transform(map[], Start([define])) == (Success([]), map["X" := Int(1)])
    ensures Transform(map["X" := Int(1)], Start([DictItem(block)])).0 == Success([("a", Int(1))])
    ensures Transform(map[], Start([DictItem(block)])).0 == Failure(UndefinedConstant("X"))
  {
    XDeclared(define);
    UseX(map["X" := Int(1)], block, Int(1));
    OnlyBlock(map["X" := Int(1)], Start([DictItem(block)]));
    XUndefined(block);
  }

  lemma XDeclared(define: Item)
    requires define == Constant("X", Number("1"))
    ensures Transform(map[], Start([define])) == (Success([]), map["X" := Int(1)])
  {
    ParseSmall();
    NumberValue(map[], define.value.lexeme, 1);
    RunOfOne(map[], define);
    DeclarationStep(Run(Success([]), map[]), "X", define.value, Int(1));
    MergeNothing([None]);
  }

  lemma XUndefined(block: DictNode)
    requires block == DictNode([Assignment("a", ConstantUsage("X"))])
    ensures Transform(map[], Start([DictItem(block)])).0 == Failure(UndefinedConstant("X"))
  {
    UndefinedBlockFails(map[], block.assignments[0]);
  }

  /** A block whose one assignment uses a constant the table lacks fails with that constant's error. */
  lemma UndefinedBlockFails(c: Constants, a: Assignment)
    requires a.value.ConstantUsage? && a.value.name !in c
    ensures Transform(c, Start([DictItem(DictNode([a]))])).0 == Failure(UndefinedConstant(a.value.name))
  {
    var block := DictNode([a]);
    var err := UndefinedConstant(a.value.name);
    RunOfOne(c, DictItem(block));
    AssignmentsOfOne(c, a);
    assert EvalValue(c, a.value) == Failure(err);
    assert EvalAssignment(c, a) == Failure(err);
    assert EvalDict(c, block) == Failure(err);
    assert TransformItems(c, [DictItem(block)]).children == Failure(err);
  }

  // ---------------------------------------------------------------------------
  // Proof helpers for the examples read from text: facts about the literal names, numbers, strings and
  // small sequences of the examples, each stated on its own so that each proof stays small.

  lemma DefinedConstantWellFormed()
    ensures WellFormedTree(Start([Constant("MAX", Number("100")),
              DictItem(DictNode([Assignment("size", ConstantUsage("MAX")), Assignment("name", StringLit("\"test\""))]))]))
  {
    DefinedConstantWords();
    TestStrings();
    TwoAssignmentsWellFormed(Assignment("size", ConstantUsage("MAX")), Assignment("name", StringLit("\"test\"")));
    TwoItemsWellFormed(Constant("MAX", Number("100")),
      DictItem(DictNode([Assignment("size", ConstantUsage("MAX")), Assignment("name", StringLit("\"test\""))])));
  }

  lemma NestedDictWellFormed()
    ensures WellFormedTree(Start([Constant("PORT", Number("8080")), Constant("HOST", StringLit("\"localhost\"")),
              DictItem(DictNode([Assignment("server", NestedDict(DictNode([
                Assignment("host", ConstantUsage("HOST")),
                Assignment("port", ConstantUsage("PORT")),
                Assignment("database", NestedDict(DictNode([
                  Assignment("name", StringLit("\"mydb\"")),
                  Assignment("timeout", Number("30"))])))])))]))]))
  {
    NestedDictWords();
    TestStrings();
    var database := DictNode([Assignment("name", StringLit("\"mydb\"")), Assignment("timeout", Number("30"))]);
    TwoAssignmentsWellFormed(database.assignments[0], database.assignments[1]);
    var server := DictNode([
      Assignment("host", ConstantUsage("HOST")), Assignment("port", ConstantUsage("PORT")), Assignment("database", NestedDict(database))]);
    ThreeAssignmentsWellFormed(server.assignments[0], server.assignments[1], server.assignments[2]);
    var block := DictNode([Assignment("server", NestedDict(server))]);
    OneAssignmentWellFormed(block.assignments[0]);
    ThreeItemsWellFormed(Constant("PORT", Number("8080")), Constant("HOST", StringLit("\"localhost\"")), DictItem(block));
  }

  lemma DefinedConstantWords()
    ensures IsName("MAX") && !IsKeyword("MAX") && IsSignedInt("100")
    ensures IsName("size") && !IsKeyword("size") && IsName("name") && !IsKeyword("name")
  {
  }

  lemma NestedDictWords()
    ensures IsName("PORT") && !IsKeyword("PORT") && IsName("HOST") && !IsKeyword("HOST")
    ensures IsName("server") && !IsKeyword("server") && IsName("host") && !IsKeyword("host")
    ensures IsName("port") && !IsKeyword("port") && IsName("database") && !IsKeyword("database")
    ensures IsName("name") && !IsKeyword("name") && IsName("timeout") && !IsKeyword("timeout")
    ensures IsSignedInt("8080") && IsSignedInt("30")
  {
    NestedDictUpperWords();
    NestedDictLowerWords();
  }

  lemma NestedDictUpperWords()
    ensures IsName("PORT") && !IsKeyword("PORT") && IsName("HOST") && !IsKeyword("HOST")
    ensures IsSignedInt("8080") && IsSignedInt("30")
  {
  }

  lemma NestedDictLowerWords()
    ensures IsName("server") && !IsKeyword("server") && IsName("host") && !IsKeyword("host")
    ensures IsName("port") && !IsKeyword("port") && IsName("database") && !IsKeyword("database")
    ensures IsName("name") && !IsKeyword("name") && IsName("timeout") && !IsKeyword("timeout")
  {
  }

  lemma TestStrings()
    ensures IsStringLexeme("\"test\"") && IsStringLexeme("\"mydb\"") && IsStringLexeme("\"localhost\"")
  {
    QuotedTest();
    QuotedMydb();
    QuotedLocalhost();
  }

  lemma QuotedTest()
    ensures IsStringLexeme("\"test\"")
  {
    PlainStringLexeme("test");
    assert "\"" + "test" + "\"" == "\"test\"";
  }

  lemma QuotedMydb()
    ensures IsStringLexeme("\"mydb\"")
  {
    PlainStringLexeme("mydb");
    assert "\"" + "mydb" + "\"" == "\"mydb\"";
  }

  lemma QuotedLocalhost()
    ensures IsStringLexeme("\"localhost\"")
  {
    PlainStringLexeme("localhost");
    assert "\"" + "localhost" + "\"" == "\"localhost\"";
  }

  lemma OneAssignmentWellFormed(a: Assignment)
    requires WellFormedAssignment(a)
    ensures WellFormedDict(DictNode([a]))
  {
  }

  lemma TwoAssignmentsWellFormed(a: Assignment, b: Assignment)
    requires WellFormedAssignment(a) && WellFormedAssignment(b)
    ensures WellFormedDict(DictNode([a, b]))
  {
  }

  lemma ThreeAssignmentsWellFormed(a: Assignment, b: Assignment, d: Assignment)
    requires WellFormedAssignment(a) && WellFormedAssignment(b) && WellFormedAssignment(d)
    ensures WellFormedDict(DictNode([a, b, d]))
  {
  }

  lemma TwoItemsWellFormed(a: Item, b: Item)
    requires WellFormedItem(a) && WellFormedItem(b)
    ensures WellFormedTree(Start([a, b]))
  {
  }

  lemma ThreeItemsWellFormed(a: Item, b: Item, d: Item)
    requires WellFormedItem(a) && WellFormedItem(b) && WellFormedItem(d)
    ensures WellFormedTree(Start([a, b, d]))
  {
  }
}
