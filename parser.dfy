/**
 * A recursive-descent parser for the grammar, one function per production, each
 * returning the node it read and the tokens after it; and the printer that spells a
 * parse tree back out as tokens. Parsing a printed tree gives the tree back.
 */
module Parser {
  import opened Errors
  import opened Numbers
  import opened Lexer
  import opened Syntax

  /** `rest` is what is left of `ts` after a prefix was read. */
  predicate IsSuffix(rest: seq<Token>, ts: seq<Token>)
  {
    |rest| <= |ts| && rest == ts[|ts| - |rest|..]
  }

  predicate TokensWellFormed(ts: seq<Token>)
  {
    forall i :: 0 <= i < |ts| ==> WellFormedToken(ts[i])
  }

  lemma SuffixWellFormed(rest: seq<Token>, ts: seq<Token>)
    requires IsSuffix(rest, ts) && TokensWellFormed(ts)
    ensures TokensWellFormed(rest)
  {
    forall i | 0 <= i < |rest| ensures WellFormedToken(rest[i]) {
      assert rest[i] == ts[|ts| - |rest| + i];
    }
  }

  lemma SuffixTransitive(a: seq<Token>, b: seq<Token>, c: seq<Token>)
    requires IsSuffix(a, b) && IsSuffix(b, c)
    ensures IsSuffix(a, c)
  {
  }

  /** The tree a lexer's tokens can produce: names that are NAMEs and not keywords, numbers that
      are SIGNED_INTs, strings that are ESCAPED_STRINGs. */
  predicate WellFormedValue(v: ValueNode)
  {
    match v
    case Number(x) => IsSignedInt(x)
    case StringLit(x) => IsStringLexeme(x)
    case ConstantUsage(n) => IsName(n) && !IsKeyword(n)
    case NestedDict(d) => WellFormedDict(d)
  }

  predicate WellFormedDict(d: DictNode)
  {
    forall i :: 0 <= i < |d.assignments| ==> WellFormedAssignment(d.assignments[i])
  }

  predicate WellFormedAssignment(a: Assignment)
  {
    IsName(a.name) && !IsKeyword(a.name) && WellFormedValue(a.value)
  }

  predicate WellFormedItem(item: Item)
  {
    match item
    case Constant(n, v) => IsName(n) && !IsKeyword(n) && WellFormedValue(v)
    case DictItem(d) => WellFormedDict(d)
  }

  predicate WellFormedTree(tree: StartNode)
  {
    forall i :: 0 <= i < |tree.items| ==> WellFormedItem(tree.items[i])
  }

  lemma DictCons(a: Assignment, more: seq<Assignment>)
    ensures WellFormedAssignment(a) && WellFormedDict(DictNode(more)) ==> WellFormedDict(DictNode([a] + more))
  {
    if WellFormedAssignment(a) && WellFormedDict(DictNode(more)) {
      forall i | 0 <= i < |more| + 1
        ensures WellFormedAssignment(([a] + more)[i])
      {
        if i > 0 {
          assert ([a] + more)[i] == more[i - 1];
        }
      }
    }
  }

  // ---------------------------------------------------------------------------
  // Parsing

  function Expect(ts: seq<Token>, t: Token): (r: Result<seq<Token>>)
    ensures r.Success? <==> ts != [] && ts[0] == t
    ensures r.Success? ==> r.value == ts[1..]
  {
    if ts == [] then Failure(UnexpectedEnd)
    else if ts[0] != t then Failure(UnexpectedToken(Spelling(ts[0])))
    else Success(ts[1..])
  }

  /** A well-formed NAME token holds a name that is not a keyword. */
  lemma NameWellFormed(ts: seq<Token>)
    requires ts != [] && ts[0].Name?
    ensures TokensWellFormed(ts) ==> IsName(ts[0].text) && !IsKeyword(ts[0].text)
  {
    if TokensWellFormed(ts) {
      assert WellFormedToken(ts[0]);
    }
  }

  function ExpectName(ts: seq<Token>): (r: Result<(string, seq<Token>)>)
    ensures r.Success? <==> ts != [] && ts[0].Name?
    ensures r.Success? ==> r.value == (ts[0].text, ts[1..])
  {
    if ts == [] then Failure(UnexpectedEnd)
    else if !ts[0].Name? then Failure(UnexpectedToken(Spelling(ts[0])))
    else Success((ts[0].text, ts[1..]))
  }

  /** value: number | string | dict | constant_usage */
  function ParseValue(ts: seq<Token>): (r: Result<(ValueNode, seq<Token>)>)
    ensures r.Success? ==> |r.value.1| < |ts| && IsSuffix(r.value.1, ts)
    ensures r.Success? && TokensWellFormed(ts) ==> WellFormedValue(r.value.0)
    decreases |ts|, 1
  {
    if ts == [] then Failure(UnexpectedEnd)
    else
      match ts[0]
      case SignedInt(x) => Success((Number(x), ts[1..]))
      case EscapedString(x) => Success((StringLit(x), ts[1..]))
      case LBracket =>
        var name :- ExpectName(ts[1..]);
        var rest :- Expect(name.1, RBracket);
        assert rest == ts[3..];
        Success((ConstantUsage(name.0), rest))
      case Begin =>
        var d :- ParseDict(ts);
        Success((NestedDict(d.0), d.1))
      case _ => Failure(UnexpectedToken(Spelling(ts[0])))
  }

  /** dict: "begin" (assignment ";")* "end" */
  function ParseDict(ts: seq<Token>): (r: Result<(DictNode, seq<Token>)>)
    ensures r.Success? ==> |r.value.1| < |ts| && IsSuffix(r.value.1, ts)
    ensures r.Success? && TokensWellFormed(ts) ==> WellFormedDict(r.value.0)
    decreases |ts|, 0
  {
    var body :- Expect(ts, Begin);
    SuffixWellFormedIf(body, ts);
    var assignments :- ParseAssignments(body);
    Success((DictNode(assignments.0), assignments.1))
  }

  /** (assignment ";")* "end", where assignment: NAME ":=" value */
  function ParseAssignments(ts: seq<Token>): (r: Result<(seq<Assignment>, seq<Token>)>)
    ensures r.Success? ==> |r.value.1| < |ts| && IsSuffix(r.value.1, ts)
    ensures r.Success? && TokensWellFormed(ts) ==> WellFormedDict(DictNode(r.value.0))
    decreases |ts|, 0
  {
    if ts == [] then Failure(UnexpectedEnd)
    else if ts[0] == End then Success(([], ts[1..]))
    else
      var name :- ExpectName(ts);
      var afterAssign :- Expect(name.1, Assign);
      assert afterAssign == ts[2..];
      SuffixWellFormedIf(afterAssign, ts);
      var value :- ParseValue(afterAssign);
      var afterSemicolon :- Expect(value.1, Semicolon);
      SuffixTransitive(value.1, afterAssign, ts);
      SuffixWellFormedIf(afterSemicolon, value.1);
      SuffixWellFormedIf(value.1, ts);
      var more :- ParseAssignments(afterSemicolon);
      SuffixTransitive(afterSemicolon, value.1, ts);
      SuffixTransitive(more.1, afterSemicolon, ts);
      var a := Assignment(name.0, value.0);
      NameWellFormed(ts);
      DictCons(a, more.0);
      Success(([a] + more.0, more.1))
  }

  /** constant: "(" "define" NAME value ")" */
  function ParseConstant(ts: seq<Token>): (r: Result<(Item, seq<Token>)>)
    ensures r.Success? ==> |r.value.1| < |ts| && IsSuffix(r.value.1, ts)
    ensures r.Success? ==> r.value.0.Constant?
    ensures r.Success? && TokensWellFormed(ts) ==> WellFormedItem(r.value.0)
  {
    var afterParen :- Expect(ts, LParen);
    var afterDefine :- Expect(afterParen, Define);
    var name :- ExpectName(afterDefine);
    assert afterDefine == ts[2..] && name.1 == ts[3..];
    var value :- ParseValue(name.1);
    var rest :- Expect(value.1, RParen);
    ConstantWellFormed(ts, value.0);
    SuffixTransitive(value.1, name.1, ts);
    SuffixTransitive(rest, value.1, ts);
    Success((Constant(name.0, value.0), rest))
  }

  /** `( define NAME value )` from well-formed tokens gives a well-formed constant. */
  lemma ConstantWellFormed(ts: seq<Token>, v: ValueNode)
    requires |ts| >= 3 && ts[2].Name?
    requires TokensWellFormed(ts[3..]) ==> WellFormedValue(v)
    ensures TokensWellFormed(ts) ==> WellFormedItem(Constant(ts[2].text, v))
  {
    if TokensWellFormed(ts) {
      assert WellFormedToken(ts[2]);
      SuffixWellFormed(ts[3..], ts);
    }
  }

  /** (constant | dict)* up to the end of the tokens */
  function ParseItems(ts: seq<Token>): (r: Result<seq<Item>>)
    ensures r.Success? && TokensWellFormed(ts) ==> WellFormedTree(Start(r.value))
    decreases |ts|
  {
    if ts == [] then Success([])
    else if ts[0] == LParen then
      var c :- ParseConstant(ts);
      SuffixWellFormedIf(c.1, ts);
      var rest :- ParseItems(c.1);
      Success([c.0] + rest)
    else if ts[0] == Begin then
      var d :- ParseDict(ts);
      SuffixWellFormedIf(d.1, ts);
      var rest :- ParseItems(d.1);
      Success([DictItem(d.0)] + rest)
    else Failure(UnexpectedToken(Spelling(ts[0])))
  }

  /** start: (constant | dict)* */
  function ParseStart(ts: seq<Token>): (r: Result<StartNode>)
    ensures r.Success? && TokensWellFormed(ts) ==> WellFormedTree(r.value)
  {
    var items :- ParseItems(ts);
    Success(Start(items))
  }

  /** The whole front end: the text's tokens, then the tree. Trees read from text are well formed. */
  function Parse(text: string): (r: Result<StartNode>)
    ensures r.Success? ==> WellFormedTree(r.value)
  {
    var ts :- Lex(text);
    ParseStart(ts)
  }

  lemma SuffixWellFormedIf(rest: seq<Token>, ts: seq<Token>)
    requires IsSuffix(rest, ts)
    ensures TokensWellFormed(ts) ==> TokensWellFormed(rest)
  {
    if TokensWellFormed(ts) {
      SuffixWellFormed(rest, ts);
    }
  }

  // ---------------------------------------------------------------------------
  // Printing

  function ValueTokens(v: ValueNode): seq<Token>
  {
    match v
    case Number(x) => [SignedInt(x)]
    case StringLit(x) => [EscapedString(x)]
    case ConstantUsage(n) => [LBracket, Name(n), RBracket]
    case NestedDict(d) => DictTokens(d)
  }

  function DictTokens(d: DictNode): seq<Token>
  {
    [Begin] + AssignmentsTokens(d.assignments) + [End]
  }

  function AssignmentsTokens(asg: seq<Assignment>): seq<Token>
  {
    if asg == [] then []
    else [Name(asg[0].name), Assign] + ValueTokens(asg[0].value) + [Semicolon] + AssignmentsTokens(asg[1..])
  }

  function ItemTokens(item: Item): seq<Token>
  {
    match item
    case Constant(n, v) => [LParen, Define, Name(n)] + ValueTokens(v) + [RParen]
    case DictItem(d) => DictTokens(d)
  }

  function ItemsTokens(items: seq<Item>): seq<Token>
  {
    if items == [] then [] else ItemTokens(items[0]) + ItemsTokens(items[1..])
  }

  // ---------------------------------------------------------------------------
  // Round trip

  lemma {:induction false} ValueRoundTrip(v: ValueNode, rest: seq<Token>)
    ensures ParseValue(ValueTokens(v) + rest) == Success((v, rest))
    decreases v, 2
  {
    var ts := ValueTokens(v) + rest;
    match v
    case Number(x) =>
      assert ts[1..] == rest;
    case StringLit(x) =>
      assert ts[1..] == rest;
    case ConstantUsage(n) =>
      assert ts[1..][1..] == ts[2..];
      assert ts[3..] == rest;
    case NestedDict(d) =>
      DictRoundTrip(d, rest);
  }

  lemma {:induction false} DictRoundTrip(d: DictNode, rest: seq<Token>)
    ensures ParseDict(DictTokens(d) + rest) == Success((d, rest))
    decreases d, 1
  {
    var ts := DictTokens(d) + rest;
    assert ts[1..] == AssignmentsTokens(d.assignments) + [End] + rest;
    AssignmentsRoundTrip(d.assignments, rest);
  }

  lemma {:induction false} AssignmentsRoundTrip(asg: seq<Assignment>, rest: seq<Token>)
    ensures ParseAssignments(AssignmentsTokens(asg) + [End] + rest) == Success((asg, rest))
    decreases asg, 0
  {
    if asg == [] {
      NoAssignmentsRoundTrip(rest);
    } else {
      var more := AssignmentsTokens(asg[1..]) + [End] + rest;
      ValueRoundTrip(asg[0].value, [Semicolon] + more);
      AssignmentsRoundTrip(asg[1..], rest);
      AssignmentsRoundTripStep(asg, more, rest);
    }
  }

  /** One more assignment in front: the step of the round trip for assignment lists. */
  lemma AssignmentsRoundTripStep(asg: seq<Assignment>, more: seq<Token>, rest: seq<Token>)
    requires asg != [] && more == AssignmentsTokens(asg[1..]) + [End] + rest
    requires ParseValue(ValueTokens(asg[0].value) + ([Semicolon] + more)) == Success((asg[0].value, [Semicolon] + more))
    requires ParseAssignments(more) == Success((asg[1..], rest))
    ensures ParseAssignments(AssignmentsTokens(asg) + [End] + rest) == Success((asg, rest))
  {
    var ts := AssignmentsTokens(asg) + [End] + rest;
    assert |ts| >= 2 && ts[0] == Name(asg[0].name) && ts[1] == Assign
        && ParseValue(ts[2..]) == Success((asg[0].value, [Semicolon] + more)) by {
      FirstAssignmentTokens(asg, rest);
    }
    ParseAssignmentsCons(ts, asg[0], more, asg[1..], rest);
    assert [asg[0]] + asg[1..] == asg;
  }

  lemma NoAssignmentsRoundTrip(rest: seq<Token>)
    ensures ParseAssignments(AssignmentsTokens([]) + [End] + rest) == Success(([], rest))
  {
    var ts := AssignmentsTokens([]) + [End] + rest;
    assert ts == [End] + rest;
    assert ts[1..] == rest;
  }

  lemma FirstAssignmentTokens(asg: seq<Assignment>, rest: seq<Token>)
    requires asg != []
    ensures var ts := AssignmentsTokens(asg) + [End] + rest;
      && |ts| >= 2 && ts[0] == Name(asg[0].name) && ts[1] == Assign
      && ts[2..] == ValueTokens(asg[0].value) + ([Semicolon] + (AssignmentsTokens(asg[1..]) + [End] + rest))
  {
    var head, v, t := [Name(asg[0].name), Assign], ValueTokens(asg[0].value), AssignmentsTokens(asg[1..]);
    assert AssignmentsTokens(asg) == head + v + [Semicolon] + t;
    var tail := v + ([Semicolon] + (t + [End] + rest));
    Regroup(head, v, [Semicolon], t, [End], rest);
    assert (head + tail)[2..] == tail;
  }

  lemma Regroup4<T>(a: seq<T>, b: seq<T>, c: seq<T>, d: seq<T>)
    ensures a + b + c + d == a + (b + (c + d))
  {
  }

  lemma Regroup<T>(a: seq<T>, b: seq<T>, c: seq<T>, d: seq<T>, e: seq<T>, f: seq<T>)
    ensures a + b + c + d + e + f == a + (b + (c + (d + e + f)))
  {
  }

  /** One assignment read, then the rest of the block. */
  lemma ParseAssignmentsCons(ts: seq<Token>, a: Assignment, more: seq<Token>, tail: seq<Assignment>, rest: seq<Token>)
    requires |ts| >= 2 && ts[0] == Name(a.name) && ts[1] == Assign
    requires ParseValue(ts[2..]) == Success((a.value, [Semicolon] + more))
    requires ParseAssignments(more) == Success((tail, rest))
    ensures ParseAssignments(ts) == Success(([a] + tail, rest))
  {
    assert ts[1..][1..] == ts[2..];
    assert ([Semicolon] + more)[1..] == more;
  }

  lemma ConstantRoundTrip(n: string, v: ValueNode, rest: seq<Token>)
    ensures ParseConstant(ItemTokens(Constant(n, v)) + rest) == Success((Constant(n, v), rest))
  {
    var ts := ItemTokens(Constant(n, v)) + rest;
    Regroup4([LParen, Define, Name(n)], ValueTokens(v), [RParen], rest);
    assert ts == [LParen, Define, Name(n)] + (ValueTokens(v) + ([RParen] + rest));
    assert ts[1..][1..] == ts[2..];
    assert ts[2..][1..] == ts[3..];
    assert ts[3..] == ValueTokens(v) + ([RParen] + rest);
    ValueRoundTrip(v, [RParen] + rest);
    assert ([RParen] + rest)[1..] == rest;
  }

  lemma {:induction false} ItemsRoundTrip(items: seq<Item>)
    ensures ParseItems(ItemsTokens(items)) == Success(items)
    decreases |items|
  {
    if items != [] {
      var ts := ItemsTokens(items);
      var rest := ItemsTokens(items[1..]);
      ItemsRoundTrip(items[1..]);
      assert [items[0]] + items[1..] == items;
      assert ts == ItemTokens(items[0]) + rest;
      match items[0]
      case Constant(n, v) =>
        ConstantRoundTrip(n, v, rest);
        assert ts[0] == LParen && ParseConstant(ts) == Success((items[0], rest));
      case DictItem(d) =>
        DictRoundTrip(d, rest);
        assert ts[0] == Begin && ParseDict(ts) == Success((d, rest));
    }
  }

  /** Parsing the printed tokens of any tree gives back the tree. */
  lemma StartRoundTrip(tree: StartNode)
    ensures ParseStart(ItemsTokens(tree.items)) == Success(tree)
  {
    ItemsRoundTrip(tree.items);
  }

  // ---------------------------------------------------------------------------
  // From text

  lemma {:induction false} ValueTokensWellFormed(v: ValueNode)
    requires WellFormedValue(v)
    ensures TokensWellFormed(ValueTokens(v))
    decreases v, 2
  {
    match v
    case NestedDict(d) => DictTokensWellFormed(d);
    case _ =>
  }

  lemma {:induction false} DictTokensWellFormed(d: DictNode)
    requires WellFormedDict(d)
    ensures TokensWellFormed(DictTokens(d))
    decreases d, 1
  {
    AssignmentsTokensWellFormed(d, 0);
  }

  lemma {:induction false} AssignmentsTokensWellFormed(d: DictNode, k: nat)
    requires WellFormedDict(d) && k <= |d.assignments|
    ensures TokensWellFormed(AssignmentsTokens(d.assignments[k..]))
    decreases d, 0, |d.assignments| - k
  {
    if k < |d.assignments| {
      var a := d.assignments[k];
      ValueTokensWellFormed(a.value);
      AssignmentsTokensWellFormed(d, k + 1);
      assert d.assignments[k..][1..] == d.assignments[k + 1..];
    }
  }

  lemma {:induction false} ItemsTokensWellFormed(items: seq<Item>)
    requires forall i :: 0 <= i < |items| ==> WellFormedItem(items[i])
    ensures TokensWellFormed(ItemsTokens(items))
    decreases |items|
  {
    if items != [] {
      ItemsTokensWellFormed(items[1..]);
      match items[0]
      case Constant(n, v) => ValueTokensWellFormed(v);
      case DictItem(d) => DictTokensWellFormed(d);
    }
  }

  /** The text of a well-formed tree: its tokens, each followed by a space. */
  function Unparse(tree: StartNode): string
  {
    Render(ItemsTokens(tree.items))
  }

  /** Reading back the text of a well-formed tree gives the tree. */
  lemma ParseUnparse(tree: StartNode)
    requires WellFormedTree(tree)
    ensures Parse(Unparse(tree)) == Success(tree)
  {
    ItemsTokensWellFormed(tree.items);
    LexRender(ItemsTokens(tree.items));
    StartRoundTrip(tree);
  }
}
