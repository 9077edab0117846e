# A verified model of the configuration language of `config_lang.py`

`config_lang.py` defines a small Lisp-flavoured configuration language. Its text is a sequence of top-level
items: constant declarations `(define NAME value)` and blocks `begin name := value; ... end`. A value is a
signed integer, a double-quoted string, a nested block, or a constant use `[NAME]`. White space and
comments `(comment ... )` are skipped. A Lark grammar turns the text into a parse tree. `ConfigTransformer`
then folds the tree bottom-up, left to right, into nested Python values:

- a declaration stores its value in the transformer's `constants` table and yields nothing;
- a constant use reads the table, or raises `Undefined constant: NAME`;
- a block becomes `dict(pairs)` of its assignments;
- `start` update-merges every top-level block into one document.

This project models that core in Dafny and proves what it computes:

| module | file | models |
|---|---|---|
| `Errors` | errors.dfy | error kinds; `Option` and `Result` |
| `Messages` | messages.dfy | the text of the exception raised for each error |
| `Seqs` | seqs.dfy | the position of an element in a sequence, shared by the lexer and the dicts |
| `Dicts` | dicts.dfy | the Python `dict` operations the transformer relies on: `d[k] = v`, `d.update(e)`, `dict(pairs)`, as insertion-ordered entry lists with distinct keys |
| `Values` | values.dfy | the result values: `int`, `str`, `dict` |
| `Numbers` | numbers.dfy | `SIGNED_INT` and `int(...)` of it, with CPython's limit on the number of digits |
| `Syntax` | syntax.dfy | one datatype per grammar production |
| `Lexer` | lexer.dfy | the terminals, white space and comments |
| `Parser` | parser.dfy | a recursive-descent parser for the grammar text, and a printer whose output it reads back |
| `Evaluator` | evaluator.dfy | each transformer production as a function of the constant table, and the walk over the top-level items |
| `Transformer` | transformer.dfy | `ConfigTransformer` as a class: the `constants` field, `constant`, `start` (a loop of `update`s) and `transform` |
| `ConfigLang` | config_lang.dfy | text to document, what can go wrong for parsed text, and the repository's own examples |

The model follows the code at the points where one might expect something else:

- A string value is its token with the first and last characters dropped (`s[1:-1]`). Escape sequences stay as written.
- Integer values are unbounded, as Python `int` is, and a leading `+` is accepted. There is no fixed-width overflow. But `int(...)` of
  decimal text refuses more than 4300 digits, CPython's default limit (Python 3.11 and later, and the security releases of
  3.7 to 3.10). The sign does not count toward the limit; leading zeros do. The error is `Exceeds the limit (4300 digits)
  for integer string conversion: value has N digits; ...`.
- Redefining a constant overwrites it.
- A block with a repeated key keeps the key at its first position and gives it the last value, as `dict(pairs)` does.
- The table is created in `__init__` only. A second `transform` on the same instance sees the constants of the first.
- When a transform fails, the declarations made before the failure stay in the table.

## Model

| member | source | states |
|---|---|---|
| Dicts.Put | config_lang.py:39 | `d[k] = v` keeps the keys distinct; an existing key keeps its position and a new key goes last; `k` now maps to `v` and every other key keeps its value |
| Dicts.PutAll | config_lang.py:45 | `dict(pairs)` and `d.update(pairs)` keep the keys distinct, and a key is in the result exactly when it is in `d` or some pair names it |
| Dicts.PutAllLastWins | config_lang.py:45 | after `dict(pairs)` or `d.update(pairs)`, a key takes the value of its last pair, and keys that no pair names keep their old values |
| Dicts.PutAllKeyOrder | config_lang.py:45 | after `d.update(pairs)` the keys are those of `d` in place, then the new keys of `pairs`, each once, in order of first occurrence |
| Dicts.PutAllDistinct | config_lang.py:45 | `dict(pairs)` of pairs whose keys are already distinct is exactly those pairs, in order |
| Dicts.UpdateGet | config_lang.py:71 | after `result.update(e)`, the keys of `e` take `e`'s values and every other key keeps its value |
| Dicts.PutAllAppend | config_lang.py:71 | updating with `a` and then with `b` is the same as updating once with `a + b` |
| Dicts.Merge | config_lang.py:67-72 | the document built by the `update`s in `start` has distinct keys |
| Dicts.MergeIsUpdate | config_lang.py:67-72 | the merge in `start` equals `dict(...)` of all the blocks' entries, concatenated in order |
| Dicts.MergeKeyOrder | config_lang.py:67-72 | the document's keys appear in order of first occurrence across the blocks, each once |
| Dicts.MergeKeys | config_lang.py:67-72 | a key is in the document exactly when some block has it |
| Dicts.MergeLastWins | config_lang.py:67-72 | a key takes its value from the last block that has it |
| Numbers.ParseInt | config_lang.py:51-52 | `int()` of a `SIGNED_INT` lexeme gives its value when it has at most 4300 digits, and the digit-limit error giving its digit count when it has more; text that is not a `SIGNED_INT` lexeme is refused with the invalid-literal error naming it |
| Numbers.ParseShow | config_lang.py:51-52 | the decimal text of any integer reads back as that integer when it has at most 4300 digits, and fails with the digit-limit error otherwise |
| Numbers.SignedDigits | config_lang.py:15 | a leading `+` does not change the value and a leading `-` negates it |
| Numbers.LeadingZero | config_lang.py:51-52 | a leading zero does not change the value, but it counts toward the digit limit |
| Numbers.ShowWithinLimit | config_lang.py:51-52 | the decimal text of `n` reads back exactly when `abs(n) < 10^4300`, and then as `n` |
| Lexer.NextToken | config_lang.py:6-20 | the token read at a position is spelled by the text it consumes, and it is well formed |
| Lexer.Lex | config_lang.py:17-24 | every token produced is well formed: a name that is not a keyword, a signed integer, or a terminated string |
| Lexer.StringBodyPrefix | config_lang.py:20 | where a string token ends depends only on its own characters, not on what follows it |
| Lexer.PlainStringLexeme | config_lang.py:20 | quotes around characters that are neither a quote, a backslash nor a newline make a string token |
| Lexer.NextTokenOfSpelling | config_lang.py:6-20 | a well-formed token followed by white space is read back as the same token, with its full length |
| Lexer.LexTokenThenSpace | config_lang.py:21-22 | white space after a token is skipped, and lexing continues with the rest of the text |
| Lexer.CommentSkipped | config_lang.py:23-24 | a comment runs from `(comment` to the first `)` and contributes no token |
| Lexer.LexRender | config_lang.py:17-24 | lexing the printed text of well-formed tokens gives back exactly those tokens |
| Parser.ParseValue | config_lang.py:12-16 | `value`: a successful parse consumes a non-empty prefix; from well-formed tokens it yields a well-formed value |
| Parser.ParseAssignments | config_lang.py:8-10 | `(assignment ";")* "end"`: a successful parse consumes input; from well-formed tokens the names are names that are not keywords |
| Parser.ParseConstant | config_lang.py:6 | `constant`: a successful parse yields a declaration and consumes input; from well-formed tokens its name is a name that is not a keyword and its value is well formed |
| Parser.ParseDict | config_lang.py:8 | `dict`: a successful parse consumes input and leaves a suffix; from well-formed tokens the block is well formed |
| Parser.ParseItems | config_lang.py:4 | `(constant \| dict)*`: from well-formed tokens the items form a well-formed tree |
| Parser.Parse | config_lang.py:3-25 | a parse tree built from text is well formed |
| Parser.ValueRoundTrip | config_lang.py:12-16 | parsing the tokens of any value, followed by anything, gives back that value and the rest |
| Parser.DictRoundTrip | config_lang.py:8 | parsing the tokens of any block gives back that block |
| Parser.AssignmentsRoundTrip | config_lang.py:8-10 | parsing the tokens of any assignment list, followed by `end`, gives back that list |
| Parser.ConstantRoundTrip | config_lang.py:6 | parsing the tokens of any declaration gives back that declaration |
| Parser.ItemsRoundTrip | config_lang.py:4 | parsing the tokens of any item list gives back that list |
| Parser.ParseUnparse | config_lang.py:3-25 | parsing the printed text of any well-formed tree gives back that tree |
| Evaluator.EvalNumber | config_lang.py:51-52 | `number` succeeds exactly on `SIGNED_INT` text within the digit limit and yields an integer; otherwise it fails with the invalid-literal or the digit-limit error |
| Evaluator.NumberOfShow | config_lang.py:51-52 | `number` of the decimal text of `n` succeeds exactly when `abs(n) < 10^4300`, and then yields `n` |
| Evaluator.EvalString | config_lang.py:54-55 | `string` is the token without its first and last characters, character for character, two shorter; a token shorter than two gives `""` |
| ConfigLang.EscapesKept | config_lang.py:54-55 | the four characters `a\nb` inside quotes stay four characters: no escape is decoded |
| Evaluator.EvalConstantUsage | config_lang.py:57-61 | a name in the table yields exactly its stored value; an absent name fails with `UndefinedConstant(name)`, whose message is `Undefined constant: <name>` |
| Evaluator.EvalAssignment | config_lang.py:47-48 | `assignment` succeeds exactly when its value does, and yields `(name, value)` |
| Evaluator.EvalAssignments | config_lang.py:43-44 | on success, the pairs correspond one to one, in order, to the block's assignments |
| Evaluator.EvalDict | config_lang.py:43-45 | a block evaluates to a dict with distinct keys; under a table of well-formed values the result is well formed at every depth |
| Evaluator.EvalValue | config_lang.py:63-64 | the identity `value` production: it yields its child production's result; under a table of well-formed values a result is well formed at every depth |
| Evaluator.EvalValueSucceedsIff | config_lang.py:51-64 | a value evaluates exactly when every constant it uses, at any depth, is in the table and every number in it is `SIGNED_INT` text within the digit limit |
| Evaluator.EvalAssignmentsSucceedsIff | config_lang.py:43-48 | a block's assignments evaluate exactly when each of their values does |
| Evaluator.FirstFailingAssignment | config_lang.py:43-48 | a block's assignments fail with the error of the first assignment whose value fails; every value before it evaluates |
| Evaluator.MentionedIsDefined | config_lang.py:57-61 | when a value evaluates, every constant it mentions is in the table |
| Evaluator.UndefinedUseFails | config_lang.py:57-61 | a value that mentions an absent constant, at any depth, fails |
| Evaluator.UndefinedErrorMentioned | config_lang.py:57-61 | a value that fails with `Undefined constant: n` uses `[n]` at some depth, and the table lacks `n` |
| Evaluator.DictKeyOrder | config_lang.py:43-45 | a block's keys are its assignment names, each once, in order of first occurrence |
| Evaluator.DictLastAssignmentWins | config_lang.py:43-45 | each key of a block holds the value of the last assignment to that name |
| Evaluator.PutAllWellFormed | config_lang.py:45 | `dict(pairs)` of well-formed values is well formed |
| Evaluator.Step | config_lang.py:38-45 | one top-level item hands `start` exactly one child, and only when everything before it succeeded |
| Evaluator.TransformItems | config_lang.py:38-45 | a successful walk hands `start` one child per top-level item |
| Evaluator.Transform | config_lang.py:31-72 | a successful transform gives a document with distinct keys, and the table only gains names, never loses one |
| Evaluator.LastStep | config_lang.py:38-45 | the last item of a successful walk either sets its constant and hands `start` `None`, or leaves the table alone and hands `start` its dict |
| Evaluator.FailureSticks | config_lang.py:57-61 | once an item has failed, later items change neither the outcome nor the table |
| Evaluator.PrefixSucceeds | config_lang.py:67-70 | when a walk succeeds, every prefix of it succeeds with a prefix of its children |
| Evaluator.ChildOfItem | config_lang.py:38-45 | a declaration hands `start` `None`; a block hands it its dict, evaluated with the table as it stood just before the block |
| Evaluator.DefinedIff | config_lang.py:38-39 | after a successful walk, a name is defined exactly when it was defined before or some item declares it |
| Evaluator.StepKeys | config_lang.py:38-40 | a successful declaration adds exactly its own name to the table, and a block adds nothing |
| Evaluator.LastDeclarationWins | config_lang.py:38-39 | after a successful walk, a constant holds the value of its last declaration, evaluated with the table of that moment |
| Evaluator.UseBeforeDefinitionFails | config_lang.py:57-61 | declarations are not hoisted: in a fresh transform, an item (a block, or a declaration's own value) that uses `[n]` at any depth before any `(define n ...)` makes the transform fail |
| Evaluator.UndefinedErrorItem | config_lang.py:57-61 | a walk that fails with `Undefined constant: n` fails at an item that uses `[n]` where the table, after the items before it, lacks `n`; the walk up to that item succeeds |
| Evaluator.DocumentLastBlockWins | config_lang.py:67-72 | the document takes each key's value from the last block that has that key |
| Transformer.ConfigTransformer.constructor | config_lang.py:34-35 | the table starts empty |
| Transformer.ConfigTransformer.Constant | config_lang.py:38-40 | sets `constants[name]`, leaves every other entry as it was, and adds no other name |
| Transformer.ConfigTransformer.Start | config_lang.py:67-72 | the loop of `update`s computes the merge; the result has distinct keys; a key is in it exactly when some child dict has it |
| Transformer.ConfigTransformer.Transform | config_lang.py:31-72 | the result and the new table are those of the walk from the old table, which the `Evaluator` lemmas describe |
| ConfigLang.Load | config_lang.py:27-72 | a document loaded from text has distinct keys |
| ConfigLang.WellFormedValueErrors | config_lang.py:51-61 | a parsed value can fail only with an undefined constant or a number over the digit limit |
| ConfigLang.TransformErrorKinds | config_lang.py:51-61 | when the text parses, loading fails only with an undefined constant or a number over the digit limit |
| ConfigLang.LoadUnparse | config_lang.py:27-72 | loading the printed text of a well-formed tree equals a fresh transform of that tree |
| ConfigLang.UndefinedConstantExample | test_config.py:6-21 | starting from the parse tree of `begin size := [UNDEFINED]; end`, the transform fails with `Undefined constant: UNDEFINED` |
| ConfigLang.UndefinedConstantText | test_config.py:6-21 | loading the printed text of that tree fails with the undefined-constant error for `UNDEFINED` |
| ConfigLang.UndefinedBlockFails | config_lang.py:57-61 | a block whose one assignment uses a constant the table lacks fails with that constant's error |
| ConfigLang.DefinedConstant | test_config.py:24-37 | starting from the parse tree of `(define MAX 100)` and a block using `[MAX]`, the transform gives `{"size": 100, "name": "test"}` |
| ConfigLang.DefinedConstantText | test_config.py:24-37 | loading the printed text of that tree gives the same document |
| ConfigLang.NestedDictExample | test_config.py:40-70 | starting from the parse tree of the nested test, constants resolve two blocks down and the transform gives the nested `server` document |
| ConfigLang.NestedDictText | test_config.py:40-70 | loading the printed text of that tree gives the same document |
| ConfigLang.RedefinitionExample | config_lang.py:38-39 | `(define X 1) (define X 2)` then `a := [X]` gives `{"a": 2}` |
| ConfigLang.RepeatedKey | config_lang.py:45 | `dict([("a", 1), ("b", 2), ("a", 3)])` is `{"a": 3, "b": 2}` |
| ConfigLang.DuplicateKeyExample | config_lang.py:43-45 | `begin a := 1; b := 2; a := 3; end` gives `{"a": 3, "b": 2}` |
| ConfigLang.ReusedTransformerExample | config_lang.py:34-35 | a constant defined in one transform resolves in a later transform on the same instance; a fresh instance fails on it |

## Left out

- `cli.py` is not part of this model. It reads standard input, writes TOML through the external `toml` library, prints, and exits.
- Lark's machinery is not modelled: LALR table construction, error positions and messages, and the wrapping of the transformer's exceptions (the undefined constant, the invalid literal, the digit limit) in `VisitError`. A parse error is a plain `Result` failure that names the character or token. The undefined-constant error carries its name and message.
- Lark's contextual lexer is not modelled. Here `define`, `begin` and `end` are always keywords and never a `NAME`. Lark could accept such a word as a name where its keyword cannot appear. Lark could also split a keyword glued to the name characters after it where no `NAME` is acceptable: `(defineX 5)` declares `X` and `beginx := 1; end` is a block with key `x`. The model's lexer reads `defineX` and `beginx` as one name each, and the parser then rejects both texts.
- The regular expressions of `ESCAPED_STRING` and `WS` come from Lark's common grammar and are not among these files. The model reads a string as a quote, then any characters except a newline with a backslash taking the next character along, then a closing quote. White space is space, tab, form feed, carriage return and newline.
- Numbers.MaxStrDigits: the digit limit is fixed at CPython's default of 4300. Changing it with `sys.set_int_max_str_digits` or `PYTHONINTMAXSTRDIGITS`, and Python versions without the limit, are not modelled.
- The printed text that the `*Text` examples load is the model's own rendering of the tree, one token after another. The layout of the test files' text (line breaks, indentation) is not covered by those lemmas.
- Numbers.ParseInt: text that Python's `int()` accepts but that is not a `SIGNED_INT` lexeme (underscores between digits, surrounding white space, non-ASCII decimal digits) is refused here with the invalid-literal error, and so is such text over 4300 digits, where `int()` raises the digit-limit error. The lexer never hands `number` such text.
- Evaluator.EvalNumber: the error branch for text that is not `SIGNED_INT` is modelled, but the lexer never produces such text.
- The `None` filter in `dict` (config_lang.py:44) is not modelled: an `assignment` never yields `None`, so the filter removes nothing.
- Parser.Parse: the parser is a recursive-descent reading of the grammar text, not Lark's LALR parser. Its contract states well-formedness and the round trip with the printer. It does not state that it accepts exactly the language of Lark's parser.
- The bottom-up order in which Lark calls the transformer's methods is modelled directly as the left-to-right walk in `Evaluator.TransformItems` and `Transformer.ConfigTransformer.Transform`.
