/**
 * The terminals of the grammar and a lexer for them. At each position the longest
 * match wins: a comment `(comment ... )` before a plain `(`, a whole word before a
 * keyword, which a word equal to `define`, `begin` or `end` then becomes. White
 * space and comments are skipped; a comment ends at the first `)` after its start.
 */
module Lexer {
  import opened Errors
  import opened Numbers
  import opened Seqs

  datatype Token =
    | LParen | RParen | Define | Begin | End | Semicolon | Assign | LBracket | RBracket
    | Name(text: string)            // NAME
    | SignedInt(text: string)       // SIGNED_INT
    | EscapedString(text: string)   // ESCAPED_STRING, quotes included

  /** The text of a token as it is written. */
  function Spelling(t: Token): string
  {
    match t
    case LParen => "("
    case RParen => ")"
    case Define => "define"
    case Begin => "begin"
    case End => "end"
    case Semicolon => ";"
    case Assign => ":="
    case LBracket => "["
    case RBracket => "]"
    case Name(x) => x
    case SignedInt(x) => x
    case EscapedString(x) => x
  }

  predicate IsWhitespace(c: char)
  {
    c == ' ' || c == '\t' || c == '\U{C}' || c == '\r' || c == '\n'
  }

  predicate IsLetter(c: char)
  {
    ('a' <= c <= 'z') || ('A' <= c <= 'Z')
  }

  predicate IsNameChar(c: char)
  {
    IsLetter(c) || IsDigit(c) || c == '_'
  }

  /** NAME: a letter, then letters, digits or `_`. */
  predicate IsName(s: string)
  {
    |s| > 0 && IsLetter(s[0]) && forall i :: 0 <= i < |s| ==> IsNameChar(s[i])
  }

  predicate IsKeyword(s: string)
  {
    s == "define" || s == "begin" || s == "end"
  }

  /** The number of characters of the body of an ESCAPED_STRING at the start of `s`, closing quote
      included: any character but a newline, a backslash taking the next one with it; `None` if unterminated. */
  function StringBodyLength(s: string): (r: Option<nat>)
    ensures r.Some? ==> 0 < r.value <= |s| && s[r.value - 1] == '"'
    decreases |s|
  {
    if s == [] || s[0] == '\n' then None
    else if s[0] == '"' then Some(1)
    else if s[0] == '\\' then
      if |s| < 2 || s[1] == '\n' then None
      else
        match StringBodyLength(s[2..])
        case None => None
        case Some(n) => Some(n + 2)
    else
      match StringBodyLength(s[1..])
      case None => None
      case Some(n) => Some(n + 1)
  }

  /** ESCAPED_STRING: a double quote, a body, a closing double quote, nothing after. */
  predicate IsStringLexeme(s: string)
  {
    |s| >= 2 && s[0] == '"' && StringBodyLength(s[1..]) == Some(|s| - 1)
  }

  /** A quote, characters other than a quote, a backslash or a newline, and a quote: an ESCAPED_STRING. */
  lemma PlainStringLexeme(body: string)
    requires forall i :: 0 <= i < |body| ==> body[i] != '"' && body[i] != '\\' && body[i] != '\n'
    ensures IsStringLexeme("\"" + body + "\"")
  {
    PlainStringBody(body);
    assert ("\"" + body + "\"")[1..] == body + "\"";
  }

  lemma {:induction false} PlainStringBody(body: string)
    requires forall i :: 0 <= i < |body| ==> body[i] != '"' && body[i] != '\\' && body[i] != '\n'
    ensures StringBodyLength(body + "\"") == Some(|body| + 1)
    decreases |body|
  {
    if body != [] {
      assert (body + "\"")[1..] == body[1..] + "\"";
      PlainStringBody(body[1..]);
    }
  }

  /** The tokens a lexer produces: words that are names and not keywords, signed integers, strings. */
  predicate WellFormedToken(t: Token)
  {
    match t
    case Name(x) => IsName(x) && !IsKeyword(x)
    case SignedInt(x) => IsSignedInt(x)
    case EscapedString(x) => IsStringLexeme(x)
    case _ => true
  }

  /** The length of the run of name characters at the start of `s`. */
  function NameLength(s: string): (n: nat)
    ensures n <= |s|
    ensures forall i :: 0 <= i < n ==> IsNameChar(s[i])
    ensures n < |s| ==> !IsNameChar(s[n])
    decreases |s|
  {
    if s != [] && IsNameChar(s[0]) then 1 + NameLength(s[1..]) else 0
  }

  /** The length of the run of digits at the start of `s`. */
  function DigitsLength(s: string): (n: nat)
    ensures n <= |s|
    ensures forall i :: 0 <= i < n ==> IsDigit(s[i])
    ensures n < |s| ==> !IsDigit(s[n])
    decreases |s|
  {
    if s != [] && IsDigit(s[0]) then 1 + DigitsLength(s[1..]) else 0
  }

  const CommentStart: string := "(comment"

  /** COMMENT: `(comment`, then anything but `)`, then `)`. The length of the comment at the start of `s`, if there is one. */
  function CommentLength(s: string): (r: Option<nat>)
    ensures r.Some? ==> |CommentStart| < r.value <= |s|
  {
    if |s| >= |CommentStart| && s[..|CommentStart|] == CommentStart && ')' in s[|CommentStart|..] then
      Some(|CommentStart| + IndexOf(s[|CommentStart|..], ')') + 1)
    else None
  }

  /** The token at the start of `s` (which starts neither with white space nor with a comment) and its length. */
  function NextToken(s: string): (r: Result<(Token, nat)>)
    requires s != []
    ensures r.Success? ==> 0 < r.value.1 <= |s| && Spelling(r.value.0) == s[..r.value.1]
    ensures r.Success? ==> WellFormedToken(r.value.0)
  {
    var c := s[0];
    if c == '(' then Success((LParen, 1))
    else if c == ')' then Success((RParen, 1))
    else if c == ';' then Success((Semicolon, 1))
    else if c == '[' then Success((LBracket, 1))
    else if c == ']' then Success((RBracket, 1))
    else if c == ':' && |s| >= 2 && s[1] == '=' then Success((Assign, 2))
    else if IsLetter(c) then Success(NextWord(s))
    else if IsDigit(c) || (IsSign(c) && |s| >= 2 && IsDigit(s[1])) then Success(NextNumber(s))
    else if c == '"' then NextString(s)
    else Failure(UnexpectedCharacter(c))
  }

  /** A whole word: a keyword if it spells one, a NAME otherwise. */
  function NextWord(s: string): (r: (Token, nat))
    requires s != [] && IsLetter(s[0])
    ensures 0 < r.1 <= |s| && Spelling(r.0) == s[..r.1] && WellFormedToken(r.0)
  {
    var n := NameLength(s);
    var word := s[..n];
    if word == "define" then (Define, n)
    else if word == "begin" then (Begin, n)
    else if word == "end" then (End, n)
    else (Name(word), n)
  }

  /** SIGNED_INT: an optional sign, then as many digits as there are. */
  function NextNumber(s: string): (r: (Token, nat))
    requires s != [] && (IsDigit(s[0]) || (IsSign(s[0]) && |s| >= 2 && IsDigit(s[1])))
    ensures 0 < r.1 <= |s| && Spelling(r.0) == s[..r.1] && WellFormedToken(r.0)
  {
    if IsDigit(s[0]) then
      var n := DigitsLength(s);
      (SignedInt(s[..n]), n)
    else
      var n := 1 + DigitsLength(s[1..]);
      assert s[..n][1..] == s[1..][..n - 1];
      (SignedInt(s[..n]), n)
  }

  /** ESCAPED_STRING, or the opening quote as an unexpected character when the string is not terminated. */
  function NextString(s: string): (r: Result<(Token, nat)>)
    requires s != [] && s[0] == '"'
    ensures r.Success? ==> 0 < r.value.1 <= |s| && Spelling(r.value.0) == s[..r.value.1] && WellFormedToken(r.value.0)
  {
    match StringBodyLength(s[1..])
    case None => Failure(UnexpectedCharacter('"'))
    case Some(n) =>
      assert s[..n + 1][1..] == s[1..][..n];
      StringBodyPrefix(s[1..], n, []);
      assert s[1..][..n] + [] == s[1..][..n];
      Success((EscapedString(s[..n + 1]), n + 1))
  }

  /** The tokens of a text, white space and comments skipped, or the first character no terminal matches. */
  function Lex(s: string): (r: Result<seq<Token>>)
    ensures r.Success? ==> forall i :: 0 <= i < |r.value| ==> WellFormedToken(r.value[i])
    decreases |s|
  {
    if s == [] then Success([])
    else if IsWhitespace(s[0]) then Lex(s[1..])
    else if CommentLength(s).Some? then Lex(s[CommentLength(s).value..])
    else
      var next :- NextToken(s);
      var rest :- Lex(s[next.1..]);
      Success([next.0] + rest)
  }

  /** A string body is recognised from its own characters: what follows it does not matter. */
  lemma {:induction false} StringBodyPrefix(s: string, n: nat, t: string)
    requires StringBodyLength(s) == Some(n)
    ensures StringBodyLength(s[..n] + t) == Some(n)
    decreases |s|
  {
    var u := s[..n] + t;
    assert u[0] == s[0];
    if s[0] == '"' {
    } else if s[0] == '\\' {
      assert u[1] == s[1];
      StringBodyPrefix(s[2..], n - 2, t);
      assert s[2..][..n - 2] + t == u[2..];
    } else {
      StringBodyPrefix(s[1..], n - 1, t);
      assert s[1..][..n - 1] + t == u[1..];
    }
  }

  lemma {:induction false} NameLengthOfWord(w: string, rest: string)
    requires forall i :: 0 <= i < |w| ==> IsNameChar(w[i])
    requires rest == [] || !IsNameChar(rest[0])
    ensures NameLength(w + rest) == |w|
    decreases |w|
  {
    if w != [] {
      assert (w + rest)[1..] == w[1..] + rest;
      NameLengthOfWord(w[1..], rest);
    } else {
      assert w + rest == rest;
    }
  }

  lemma {:induction false} DigitsLengthOfDigits(w: string, rest: string)
    requires forall i :: 0 <= i < |w| ==> IsDigit(w[i])
    requires rest == [] || !IsDigit(rest[0])
    ensures DigitsLength(w + rest) == |w|
    decreases |w|
  {
    if w != [] {
      assert (w + rest)[1..] == w[1..] + rest;
      DigitsLengthOfDigits(w[1..], rest);
    } else {
      assert w + rest == rest;
    }
  }

  lemma NextWordOfSpelling(w: string, rest: string)
    requires IsName(w)
    ensures NextWord(w + " " + rest).1 == |w|
    ensures NextWord(w + " " + rest).0 == if IsKeyword(w) then (if w == "define" then Define else if w == "begin" then Begin else End) else Name(w)
  {
    var s := w + " " + rest;
    assert s == w + (" " + rest);
    NameLengthOfWord(w, " " + rest);
    assert s[..|w|] == w;
  }

  lemma NextNumberOfSpelling(x: string, rest: string)
    requires IsSignedInt(x)
    ensures NextNumber(x + " " + rest) == (SignedInt(x), |x|)
  {
    var s := x + " " + rest;
    assert s == x + (" " + rest);
    assert s[..|x|] == x;
    if IsDigits(x) {
      DigitsLengthOfDigits(x, " " + rest);
    } else {
      assert s[1..] == x[1..] + (" " + rest);
      DigitsLengthOfDigits(x[1..], " " + rest);
    }
  }

  lemma NextStringOfSpelling(x: string, rest: string)
    requires IsStringLexeme(x)
    ensures NextString(x + " " + rest) == Success((EscapedString(x), |x|))
  {
    var s := x + " " + rest;
    assert s[1..] == x[1..] + (" " + rest);
    assert x[1..][..|x| - 1] == x[1..];
    StringBodyPrefix(x[1..], |x| - 1, " " + rest);
    assert s[..|x|] == x;
  }

  /** A well-formed token followed by a space is read back as that token. */
  lemma NextTokenOfSpelling(t: Token, rest: string)
    requires WellFormedToken(t)
    ensures NextToken(Spelling(t) + " " + rest) == Success((t, |Spelling(t)|))
  {
    var w := Spelling(t);
    var s := w + " " + rest;
    assert s[0] == w[0];
    if t.Name? || t.Define? || t.Begin? || t.End? {
      WordOfSpelling(t, rest);
    } else if t.SignedInt? {
      NextNumberOfSpelling(t.text, rest);
      assert IsDigit(s[0]) || (IsSign(s[0]) && |s| >= 2 && IsDigit(s[1]));
      assert NextToken(s) == Success(NextNumber(s));
    } else if t.EscapedString? {
      NextStringOfSpelling(t.text, rest);
      assert NextToken(s) == NextString(s);
    } else if t.Assign? {
      assert s[1] == '=';
    }
  }

  /** A word token followed by a space is read back as that token. */
  lemma WordOfSpelling(t: Token, rest: string)
    requires t.Name? || t.Define? || t.Begin? || t.End?
    requires WellFormedToken(t)
    ensures NextToken(Spelling(t) + " " + rest) == Success((t, |Spelling(t)|))
  {
    var w := Spelling(t);
    var s := w + " " + rest;
    assert s[0] == w[0];
    assert IsName(w);
    NextWordOfSpelling(w, rest);
    if t.Name? {
      assert !IsKeyword(w);
    }
    assert NextWord(s) == (t, |w|);
    assert IsLetter(s[0]);
    assert NextToken(s) == Success(NextWord(s));
  }

  /** A text spelled from tokens, each followed by a space. */
  function Render(ts: seq<Token>): string
  {
    if ts == [] then "" else Spelling(ts[0]) + " " + Render(ts[1..])
  }

  /** A well-formed token and a space: the lexer reads the token, then goes on with the rest. */
  lemma LexTokenThenSpace(t: Token, rest: string)
    requires WellFormedToken(t)
    ensures Lex(Spelling(t) + " " + rest) ==
              match Lex(rest)
              case Success(ts) => Success([t] + ts)
              case Failure(e) => Failure(e)
  {
    var w := Spelling(t);
    var s := w + " " + rest;
    NextTokenOfSpelling(t, rest);
    NoCommentAtToken(t, rest);
    assert s[|w|..] == " " + rest;
    assert (" " + rest)[1..] == rest;
  }

  /** A token followed by a space never starts a comment: a `(` is followed by the space. */
  lemma NoCommentAtToken(t: Token, rest: string)
    requires WellFormedToken(t)
    ensures Spelling(t) != [] && !IsWhitespace((Spelling(t) + " " + rest)[0])
    ensures CommentLength(Spelling(t) + " " + rest) == None
  {
    var w := Spelling(t);
    var s := w + " " + rest;
    assert s[0] == w[0];
    if t == LParen {
      assert s[1] == ' ';
      assert |s| >= |CommentStart| ==> s[..|CommentStart|][1] != CommentStart[1];
    } else {
      assert w[0] != '(';
      assert |s| >= |CommentStart| ==> s[..|CommentStart|][0] != CommentStart[0];
    }
  }

  /** Lexing the rendering of well-formed tokens gives back those tokens. */
  lemma {:induction false} LexRender(ts: seq<Token>)
    requires forall i :: 0 <= i < |ts| ==> WellFormedToken(ts[i])
    ensures Lex(Render(ts)) == Success(ts)
    decreases |ts|
  {
    if ts != [] {
      LexRender(ts[1..]);
      LexTokenThenSpace(ts[0], Render(ts[1..]));
      assert [ts[0]] + ts[1..] == ts;
    }
  }

  /** A comment runs to the first `)` after `(comment`, whatever comes before that, `(` included, and is skipped. */
  lemma CommentSkipped(body: string, rest: string)
    requires ')' !in body
    ensures Lex(CommentStart + body + ")" + rest) == Lex(rest)
  {
    var s := CommentStart + body + ")" + rest;
    assert s[..|CommentStart|] == CommentStart;
    var tail := s[|CommentStart|..];
    assert tail == body + ")" + rest;
    assert tail[|body|] == ')';
    assert IndexOf(tail, ')') == |body|;
    assert s[|CommentStart| + |body| + 1..] == rest;
  }
}
