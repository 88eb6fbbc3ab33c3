/** Tokens of uBasic (Apps/UBasic/tokenizer.c). */
module UbasicTokens {
  datatype Token =
    | Error | EndOfInput | Number | Str | Variable
    | Let | Print | If | Then | Else | For | To | Next | Goto | Gosub | Return | Call | Rem | Peek | Poke | End
    | Comma | Semicolon | Plus | Minus | And | Or | Astr | Slash | Mod
    | Hash | LeftParen | RightParen | Lt | Gt | Eq | Cr

  datatype Keyword = Keyword(text: string, token: Token)

  const KEYWORDS := [
    Keyword("let", Let), Keyword("print", Print), Keyword("if", If), Keyword("then", Then), Keyword("else", Else),
    Keyword("for", For), Keyword("to", To), Keyword("next", Next), Keyword("goto", Goto), Keyword("gosub", Gosub),
    Keyword("return", Return), Keyword("call", Call), Keyword("rem", Rem), Keyword("peek", Peek),
    Keyword("poke", Poke), Keyword("end", End)]

  const MAX_NUMLEN := 6

  /** A program is a C string: past its end there are zeros. */
  function At(program: string, p: nat): char {
    if p < |program| then program[p] else '\0'
  }

  predicate IsDigit(c: char) {
    '0' <= c <= '9'
  }

  predicate IsLetter(c: char) {
    'a' <= c <= 'z'
  }

  /** singlechar; Error is 0. */
  function Single(c: char): Token {
    match c
    case '\n' => Cr
    case ',' => Comma
    case ';' => Semicolon
    case '+' => Plus
    case '-' => Minus
    case '&' => And
    case '|' => Or
    case '*' => Astr
    case '/' => Slash
    case '%' => Mod
    case '(' => LeftParen
    case '#' => Hash
    case ')' => RightParen
    case '<' => Lt
    case '>' => Gt
    case '=' => Eq
    case _ => Error
  }

  /** The length of the run of digits at p. */
  function Digits(program: string, p: nat): nat
    decreases |program| - p
  {
    if p < |program| && IsDigit(program[p]) then 1 + Digits(program, p + 1) else 0
  }

  predicate Matches(program: string, p: nat, word: string) {
    p + |word| <= |program| && program[p..p + |word|] == word
  }

  lemma PartsMatch(program: string, p: nat, a: string, b: string)
    requires Matches(program, p, a + b)
    ensures Matches(program, p, a) && Matches(program, p + |a|, b)
  {
    var c := a + b;
    assert program[p..p + |c|][..|a|] == a && program[p..p + |c|][|a|..] == b;
    assert program[p..p + |a|] == program[p..p + |c|][..|a|];
    assert program[p + |a|..p + |a| + |b|] == program[p..p + |c|][|a|..];
  }

  /** The first keyword, from the i-th on, that the text at p starts with. */
  function KeywordFrom(program: string, p: nat, i: nat): (k: nat)
    requires i <= |KEYWORDS|
    ensures i <= k <= |KEYWORDS|
    ensures k < |KEYWORDS| ==> Matches(program, p, KEYWORDS[k].text)
    ensures forall j :: i <= j < k ==> !Matches(program, p, KEYWORDS[j].text)
    decreases |KEYWORDS| - i
  {
    if i == |KEYWORDS| || Matches(program, p, KEYWORDS[i].text) then i else KeywordFrom(program, p, i + 1)
  }

  /** Where the string that opens at p has its closing quote. */
  function Quote(program: string, p: nat): (q: nat)
    ensures q >= p && (q < |program| ==> program[q] == '"')
    decreases |program| - p
  {
    if p < |program| && program[p] != '"' then Quote(program, p + 1) else p
  }

  /** The token at p and its length; after an error the length is 0. */
  datatype Lexeme = Lexeme(token: Token, length: nat)

  function Lex(program: string, p: nat): Lexeme {
    var c := At(program, p);
    if c == '\0' then Lexeme(EndOfInput, 0)
    else if IsDigit(c) then
      var n := Digits(program, p);
      if n < MAX_NUMLEN then Lexeme(Number, n) else Lexeme(Error, 0)
    else if Single(c) != Error then Lexeme(Single(c), 1)
    else if c == '"' then Lexeme(Str, Quote(program, p + 1) + 1 - p)
    else LexWord(program, p)
  }

  function LexWord(program: string, p: nat): Lexeme {
    var k := KeywordFrom(program, p, 0);
    if k < |KEYWORDS| then Lexeme(KEYWORDS[k].token, |KEYWORDS[k].text|)
    else if IsLetter(At(program, p)) then Lexeme(Variable, 1)
    else Lexeme(Error, 0)
  }

  // ---------- How tokens are recognised ----------

  lemma {:induction false} DigitsRun(program: string, p: nat, n: nat)
    requires p + n <= |program| && (forall i :: p <= i < p + n ==> IsDigit(program[i])) && !IsDigit(At(program, p + n))
    ensures Digits(program, p) == n
    decreases n
  {
    if n > 0 {
      DigitsRun(program, p + 1, n - 1);
    }
  }

  lemma LexNumber(program: string, p: nat, n: nat)
    requires p + n <= |program| && (forall i :: p <= i < p + n ==> IsDigit(program[i])) && !IsDigit(At(program, p + n))
    requires 1 <= n <= 5
    ensures Lex(program, p) == Lexeme(Number, n)
  {
    DigitsRun(program, p, n);
    assert IsDigit(program[p]);
  }

  lemma NumberIsDigits(program: string, p: nat)
    requires Lex(program, p).token == Number
    ensures Lex(program, p).length == Digits(program, p)
  {
    NotNumber(program, p);
  }

  lemma NotNumber(program: string, p: nat)
    ensures LexWord(program, p).token != Number && Single(At(program, p)) != Number
  {
    var k := KeywordFrom(program, p, 0);
    if k < |KEYWORDS| {
      NoNumber(k);
    }
  }

  lemma NoNumber(k: nat)
    requires k < |KEYWORDS|
    ensures KEYWORDS[k].token != Number
  {
  }

  lemma KeywordsAreWords(k: nat)
    requires k < |KEYWORDS|
    ensures |KEYWORDS[k].text| >= 2 && IsLetter(KEYWORDS[k].text[1])
  {
  }

  lemma KeywordNeedsLetters(program: string, p: nat, k: nat)
    requires k < |KEYWORDS|
    ensures Matches(program, p, KEYWORDS[k].text) ==> IsLetter(At(program, p + 1))
  {
    KeywordsAreWords(k);
    if Matches(program, p, KEYWORDS[k].text) {
      assert program[p..p + |KEYWORDS[k].text|][1] == program[p + 1];
    }
  }

  predicate NoKeyword(program: string, p: nat) {
    forall k :: 0 <= k < |KEYWORDS| ==> !Matches(program, p, KEYWORDS[k].text)
  }

  /** A letter is a variable exactly when no keyword starts with it. What comes after the keyword
      makes no difference, so that it may be the rest of a longer word. */
  lemma LexVariable(program: string, p: nat)
    requires IsLetter(At(program, p))
    ensures Lex(program, p) == Lexeme(Variable, 1) <==> NoKeyword(program, p)
  {
    LetterIsWord(program, p);
    var k := KeywordFrom(program, p, 0);
    if k < |KEYWORDS| {
      KeywordsAreWords(k);
    }
  }

  lemma LetterIsWord(program: string, p: nat)
    requires IsLetter(At(program, p))
    ensures Lex(program, p) == LexWord(program, p)
  {
    LetterIsPlain(At(program, p));
  }

  lemma LetterIsPlain(c: char)
    requires IsLetter(c)
    ensures c != '\0' && !IsDigit(c) && Single(c) == Error && c != '"'
  {
  }

  /** So a letter that no letter follows is one. */
  lemma WordAlone(program: string, p: nat)
    requires !IsLetter(At(program, p + 1))
    ensures NoKeyword(program, p)
  {
    forall k | 0 <= k < |KEYWORDS| ensures !Matches(program, p, KEYWORDS[k].text) {
      KeywordNeedsLetters(program, p, k);
    }
  }

  /** With a letter after it, it may not be. */
  lemma LexNotVariable()
    ensures Lex("if", 0) == Lexeme(If, 2)
  {
    assert "if"[0..2] == "if" && KEYWORDS[2].text == "if";
    assert !Matches("if", 0, "let") && !Matches("if", 0, "print");
    assert KeywordFrom("if", 0, 2) == 2;
    assert KeywordFrom("if", 0, 1) == 2;
  }

  // ---------- tokenizer_next ----------

  function SkipSpaces(program: string, p: nat): (q: nat)
    ensures q >= p && At(program, q) != ' '
    decreases |program| - p
  {
    if p < |program| && program[p] == ' ' then SkipSpaces(program, p + 1) else p
  }

  lemma {:induction false} SkipRun(program: string, p: nat, n: nat)
    requires p + n <= |program| && (forall i :: p <= i < p + n ==> program[i] == ' ') && At(program, p + n) != ' '
    ensures SkipSpaces(program, p) == p + n
    decreases n
  {
    if n > 0 {
      SkipRun(program, p + 1, n - 1);
    }
  }

  function LineEnd(program: string, p: nat): (q: nat)
    ensures q >= p
    decreases |program| - p
  {
    if p < |program| && program[p] != '\n' then LineEnd(program, p + 1) else p
  }

  /** The tokenizer's variables: ptr, nextptr and current_token. */
  datatype Position = Position(ptr: nat, nextptr: nat, token: Token)

  /** A program and, by their places, its tokens. */
  datatype Source = Source(text: string, lex: nat -> Lexeme)

  /** Says that the token at p is asked for. */
  predicate Seen(p: nat) {
    true
  }

  ghost predicate IsSource(s: Source) {
    forall p {:trigger Seen(p)} :: Seen(p) ==> s.lex(p) == Lex(s.text, p)
  }

  /** get_next_token at p, with nextptr as it was. */
  function TokenAt(s: Source, p: nat, nextptr: nat): Position {
    var x := s.lex(p);
    Position(p, if x.length > 0 then p + x.length else nextptr, x.token)
  }

  /** tokenizer_next from nextptr on: comments are passed over. */
  function Advance(s: Source, nextptr: nat): Position
    requires IsSource(s)
    decreases |s.text| + 3 - nextptr
  {
    var here := TokenAt(s, SkipSpaces(s.text, nextptr), nextptr);
    if here.token == Rem then
      LexRem(s, here.ptr);
      var e := LineEnd(s.text, here.nextptr);
      Advance(s, if At(s.text, e) == '\n' then e + 1 else e)
    else here
  }

  lemma LexRem(s: Source, p: nat)
    requires IsSource(s) && s.lex(p).token == Rem
    ensures s.lex(p).length == 3 && p + 3 <= |s.text| && At(s.text, p) != '\0'
  {
    hide Digits, Quote, Single, KeywordFrom;
    assert Seen(p);
    var k := KeywordFrom(s.text, p, 0);
    NoComment(At(s.text, p), k);
  }

  lemma NoComment(c: char, k: nat)
    ensures Single(c) != Rem
    ensures k < |KEYWORDS| && KEYWORDS[k].token == Rem ==> |KEYWORDS[k].text| == 3
  {
  }
}
