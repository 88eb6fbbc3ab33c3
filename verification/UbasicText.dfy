/** Texts of uBasic programs written token by token (Apps/UBasic/tokenizer.c). The tokenizer reads back the
    tokens that were written, and passes over the comments. */
module UbasicText {
  import opened UbasicTokens
  import opened UbasicTokenizer

  datatype Item =
    | Digits(text: string) | Letter(name: char) | Word(text: string) | Quoted(inside: string) | Sign(c: char)
    | Remark(text: string)

  const DIGITS := "0123456789"
  const LETTERS := "abcdefghijklmnopqrstuvwxyz"
  const SIGNS := "\n,;+-&|*/%(#)<>="

  predicate Good(x: Item) {
    match x
    case Digits(text) => 1 <= |text| <= 5 && forall i :: 0 <= i < |text| ==> text[i] in DIGITS
    case Letter(name) => name in LETTERS
    case Word(text) => Meaning(text) != Error
    case Quoted(inside) => '"' !in inside
    case Sign(c) => c in SIGNS
    case Remark(text) => '\n' !in text
  }

  function Meaning(word: string): Token {
    if word == "let" then Let else if word == "print" then Print else if word == "if" then If
    else if word == "then" then Then else if word == "else" then Else else if word == "for" then For
    else if word == "to" then To else if word == "next" then Next else if word == "goto" then Goto
    else if word == "gosub" then Gosub else if word == "return" then Return else if word == "call" then Call
    else if word == "peek" then Peek else if word == "poke" then Poke else if word == "end" then End else Error
  }

  function SignToken(c: char): Token {
    if c == '\n' then Cr else if c == ',' then Comma else if c == ';' then Semicolon else if c == '+' then Plus
    else if c == '-' then Minus else if c == '&' then And else if c == '|' then Or else if c == '*' then Astr
    else if c == '/' then Slash else if c == '%' then Mod else if c == '(' then LeftParen else if c == '#' then Hash
    else if c == ')' then RightParen else if c == '<' then Lt else if c == '>' then Gt else Eq
  }

  function TokenOf(x: Item): Token {
    match x
    case Digits(_) => Number
    case Letter(_) => Variable
    case Word(text) => Meaning(text)
    case Quoted(_) => Str
    case Sign(c) => SignToken(c)
    case Remark(_) => Rem
  }

  function Spelled(x: Item): (s: string)
  {
    match x
    case Digits(text) => text
    case Letter(name) => [name]
    case Word(text) => text
    case Quoted(inside) => "\"" + inside + "\""
    case Sign(c) => [c]
    case Remark(text) => "rem" + text
  }

  /** A space goes after every token, and the end of the line after a comment. */
  function Written(items: seq<Item>): string {
    if items == [] then ""
    else Spelled(items[0]) + (if items[0].Remark? then "\n" else " ") + Written(items[1..])
  }

  function Tokens(items: seq<Item>): seq<Token> {
    if items == [] then []
    else (if items[0].Remark? then [] else [TokenOf(items[0])]) + Tokens(items[1..])
  }

  // ---------- One token ----------

  lemma MatchAt(program: string, p: nat, s: string, i: nat)
    requires Matches(program, p, s) && i < |s|
    ensures p + i < |program| && program[p + i] == s[i]
  {
    assert program[p..p + |s|][i] == program[p + i];
  }

  lemma DigitChars(c: char)
    ensures c in DIGITS <==> IsDigit(c)
  {
  }

  lemma LetterChars(c: char)
    ensures c in LETTERS <==> IsLetter(c)
  {
  }

  lemma SignChars(c: char)
    requires c in SIGNS
    ensures !IsDigit(c) && c != ' ' && c != '\0'
    ensures Single(c) == SignToken(c) && Single(c) != Error && Single(c) != Rem
  {
  }

  /** No two keywords agree in their first three letters. */
  lemma KeywordsDiffer(j: nat, k: nat)
    requires j < k < |KEYWORDS|
    ensures var s, t := KEYWORDS[j].text, KEYWORDS[k].text;
      |s| >= 2 && |t| >= 2 && (s[0] != t[0] || s[1] != t[1] || (|s| > 2 && |t| > 2 && s[2] != t[2]))
  {
  }

  lemma KeywordThere(program: string, p: nat, k: nat)
    requires k < |KEYWORDS| && Matches(program, p, KEYWORDS[k].text)
    ensures LexWord(program, p) == Lexeme(KEYWORDS[k].token, |KEYWORDS[k].text|)
  {
    forall j | 0 <= j < k ensures !Matches(program, p, KEYWORDS[j].text) {
      KeywordsDiffer(j, k);
      NotBoth(program, p, KEYWORDS[j].text, KEYWORDS[k].text);
    }
  }

  lemma NotBoth(program: string, p: nat, s: string, t: string)
    requires Matches(program, p, t) && |s| >= 2 && |t| >= 2
    requires s[0] != t[0] || s[1] != t[1] || (|s| > 2 && |t| > 2 && s[2] != t[2])
    ensures !Matches(program, p, s)
  {
    var i := if s[0] != t[0] then 0 else if s[1] != t[1] then 1 else 2;
    MatchAt(program, p, t, i);
    if Matches(program, p, s) {
      MatchAt(program, p, s, i);
    }
  }

  lemma WordIsKeyword(word: string) returns (k: nat)
    requires Meaning(word) != Error
    ensures k < |KEYWORDS| && KEYWORDS[k] == Keyword(word, Meaning(word)) && IsLetter(word[0])
  {
    k := if word == "let" then 0 else if word == "print" then 1 else if word == "if" then 2
      else if word == "then" then 3 else if word == "else" then 4 else if word == "for" then 5
      else if word == "to" then 6 else if word == "next" then 7 else if word == "goto" then 8
      else if word == "gosub" then 9 else if word == "return" then 10 else if word == "call" then 11
      else if word == "peek" then 13 else if word == "poke" then 14 else 15;
  }

  lemma LexWordItem(program: string, p: nat, word: string)
    requires Meaning(word) != Error && Matches(program, p, word)
    ensures Lex(program, p) == Lexeme(Meaning(word), |word|) && |word| > 0 && At(program, p) != ' '
    ensures Meaning(word) != Rem
  {
    var k := WordIsKeyword(word);
    MatchAt(program, p, word, 0);
    LetterIsWord(program, p);
    KeywordThere(program, p, k);
  }

  lemma LexRemark(program: string, p: nat)
    requires Matches(program, p, "rem")
    ensures Lex(program, p) == Lexeme(Rem, 3) && At(program, p) != ' ' && p < |program|
  {
    MatchAt(program, p, "rem", 0);
    LetterIsWord(program, p);
    KeywordThere(program, p, 12);
  }

  lemma {:induction false} QuoteAt(program: string, p: nat, n: nat)
    requires p + n < |program| && program[p + n] == '"' && forall i :: p <= i < p + n ==> program[i] != '"'
    ensures Quote(program, p) == p + n
    decreases n
  {
    if n > 0 {
      QuoteAt(program, p + 1, n - 1);
    }
  }

  lemma LexQuoted(program: string, p: nat, inside: string)
    requires Matches(program, p, "\"" + inside + "\"") && '"' !in inside
    ensures Lex(program, p) == Lexeme(Str, |inside| + 2) && At(program, p) != ' '
  {
    var s := "\"" + inside + "\"";
    MatchAt(program, p, s, 0);
    MatchAt(program, p, s, |inside| + 1);
    forall i | p + 1 <= i < p + 1 + |inside| ensures program[i] != '"' {
      MatchAt(program, p, s, i - p);
    }
    QuoteAt(program, p + 1, |inside|);
  }

  lemma LexDigits(program: string, p: nat, text: string)
    requires Good(Digits(text)) && Matches(program, p, text) && At(program, p + |text|) == ' '
    ensures Lex(program, p) == Lexeme(Number, |text|) && At(program, p) != ' '
  {
    forall i | p <= i < p + |text| ensures IsDigit(program[i]) {
      MatchAt(program, p, text, i - p);
      DigitChars(text[i - p]);
    }
    LexNumber(program, p, |text|);
    MatchAt(program, p, text, 0);
  }

  lemma LexLetter(program: string, p: nat, name: char)
    requires Good(Letter(name)) && Matches(program, p, [name]) && At(program, p + 1) == ' '
    ensures Lex(program, p) == Lexeme(Variable, 1) && At(program, p) != ' '
  {
    MatchAt(program, p, [name], 0);
    LetterChars(name);
    WordAlone(program, p);
    LexVariable(program, p);
  }

  lemma LexSign(program: string, p: nat, c: char)
    requires Good(Sign(c)) && Matches(program, p, [c])
    ensures Lex(program, p) == Lexeme(SignToken(c), 1) && SignToken(c) != Rem && At(program, p) != ' '
  {
    hide SignToken, Single;
    MatchAt(program, p, [c], 0);
    SignChars(c);
  }

  /** A token that is written, with a space after it, is the one that is read. */
  lemma ItemReads(program: string, p: nat, x: Item)
    requires Good(x) && !x.Remark? && Matches(program, p, Spelled(x)) && At(program, p + |Spelled(x)|) == ' '
    ensures Lex(program, p) == Lexeme(TokenOf(x), |Spelled(x)|) && |Spelled(x)| > 0
    ensures At(program, p) != ' ' && TokenOf(x) != Rem
  {
    hide Matches, Lex, SignToken;
    match x
    case Digits(text) => LexDigits(program, p, text);
    case Letter(name) => LexLetter(program, p, name);
    case Word(text) => LexWordItem(program, p, text);
    case Quoted(inside) => LexQuoted(program, p, inside);
    case Sign(c) => LexSign(program, p, c);
  }

  /** Six digits or more are an error. */
  lemma LexLong(program: string, p: nat, n: nat)
    requires p + n <= |program| && (forall i :: p <= i < p + n ==> program[i] in DIGITS) && n >= 6
    ensures Lex(program, p).token == Error
  {
    forall i | p <= i < p + n ensures IsDigit(program[i]) {
      DigitChars(program[i]);
    }
    DigitsAtLeast(program, p, n);
  }

  lemma {:induction false} DigitsAtLeast(program: string, p: nat, n: nat)
    requires p + n <= |program| && forall i :: p <= i < p + n ==> IsDigit(program[i])
    ensures UbasicTokens.Digits(program, p) >= n
    decreases n
  {
    if n > 0 {
      DigitsAtLeast(program, p + 1, n - 1);
    }
  }

  /** A number in digits. */
  function Numeral(n: nat): string {
    if n < 10 then [DIGITS[n]] else Numeral(n / 10) + [DIGITS[n % 10]]
  }

  /** Its digits are read as that number. */
  lemma {:induction false} NumeralReads(n: nat)
    ensures forall i :: 0 <= i < |Numeral(n)| ==> IsDigit(Numeral(n)[i])
    ensures Decimal(Numeral(n)) == n
  {
    var d := DIGITS[n % 10];
    DigitChars(d);
    assert DigitValue(d) == n % 10;
    if n < 10 {
      assert [d][..0] == [] && Decimal([d]) == n;
    } else {
      NumeralReads(n / 10);
      assert Numeral(n)[..|Numeral(n)| - 1] == Numeral(n / 10);
    }
  }

  // ---------- Whole texts ----------

  /** The next n tokens from a place on. */
  ghost function TokensFrom(s: Source, nextptr: nat, n: nat): seq<Token>
    requires IsSource(s)
    decreases n
  {
    if n == 0 then []
    else var here := Advance(s, nextptr); [here.token] + TokensFrom(s, here.nextptr, n - 1)
  }

  lemma {:induction false} LineEndAt(program: string, p: nat, n: nat)
    requires p + n < |program| && program[p + n] == '\n' && forall i :: p <= i < p + n ==> program[i] != '\n'
    ensures LineEnd(program, p) == p + n
    decreases n
  {
    if n > 0 {
      LineEndAt(program, p + 1, n - 1);
    }
  }

  lemma OneSpace(program: string, p: nat, gap: nat)
    requires gap <= 1 && p + gap <= |program| && (gap == 1 ==> program[p] == ' ') && At(program, p + gap) != ' '
    ensures SkipSpaces(program, p) == p + gap
  {
    SkipRun(program, p, gap);
  }

  /** The tokens that were written are read, one after another, and then the end. */
  lemma {:induction false} TextReads(s: Source, p: nat, gap: nat, items: seq<Item>)
    requires IsSource(s) && gap <= 1 && (gap == 1 ==> p < |s.text| && s.text[p] == ' ')
    requires Matches(s.text, p + gap, Written(items)) && p + gap + |Written(items)| == |s.text|
    requires forall i :: 0 <= i < |items| ==> Good(items[i])
    ensures TokensFrom(s, p, |Tokens(items)| + 1) == Tokens(items) + [EndOfInput]
    decreases |items|
  {
    hide Matches, IsSource, Written, Tokens, TokensFrom, Advance;
    WrittenParts(items);
    if items == [] {
      EndReads(s, p, gap);
    } else {
      assert Good(items[0]);
      var x, q := items[0], p + gap + |Spelled(items[0])|;
      if x.Remark? {
        RemarkReads(s, p, gap, x.text, items[1..]);
        TextReads(s, q + 1, 0, items[1..]);
        SameFrom(s, p, q + 1, |Tokens(items)| + 1);
      } else {
        ItemPassed(s, p, gap, x, items[1..]);
        TextReads(s, q, 1, items[1..]);
        TokensMore(s, p, q, TokenOf(x), items[1..]);
      }
    }
  }

  lemma WrittenParts(items: seq<Item>)
    ensures if items == [] then Written(items) == "" && Tokens(items) == [] else
      && Written(items) == Spelled(items[0]) + (if items[0].Remark? then "\n" else " ") + Written(items[1..])
      && |Written(items)| == |Spelled(items[0])| + 1 + |Written(items[1..])|
      && Tokens(items) == (if items[0].Remark? then [] else [TokenOf(items[0])]) + Tokens(items[1..])
  {
  }

  lemma EndReads(s: Source, p: nat, gap: nat)
    requires IsSource(s) && gap <= 1 && (gap == 1 ==> p < |s.text| && s.text[p] == ' ') && p + gap == |s.text|
    ensures TokensFrom(s, p, 1) == [EndOfInput]
  {
    assert Seen(p + gap);
    OneSpace(s.text, p, gap);
    assert TokensFrom(s, Advance(s, p).nextptr, 0) == [];
  }

  lemma ItemPassed(s: Source, p: nat, gap: nat, x: Item, rest: seq<Item>)
    requires IsSource(s) && gap <= 1 && (gap == 1 ==> p < |s.text| && s.text[p] == ' ') && !x.Remark? && Good(x)
    requires Matches(s.text, p + gap, Spelled(x) + " " + Written(rest))
    ensures var b := p + gap; var q := b + |Spelled(x)|;
      Advance(s, p) == Position(b, q, TokenOf(x)) && Matches(s.text, q + 1, Written(rest)) && At(s.text, q) == ' '
  {
    hide Matches, Spelled, Written, IsSource, Lex, Good;
    var b, w := p + gap, Spelled(x);
    ThreeMatch(s.text, b, w, " ", Written(rest));
    ItemReads(s.text, b, x);
    TokenPassed(s, p, gap, TokenOf(x), |w|);
  }

  lemma ThreeMatch(program: string, p: nat, a: string, sep: string, c: string)
    requires Matches(program, p, a + sep + c) && |sep| == 1
    ensures Matches(program, p, a) && Matches(program, p + |a| + 1, c) && p + |a| < |program|
    ensures At(program, p + |a|) == sep[0]
  {
    PartsMatch(program, p, a + sep, c);
    PartsMatch(program, p, a, sep);
    MatchAt(program, p + |a|, sep, 0);
  }

  lemma TokenPassed(s: Source, p: nat, gap: nat, t: Token, n: nat)
    requires IsSource(s) && gap <= 1 && (gap == 1 ==> p < |s.text| && s.text[p] == ' ') && p + gap <= |s.text|
    requires Lex(s.text, p + gap) == Lexeme(t, n) && n > 0 && t != Rem && At(s.text, p + gap) != ' '
    ensures Advance(s, p) == Position(p + gap, p + gap + n, t)
  {
    hide Lex;
    OneSpace(s.text, p, gap);
    assert Seen(p + gap);
  }

  lemma SameFrom(s: Source, p: nat, q: nat, n: nat)
    requires IsSource(s) && Advance(s, p) == Advance(s, q)
    ensures TokensFrom(s, p, n) == TokensFrom(s, q, n)
  {
  }

  lemma TokensMore(s: Source, p: nat, q: nat, t: Token, rest: seq<Item>)
    requires IsSource(s) && Advance(s, p).token == t && Advance(s, p).nextptr == q
    requires TokensFrom(s, q, |Tokens(rest)| + 1) == Tokens(rest) + [EndOfInput]
    ensures TokensFrom(s, p, |Tokens(rest)| + 2) == [t] + Tokens(rest) + [EndOfInput]
  {
    assert TokensFrom(s, p, |Tokens(rest)| + 2) == [t] + TokensFrom(s, q, |Tokens(rest)| + 1);
  }

  /** A comment is passed over. */
  lemma RemarkReads(s: Source, p: nat, gap: nat, text: string, rest: seq<Item>)
    requires IsSource(s) && gap <= 1 && (gap == 1 ==> p < |s.text| && s.text[p] == ' ') && '\n' !in text
    requires Matches(s.text, p + gap, "rem" + text + "\n" + Written(rest))
    ensures var q := p + gap + 3 + |text| + 1;
      Advance(s, p) == Advance(s, q) && Matches(s.text, q, Written(rest))
  {
    hide Matches, Written, IsSource, Lex, Advance;
    ThreeMatch(s.text, p + gap, "rem" + text, "\n", Written(rest));
    PartsMatch(s.text, p + gap, "rem", text);
    LexRemark(s.text, p + gap);
    RemarkEnds(s.text, p + gap + 3, text);
    RemarkPassed(s, p, gap, p + gap + 3 + |text|);
  }

  lemma RemarkEnds(program: string, p: nat, t: string)
    requires Matches(program, p, t) && '\n' !in t && p + |t| < |program| && program[p + |t|] == '\n'
    ensures LineEnd(program, p) == p + |t|
  {
    forall i | p <= i < p + |t| ensures program[i] != '\n' {
      MatchAt(program, p, t, i - p);
    }
    LineEndAt(program, p, |t|);
  }

  lemma RemarkPassed(s: Source, p: nat, gap: nat, e: nat)
    requires IsSource(s) && gap <= 1 && (gap == 1 ==> p < |s.text| && s.text[p] == ' ') && p + gap <= |s.text|
    requires Lex(s.text, p + gap) == Lexeme(Rem, 3) && At(s.text, p + gap) != ' '
    requires LineEnd(s.text, p + gap + 3) == e && At(s.text, e) == '\n'
    ensures Advance(s, p) == Advance(s, e + 1)
  {
    hide Lex;
    OneSpace(s.text, p, gap);
    assert Seen(p + gap);
  }
}
