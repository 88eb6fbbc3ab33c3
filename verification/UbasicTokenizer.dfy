/** The tokenizer itself (Apps/UBasic/tokenizer.c): its static variables, moved along by loops. */
module UbasicTokenizer {
  import opened Words
  import opened UbasicTokens

  function DigitValue(c: char): nat
    requires IsDigit(c)
  {
    c as int - '0' as int
  }

  /** A decimal number. */
  function Decimal(digits: string): nat
    requires forall i :: 0 <= i < |digits| ==> IsDigit(digits[i])
  {
    if digits == [] then 0 else 10 * Decimal(digits[..|digits| - 1]) + DigitValue(digits[|digits| - 1])
  }

  lemma DigitsHead(program: string, p: nat, i: nat)
    requires i < Digits(program, p)
    ensures p + i < |program| && IsDigit(program[p + i])
    decreases i
  {
    if i > 0 {
      DigitsHead(program, p + 1, i - 1);
    }
  }

  lemma DigitsEnd(program: string, p: nat)
    ensures !IsDigit(At(program, p + Digits(program, p)))
    decreases |program| - p
  {
    if p < |program| && IsDigit(program[p]) {
      DigitsEnd(program, p + 1);
    }
  }

  class Tokenizer {
    const program: string
    const signedChar: bool
    var ptr: nat
    var nextptr: nat
    var current: Token
    ghost const src: Source

    ghost predicate Valid() {
      src.text == program && IsSource(src)
    }

    function Pos(): Position
      reads this
    {
      Position(ptr, nextptr, current)
    }

    /** tokenizer_init. */
    constructor (text: string, signed: bool)
      ensures Valid() && program == text && signedChar == signed && Pos() == TokenAt(src, 0, 0)
    {
      program, signedChar := text, signed;
      src := Source(text, (p: nat) => Lex(text, p));
      ptr, nextptr := 0, 0;
      new;
      current := GetNextToken();
    }

    method GetNextToken() returns (t: Token)
      requires Valid()
      modifies this`nextptr
      ensures Position(ptr, nextptr, t) == TokenAt(src, ptr, old(nextptr))
    {
      assert Seen(ptr);
      var c := At(program, ptr);
      if c == '\0' {
        return EndOfInput;
      }
      if IsDigit(c) {
        t := NumberToken();
      } else if Single(c) != Error {
        nextptr := ptr + 1;
        t := Single(c);
      } else if c == '"' {
        nextptr := ptr + 1;
        while nextptr < |program| && program[nextptr] != '"'
          invariant nextptr > ptr && Quote(program, nextptr) == Quote(program, ptr + 1)
        {
          nextptr := nextptr + 1;
        }
        nextptr := nextptr + 1;
        t := Str;
      } else {
        t := WordToken();
      }
    }

    method NumberToken() returns (t: Token)
      requires Valid() && IsDigit(At(program, ptr))
      modifies this`nextptr
      ensures Position(ptr, nextptr, t) == TokenAt(src, ptr, old(nextptr))
    {
      assert Seen(ptr);
      DigitsEnd(program, ptr);
      var i := 0;
      while i < MAX_NUMLEN
        invariant 0 <= i <= MAX_NUMLEN && i <= Digits(program, ptr) && nextptr == old(nextptr)
      {
        if !IsDigit(At(program, ptr + i)) {
          if i < Digits(program, ptr) {
            DigitsHead(program, ptr, i);
          }
          if i > 0 {
            nextptr := ptr + i;
            return Number;
          } else {
            return Error;
          }
        }
        if i == Digits(program, ptr) {
          assert false;
        }
        i := i + 1;
      }
      t := Error;
    }

    method WordToken() returns (t: Token)
      requires At(program, ptr) != '\0'
      modifies this`nextptr
      ensures Position(ptr, nextptr, t) == var x := LexWord(program, ptr);
        Position(ptr, if x.length > 0 then ptr + x.length else old(nextptr), x.token)
    {
      hide Matches;
      var k := 0;
      while k < |KEYWORDS|
        invariant 0 <= k <= |KEYWORDS| && nextptr == old(nextptr)
        invariant KeywordFrom(program, ptr, k) == KeywordFrom(program, ptr, 0)
      {
        if Matches(program, ptr, KEYWORDS[k].text) {
          KeywordsAreWords(k);
          nextptr := ptr + |KEYWORDS[k].text|;
          return KEYWORDS[k].token;
        }
        k := k + 1;
      }
      if IsLetter(At(program, ptr)) {
        nextptr := ptr + 1;
        return Variable;
      }
      t := Error;
    }

    predicate Finished()
      reads this
    {
      At(program, ptr) == '\0' || current == EndOfInput
    }

    /** tokenizer_next. */
    method Next()
      requires Valid()
      modifies this`ptr, this`nextptr, this`current
      ensures Pos() == if old(Finished()) then old(Pos()) else Advance(src, old(nextptr))
      decreases |program| + 3 - nextptr
    {
      if Finished() {
        return;
      }
      Step();
      if current == Rem {
        LexRem(src, ptr);
        SkipLine();
        Next();
      }
    }

    /** To the next token, comment or not. */
    method Step()
      requires Valid()
      modifies this`ptr, this`nextptr, this`current
      ensures Pos() == TokenAt(src, SkipSpaces(program, old(nextptr)), old(nextptr))
    {
      ptr := nextptr;
      while ptr < |program| && program[ptr] == ' '
        invariant nextptr == old(nextptr) && SkipSpaces(program, ptr) == SkipSpaces(program, nextptr)
      {
        ptr := ptr + 1;
      }
      current := GetNextToken();
    }

    /** Past the end of the line. */
    method SkipLine()
      modifies this`nextptr
      ensures nextptr == var e := LineEnd(program, old(nextptr)); if At(program, e) == '\n' then e + 1 else e
    {
      while nextptr < |program| && program[nextptr] != '\n'
        invariant LineEnd(program, nextptr) == LineEnd(program, old(nextptr))
      {
        nextptr := nextptr + 1;
      }
      if At(program, nextptr) == '\n' {
        nextptr := nextptr + 1;
      }
    }

    /** tokenizer_num: atoi, as a char. */
    method Num() returns (r: int)
      requires ptr < |program|
      ensures var n := Digits(program, ptr);
        && ptr + n <= |program| && (forall i :: ptr <= i < ptr + n ==> IsDigit(program[i]))
        && r == ToChar(Decimal(program[ptr..ptr + n]), signedChar)
    {
      hide Digits, Decimal;
      DigitsEnd(program, ptr);
      var i, v := 0, 0;
      DecimalNone(program, ptr);
      while IsDigit(At(program, ptr + i))
        invariant i <= Digits(program, ptr) && ptr + i <= |program|
        invariant forall j :: ptr <= j < ptr + i ==> IsDigit(program[j])
        invariant v == Decimal(program[ptr..ptr + i])
        decreases |program| - i
      {
        DigitsMore(program, ptr, i);
        DecimalMore(program, ptr, ptr + i);
        v := 10 * v + DigitValue(program[ptr + i]);
        i := i + 1;
      }
      if i < Digits(program, ptr) {
        DigitsHead(program, ptr, i);
      }
      r := ToChar(v, signedChar);
    }
  }

  lemma DecimalNone(program: string, p: nat)
    requires p <= |program|
    ensures Decimal(program[p..p]) == 0
  {
  }

  lemma DecimalMore(program: string, p: nat, q: nat)
    requires p <= q < |program| && forall j :: p <= j <= q ==> IsDigit(program[j])
    ensures Decimal(program[p..q + 1]) == 10 * Decimal(program[p..q]) + DigitValue(program[q])
  {
    assert program[p..q + 1][..q - p] == program[p..q];
  }

  lemma DigitsMore(program: string, p: nat, i: nat)
    requires i <= Digits(program, p) && IsDigit(At(program, p + i))
    ensures i < Digits(program, p)
  {
    DigitsEnd(program, p);
  }
}
