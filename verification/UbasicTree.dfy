/** Expressions of uBasic (Apps/UBasic/ubasic.c): how they are written, and what they are worth. */
module UbasicTree {
  import opened Words
  import opened Bits
  import opened UbasicTokens
  import opened UbasicTokenizer

  datatype Op = Times | Over | Modulo | Add | Subtract | BitAnd | BitOr | Less | Greater | Same

  /** How loosely an operator binds: 1 in term, 2 in expr, 3 in relation. */
  function Level(op: Op): nat {
    match op
    case Times | Over | Modulo => 1
    case Add | Subtract | BitAnd | BitOr => 2
    case Less | Greater | Same => 3
  }

  function OpChar(op: Op): char {
    match op
    case Times => '*' case Over => '/' case Modulo => '%'
    case Add => '+' case Subtract => '-' case BitAnd => '&' case BitOr => '|'
    case Less => '<' case Greater => '>' case Same => '='
  }

  function OpToken(op: Op): Token {
    Single(OpChar(op))
  }

  /** The operator a token stands for. */
  predicate IsOp(t: Token, level: nat) {
    || (t in {Astr, Slash, Mod} && level == 1)
    || (t in {Plus, Minus, And, Or} && level == 2)
    || (t in {Lt, Gt, Eq} && level == 3)
  }

  lemma OpTokenIsOp(op: Op, level: nat)
    ensures IsOp(OpToken(op), level) <==> level == Level(op)
  {
  }

  /** An expression as it is written: every token is followed by a gap of that many spaces. */
  datatype Tree =
    | Num(digits: string, gap: nat)
    | Var(name: char, gap: nat)
    | Paren(open: nat, inner: Tree, gap: nat)
    | Bin(left: Tree, op: Op, opGap: nat, right: Tree)

  predicate AllDigits(s: string) {
    forall i :: 0 <= i < |s| ==> IsDigit(s[i])
  }

  /** Operators of one level associate to the left, and what binds tighter comes first. */
  predicate Fits(t: Tree, level: nat) {
    match t
    case Num(digits, _) => 0 < |digits| < MAX_NUMLEN && AllDigits(digits)
    case Var(name, _) => IsLetter(name)
    case Paren(_, inner, _) => Fits(inner, 2)
    case Bin(left, op, _, right) => Level(op) <= level && Fits(left, Level(op)) && Fits(right, Level(op) - 1)
  }

  function Spaces(n: nat): string {
    seq(n, i => ' ')
  }

  function Render(t: Tree): string {
    match t
    case Num(digits, gap) => digits + Spaces(gap)
    case Var(name, gap) => [name] + Spaces(gap)
    case Paren(open, inner, gap) => "(" + Spaces(open) + Render(inner) + ")" + Spaces(gap)
    case Bin(left, op, gap, right) => Render(left) + [OpChar(op)] + Spaces(gap) + Render(right)
  }

  // ---------- Values ----------

  datatype Option = None | Some(value: int)

  /** Within an int, or else undefined. */
  function Int(x: int): Option {
    if -0x8000_0000 <= x < 0x8000_0000 then Some(x) else None
  }

  /** A number is within an int when cutting it down to 32 bits leaves it as it is. */
  lemma IntMeans(x: int)
    ensures Int(x) == if ToInt32(x) == x then Some(x) else None
  {
  }

  function Compute(op: Op, a: int, b: int): Option {
    match op
    case Times => Int(a * b)
    case Over => if b == 0 then None else Int(Quotient(a, b))
    case Modulo => if b == 0 || Int(Quotient(a, b)).None? then None else Some(a - b * Quotient(a, b))
    case Add => Int(a + b)
    case Subtract => Int(a - b)
    case BitAnd => Some(ToInt32(Words.And(Wrap(a), Wrap(b))))
    case BitOr => Some(ToInt32(Words.Or(Wrap(a), Wrap(b))))
    case Less => Some(if a < b then 1 else 0)
    case Greater => Some(if a > b then 1 else 0)
    case Same => Some(if a == b then 1 else 0)
  }

  /** & and | go bit by bit. */
  lemma BitByBit(a: int, b: int, i: nat)
    requires i < 32
    ensures var r := Compute(BitAnd, a, b);
      r.Some? && Bit(Wrap(r.value), i) == if Bit(Wrap(a), i) == 1 && Bit(Wrap(b), i) == 1 then 1 else 0
    ensures var r := Compute(BitOr, a, b);
      r.Some? && Bit(Wrap(r.value), i) == if Bit(Wrap(a), i) == 1 || Bit(Wrap(b), i) == 1 then 1 else 0
  {
    AndSmall(Wrap(a), Wrap(b));
    WordBits();
    OrSmall(Wrap(a), Wrap(b), 32);
    SameWord(Words.And(Wrap(a), Wrap(b)));
    SameWord(Words.Or(Wrap(a), Wrap(b)));
    AndBits(Wrap(a), Wrap(b), i);
    OrBits(Wrap(a), Wrap(b), i);
  }

  lemma SameWord(x: nat)
    requires x < WORD
    ensures Wrap(ToInt32(x)) == x
  {
  }

  function Narrow(x: Option, signed: bool): Option {
    if x.Some? then Some(ToChar(x.value, signed)) else None
  }

  /** ubasic_get_variable. (It lets 26 through as well, which no letter gives.) */
  function VariableAt(vars: seq<int>, number: int): int
    requires |vars| == 26
  {
    if 0 <= number < 26 then vars[number] else 0
  }

  /** The value of an expression: literals, what is in parentheses and the operands of a relation
      are chars, all else is int; None where C leaves it undefined. */
  function Value(t: Tree, vars: seq<int>, signed: bool): Option
    requires |vars| == 26
  {
    match t
    case Num(digits, _) => if AllDigits(digits) then Some(ToChar(Decimal(digits), signed)) else None
    case Var(name, _) => Some(VariableAt(vars, name as int - 'a' as int))
    case Paren(_, inner, _) => Narrow(Value(inner, vars, signed), signed)
    case Bin(left, op, _, right) =>
      var l, r := Value(left, vars, signed), Value(right, vars, signed);
      if l.None? || r.None? then None
      else if Level(op) < 3 then Compute(op, l.value, r.value)
      else Compute(op, if IsRelation(left) then l.value else ToChar(l.value, signed), ToChar(r.value, signed))
  }

  /** The letters read the variables one after another. */
  lemma LetterReads(k: nat, gap: nat, vars: seq<int>, signed: bool)
    requires |vars| == 26 && k < 26
    ensures Value(Var("abcdefghijklmnopqrstuvwxyz"[k], gap), vars, signed) == Some(vars[k])
  {
  }

  predicate IsRelation(t: Tree) {
    t.Bin? && Level(t.op) == 3
  }

  lemma FitsMore(t: Tree, a: nat, b: nat)
    requires a <= b
    ensures Fits(t, a) ==> Fits(t, b)
  {
  }

  // ---------- Where an expression lies in a program ----------

  /** The last token of t, which ends at q, does not run on into what is there. */
  predicate Parts(t: Tree, program: string, q: nat) {
    match t
    case Num(_, gap) => gap > 0 || !IsDigit(At(program, q))
    case Var(_, gap) => gap > 0 || q == 0 || NoKeyword(program, q - 1)
    case Paren(_, _, _) => true
    case Bin(_, _, _, right) => Parts(right, program, q)
  }

  function EndOf(t: Tree, p: nat): nat {
    p + |Render(t)|
  }

  /** The program has t at p, and then something else, though no comment. */
  ghost predicate Stands(s: Source, t: Tree, p: nat) {
    && Matches(s.text, p, Render(t)) && Parts(t, s.text, EndOf(t, p))
    && At(s.text, EndOf(t, p)) != ' ' && s.lex(EndOf(t, p)).token != Rem
  }

  /** A gap of n spaces at p, and then no space. */
  ghost predicate Gap(s: Source, p: nat, n: nat) {
    Matches(s.text, p, Spaces(n)) && At(s.text, p + n) != ' ' && s.lex(p + n).token != Rem
  }

  lemma GapAdvance(s: Source, p: nat, n: nat)
    requires IsSource(s) && Gap(s, p, n)
    ensures Advance(s, p) == TokenAt(s, p + n, p)
  {
    SpacesAt(s.text, p, n);
    SkipRun(s.text, p, n);
  }

  lemma SpacesAt(program: string, p: nat, n: nat)
    requires Matches(program, p, Spaces(n))
    ensures forall i :: p <= i < p + n ==> program[i] == ' '
  {
    forall i | p <= i < p + n ensures program[i] == ' ' {
      assert program[p..p + n][i - p] == ' ';
    }
  }

  lemma {:induction false} PartsAny(t: Tree, program: string, q: nat)
    requires !IsDigit(At(program, q)) && !IsLetter(At(program, q))
    ensures Parts(t, program, q)
  {
    if t.Bin? {
      PartsAny(t.right, program, q);
    } else if t.Var? && q > 0 {
      WordAlone(program, q - 1);
    }
  }

  lemma OneChar(s: Source, p: nat, c: char)
    requires IsSource(s) && Matches(s.text, p, [c]) && !IsDigit(c) && Single(c) != Error
    ensures At(s.text, p) == c && s.lex(p) == Lexeme(Single(c), 1)
  {
    assert s.text[p..p + 1][0] == c;
    assert Seen(p);
  }

  /** An expression ends well before any single char that is a token and not a digit. */
  lemma StandsBefore(s: Source, t: Tree, p: nat, c: char)
    requires IsSource(s) && Matches(s.text, p, Render(t)) && Matches(s.text, EndOf(t, p), [c])
    requires !IsDigit(c) && !IsLetter(c) && c != ' ' && Single(c) != Error
    ensures Stands(s, t, p)
  {
    OneChar(s, EndOf(t, p), c);
    PartsAny(t, s.text, EndOf(t, p));
  }

  /** The parts of an operation. */
  lemma {:induction false} StandsBin(s: Source, t: Tree, p: nat)
    requires t.Bin? && Fits(t, 3) && IsSource(s) && Stands(s, t, p)
    ensures Stands(s, t.left, p)
    ensures var q := EndOf(t.left, p); var r := q + 1 + t.opGap;
      && s.lex(q) == Lexeme(OpToken(t.op), 1) && At(s.text, q) == OpChar(t.op)
      && Gap(s, q + 1, t.opGap) && Stands(s, t.right, r) && EndOf(t.right, r) == EndOf(t, p)
    decreases t, 1
  {
    hide Render, EndOf, Stands, Matches;
    BinLeft(s, t, p);
    BinRight(s, t, p);
    Starts(s, t.right, EndOf(t.left, p) + 1 + t.opGap);
  }

  lemma BinLies(program: string, t: Tree, p: nat)
    requires t.Bin? && Matches(program, p, Render(t))
    ensures var q := EndOf(t.left, p); var r := q + 1 + t.opGap;
      && Matches(program, p, Render(t.left)) && Matches(program, q, [OpChar(t.op)])
      && Matches(program, q + 1, Spaces(t.opGap))
      && Matches(program, r, Render(t.right)) && EndOf(t.right, r) == EndOf(t, p)
  {
    hide Matches;
    BinMatches(program, p, Render(t.left), [OpChar(t.op)], Spaces(t.opGap), Render(t.right));
  }

  lemma OpIsSingle(op: Op)
    ensures var c := OpChar(op); !IsDigit(c) && !IsLetter(c) && c != ' ' && Single(c) != Error
  {
  }

  lemma BinLeft(s: Source, t: Tree, p: nat)
    requires t.Bin? && IsSource(s) && Stands(s, t, p)
    ensures Stands(s, t.left, p)
    ensures var q := EndOf(t.left, p); s.lex(q) == Lexeme(OpToken(t.op), 1) && At(s.text, q) == OpChar(t.op)
  {
    BinLies(s.text, t, p);
    OpIsSingle(t.op);
    StandsBefore(s, t.left, p, OpChar(t.op));
    OneChar(s, EndOf(t.left, p), OpChar(t.op));
  }

  lemma BinRight(s: Source, t: Tree, p: nat)
    requires t.Bin? && Stands(s, t, p)
    ensures var q := EndOf(t.left, p) + 1; var r := q + t.opGap;
      Matches(s.text, q, Spaces(t.opGap)) && Stands(s, t.right, r) && EndOf(t.right, r) == EndOf(t, p)
  {
    BinLies(s.text, t, p);
  }

  lemma {:induction false} StandsParen(s: Source, t: Tree, p: nat)
    requires t.Paren? && Fits(t, 3) && IsSource(s) && Stands(s, t, p)
    ensures s.lex(p) == Lexeme(LeftParen, 1) && At(s.text, p) == '(' && Gap(s, p + 1, t.open)
    ensures var q := p + 1 + t.open; var r := EndOf(t.inner, q);
      && Stands(s, t.inner, q) && s.lex(r) == Lexeme(RightParen, 1) && At(s.text, r) == ')'
      && Gap(s, r + 1, t.gap) && r + 1 + t.gap == EndOf(t, p)
    decreases t, 1
  {
    ParenInner(s, t, p);
    FitsMore(t.inner, 2, 3);
    Starts(s, t.inner, p + 1 + t.open);
    ParenGaps(s, t, p);
  }

  lemma ParenGaps(s: Source, t: Tree, p: nat)
    requires t.Paren? && Stands(s, t, p)
    ensures Matches(s.text, p + 1, Spaces(t.open))
    ensures var r := EndOf(t.inner, p + 1 + t.open) + 1; Gap(s, r, t.gap) && r + t.gap == EndOf(t, p)
  {
    ParenLies(s.text, t, p);
  }

  lemma ParenLies(program: string, t: Tree, p: nat)
    requires t.Paren? && Matches(program, p, Render(t))
    ensures var q := p + 1 + t.open; var r := EndOf(t.inner, q);
      && Matches(program, p, "(") && Matches(program, p + 1, Spaces(t.open)) && Matches(program, q, Render(t.inner))
      && Matches(program, r, ")") && Matches(program, r + 1, Spaces(t.gap)) && r + 1 + t.gap == EndOf(t, p)
  {
    hide Matches;
    ParenMatches(program, p, Spaces(t.open), Render(t.inner), Spaces(t.gap));
  }

  lemma ParenInner(s: Source, t: Tree, p: nat)
    requires t.Paren? && IsSource(s) && Matches(s.text, p, Render(t))
    ensures s.lex(p) == Lexeme(LeftParen, 1) && At(s.text, p) == '('
    ensures var q := p + 1 + t.open; var r := EndOf(t.inner, q);
      Stands(s, t.inner, q) && s.lex(r) == Lexeme(RightParen, 1) && At(s.text, r) == ')'
  {
    hide Matches, Render, Stands;
    var q := p + 1 + t.open;
    ParenLies(s.text, t, p);
    StandsBefore(s, t.inner, q, ')');
    OneChar(s, p, '(');
    OneChar(s, EndOf(t.inner, q), ')');
  }

  lemma BinMatches(program: string, p: nat, a: string, b: string, c: string, d: string)
    requires Matches(program, p, a + b + c + d)
    ensures Matches(program, p, a) && Matches(program, p + |a|, b) && Matches(program, p + |a| + |b|, c)
    ensures Matches(program, p + |a| + |b| + |c|, d)
  {
    PartsMatch(program, p, a + b + c, d);
    PartsMatch(program, p, a + b, c);
    PartsMatch(program, p, a, b);
  }

  lemma ParenMatches(program: string, p: nat, a: string, b: string, c: string)
    requires Matches(program, p, "(" + a + b + ")" + c)
    ensures Matches(program, p, "(") && Matches(program, p + 1, a) && Matches(program, p + 1 + |a|, b)
    ensures Matches(program, p + 1 + |a| + |b|, ")") && Matches(program, p + 1 + |a| + |b| + 1, c)
  {
    PartsMatch(program, p, "(" + a + b + ")", c);
    PartsMatch(program, p, "(" + a + b, ")");
    PartsMatch(program, p, "(" + a, b);
    PartsMatch(program, p, "(", a);
  }

  lemma NumStarts(s: Source, t: Tree, p: nat)
    requires t.Num? && Fits(t, 3) && IsSource(s) && Stands(s, t, p)
    ensures s.lex(p) == Lexeme(Number, |t.digits|) && At(s.text, p) == t.digits[0]
    ensures Gap(s, p + |t.digits|, t.gap) && Matches(s.text, p, t.digits)
  {
    var n := |t.digits|;
    PartsMatch(s.text, p, t.digits, Spaces(t.gap));
    forall i | p <= i < p + n ensures IsDigit(s.text[i]) {
      assert s.text[p..p + n][i - p] == t.digits[i - p];
    }
    AfterGap(s.text, p + n, t.gap);
    LexNumber(s.text, p, n);
    assert Seen(p);
  }

  /** What follows a token is a space or what comes after the gap. */
  lemma AfterGap(program: string, p: nat, n: nat)
    requires Matches(program, p, Spaces(n))
    ensures n > 0 ==> At(program, p) == ' '
  {
    if n > 0 {
      assert program[p..p + n][0] == ' ';
    }
  }

  lemma VarStarts(s: Source, t: Tree, p: nat)
    requires t.Var? && Fits(t, 3) && IsSource(s) && Stands(s, t, p)
    ensures s.lex(p) == Lexeme(Variable, 1) && At(s.text, p) == t.name && Gap(s, p + 1, t.gap)
  {
    PartsMatch(s.text, p, [t.name], Spaces(t.gap));
    assert s.text[p..p + 1][0] == t.name;
    if t.gap > 0 {
      AfterGap(s.text, p + 1, t.gap);
      WordAlone(s.text, p);
    }
    VariableHere(s, p);
  }

  lemma VariableHere(s: Source, p: nat)
    requires IsSource(s) && IsLetter(At(s.text, p)) && NoKeyword(s.text, p)
    ensures s.lex(p) == Lexeme(Variable, 1)
  {
    LexVariable(s.text, p);
    assert Seen(p);
  }

  /** An expression does not start with a space or a keyword. */
  lemma {:induction false} Starts(s: Source, t: Tree, p: nat)
    requires Fits(t, 3) && IsSource(s) && Stands(s, t, p)
    ensures At(s.text, p) != ' ' && s.lex(p).token in {Number, Variable, LeftParen}
    ensures t.Num? ==> s.lex(p).token == Number
    ensures t.Var? ==> s.lex(p).token == Variable
    ensures t.Paren? ==> s.lex(p).token == LeftParen
    decreases t, 2
  {
    match t
    case Num(_, _) => NumStarts(s, t, p);
    case Var(_, _) => VarStarts(s, t, p);
    case Paren(_, _, _) => StandsParen(s, t, p);
    case Bin(left, _, _, _) =>
      StandsBin(s, t, p);
      Starts(s, left, p);
  }
}
