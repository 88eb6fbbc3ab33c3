/** The recursive-descent evaluator of uBasic (Apps/UBasic/ubasic.c). */
module UbasicEval {
  import opened Words
  import opened UbasicTokens
  import opened UbasicTokenizer
  import opened UbasicTree

  // ---------- Runs of operators of one level ----------

  /** s is t, or what t is when its last few operators of this level are left out. */
  predicate LeftOf(s: Tree, t: Tree, level: nat) {
    s == t || (t.Bin? && Level(t.op) == level && LeftOf(s, t.left, level))
  }

  function First(t: Tree, level: nat): Tree {
    if t.Bin? && Level(t.op) == level then First(t.left, level) else t
  }

  /** s with one operator more. */
  function Longer(s: Tree, t: Tree, level: nat): (u: Tree)
    requires LeftOf(s, t, level) && s != t
    ensures u.Bin? && u.left == s && Level(u.op) == level && LeftOf(u, t, level)
  {
    if t.left == s then t else Longer(s, t.left, level)
  }

  function Size(t: Tree): nat {
    match t
    case Num(_, _) => 1
    case Var(_, _) => 1
    case Paren(_, inner, _) => 1 + Size(inner)
    case Bin(left, _, _, right) => 1 + Size(left) + Size(right)
  }

  /** Part of t, and all of it if of the same size. */
  lemma {:induction false} LeftIsPart(src: Source, s: Tree, t: Tree, level: nat, p: nat, vars: seq<int>, signed: bool)
    requires LeftOf(s, t, level) && Fits(t, level) && 1 <= level <= 3 && IsSource(src) && Stands(src, t, p)
    requires |vars| == 26
    ensures Stands(src, s, p) && Fits(s, level) && Size(s) <= Size(t) && EndOf(s, p) <= EndOf(t, p)
    ensures Size(s) == Size(t) ==> s == t
    ensures Value(t, vars, signed).Some? ==> Value(s, vars, signed).Some?
  {
    if s != t {
      FitsMore(t, level, 3);
      StandsBin(src, t, p);
      LeftIsPart(src, s, t.left, level, p, vars, signed);
    }
  }

  /** The operator right of s, which is one of its level. */
  lemma NextOpStands(src: Source, s: Tree, t: Tree, level: nat, p: nat, vars: seq<int>, signed: bool) returns (u: Tree)
    requires LeftOf(s, t, level) && s != t && Fits(t, level) && 1 <= level <= 3 && IsSource(src)
    requires Stands(src, t, p) && |vars| == 26
    ensures u.Bin? && u.left == s && Level(u.op) == level && LeftOf(u, t, level) && Stands(src, u, p)
    ensures Fits(u, 3) && Fits(u, level) && Size(u) <= Size(t)
      && (Value(t, vars, signed).Some? ==> Value(u, vars, signed).Some?)
  {
    u := Longer(s, t, level);
    LeftIsPart(src, u, t, level, p, vars, signed);
    FitsMore(u, level, 3);
  }

  lemma {:induction false} FirstIsLeft(t: Tree, level: nat)
    requires Fits(t, level) && level > 0
    ensures LeftOf(First(t, level), t, level) && Fits(First(t, level), level - 1)
  {
    if t.Bin? && Level(t.op) == level {
      FirstIsLeft(t.left, level);
    } else if t.Bin? {
      assert Level(t.op) <= level - 1;
    }
  }

  /** After t there is no operator that term, expr or relation would go on with. */
  predicate Stops(token: Token, level: nat) {
    && (level >= 1 ==> !IsOp(token, 1)) && (level >= 2 ==> !IsOp(token, 2)) && (level >= 3 ==> !IsOp(token, 3))
  }

  predicate StopsAt(src: Source, p: nat, level: nat) {
    Stops(src.lex(p).token, level)
  }

  /** The next operator of a run, and what is right of it. */
  lemma NextOp(src: Source, s: Tree, t: Tree, level: nat, p: nat, vars: seq<int>, signed: bool) returns (u: Tree)
    requires LeftOf(s, t, level) && s != t && Fits(t, level) && 1 <= level <= 3 && IsSource(src)
    requires Stands(src, t, p) && |vars| == 26
    requires StopsAt(src, EndOf(t, p), level) && Value(t, vars, signed).Some?
    ensures u.Bin? && u.left == s && Level(u.op) == level && LeftOf(u, t, level) && Stands(src, u, p) && Fits(u, 3)
    ensures StopsAt(src, EndOf(u, p), level - 1)
    ensures Fits(u.right, level - 1) && Size(u.right) < Size(t)
    ensures Value(u, vars, signed).Some? && Value(u.right, vars, signed).Some?
  {
    u := NextOpStands(src, s, t, level, p, vars, signed);
    RightPart(u, level, vars, signed);
    StopsBelow(src, u, t, level, p, vars, signed);
  }

  lemma RightPart(t: Tree, level: nat, vars: seq<int>, signed: bool)
    requires t.Bin? && Level(t.op) == level && Fits(t, level) && |vars| == 26 && Value(t, vars, signed).Some?
    ensures Fits(t.right, level - 1) && Size(t.right) < Size(t) && Value(t.right, vars, signed).Some?
  {
  }

  /** What follows part of a run is an operator of its level, and so none of a lower one. */
  lemma StopsBelow(src: Source, u: Tree, t: Tree, level: nat, p: nat, vars: seq<int>, signed: bool)
    requires LeftOf(u, t, level) && Fits(t, level) && 1 <= level <= 3 && IsSource(src) && Stands(src, t, p)
    requires |vars| == 26
    requires StopsAt(src, EndOf(t, p), level)
    ensures StopsAt(src, EndOf(u, p), level - 1)
  {
    if u != t {
      var w := Longer(u, t, level);
      LeftIsPart(src, w, t, level, p, vars, signed);
      FitsMore(w, level, 3);
      StandsBin(src, w, p);
      OpTokenIsOp(w.op, 1);
      OpTokenIsOp(w.op, 2);
    }
  }

  // ---------- The evaluator ----------

  class Basic {
    const tok: Tokenizer
    var variables: seq<int>
    ghost const src: Source

    ghost predicate Valid()
      reads this
    {
      |variables| == 26 && src == tok.src && tok.Valid()
    }

    /** The current token is the one at p. */
    ghost predicate Reading(p: nat)
      reads this, tok
    {
      && tok.ptr == p && tok.current == src.lex(p).token
      && (src.lex(p).length > 0 ==> tok.nextptr == p + src.lex(p).length)
    }

    constructor (program: string, signed: bool, vars: seq<int>)
      requires |vars| == 26
      ensures Valid() && variables == vars && tok.program == program && tok.signedChar == signed && fresh(tok)
      ensures Reading(0)
    {
      var k := new Tokenizer(program, signed);
      tok, src, variables := k, k.src, vars;
    }

    /** tokenizer_next, past a token of length n and the gap after it. */
    method Skip(ghost token: Token, ghost p: nat, ghost n: nat, ghost gap: nat)
      requires Valid() && Reading(p) && Lies(token, p, n, gap)
      modifies tok
      ensures Reading(p + n + gap)
    {
      ToNext(token, p, n, gap);
      tok.Next();
    }

    /** accept: past the token expected, or nowhere if it is another one. */
    method Accept(token: Token)
      requires Valid()
      modifies tok
      ensures tok.Pos() == if old(tok.current) == token && !old(tok.Finished()) then Advance(src, old(tok.nextptr))
        else old(tok.Pos())
    {
      if token != tok.current {
        return;
      }
      tok.Next();
    }

    /** A token of length n lies at p, and after it a gap. */
    ghost predicate Lies(token: Token, p: nat, n: nat, gap: nat) {
      && src.lex(p) == Lexeme(token, n) && n > 0 && At(tok.program, p) != '\0'
      && token !in {EndOfInput, Rem} && Gap(src, p + n, gap)
    }

    /** Past a token that is the one expected. */
    method Expect(token: Token, ghost p: nat, ghost n: nat, ghost gap: nat)
      requires Valid() && Reading(p) && Lies(token, p, n, gap)
      modifies tok
      ensures Reading(p + n + gap)
    {
      ToNext(token, p, n, gap);
      Accept(token);
    }

    /** Where tokenizer_next goes from there. */
    lemma ToNext(token: Token, p: nat, n: nat, gap: nat)
      requires Valid() && Reading(p) && Lies(token, p, n, gap)
      ensures Advance(src, tok.nextptr) == TokenAt(src, p + n + gap, p + n) && !tok.Finished() && tok.current == token
    {
      GapAdvance(src, p + n, gap);
    }

    ghost function ValueHere(t: Tree): Option
      requires Valid()
      reads this
    {
      Value(t, variables, tok.signedChar)
    }

    method VarFactor(ghost t: Tree, ghost p: nat) returns (r: int)
      requires Valid() && t.Var? && Fits(t, 0) && Reading(p) && Stands(src, t, p)
      modifies tok
      ensures Reading(EndOf(t, p)) && ValueHere(t) == Some(r)
    {
      VarStarts(src, t, p);
      r := VariableAt(variables, At(tok.program, tok.ptr) as int - 'a' as int);
      Expect(Variable, p, 1, t.gap);
    }

    method NumFactor(ghost t: Tree, ghost p: nat) returns (r: int)
      requires Valid() && t.Num? && Fits(t, 0) && Reading(p) && Stands(src, t, p)
      modifies tok
      ensures Reading(EndOf(t, p)) && ValueHere(t) == Some(r)
    {
      hide Stands, Gap, Matches;
      NumStarts(src, t, p);
      r := tok.Num();
      DigitsHere(p, |t.digits|);
      Expect(Number, p, |t.digits|, t.gap);
    }

    lemma DigitsHere(p: nat, n: nat)
      requires Valid() && src.lex(p) == Lexeme(Number, n)
      ensures Digits(src.text, p) == n
    {
      assert Seen(p);
      NumberIsDigits(src.text, p);
    }

    lemma ParenLieHere(t: Tree, p: nat)
      requires Valid() && t.Paren? && Fits(t, 0) && Stands(src, t, p)
      ensures Lies(LeftParen, p, 1, t.open)
      ensures var q := EndOf(t.inner, p + 1 + t.open); Lies(RightParen, q, 1, t.gap) && q + 1 + t.gap == EndOf(t, p)
    {
      hide Stands, Render, EndOf, Gap;
      FitsMore(t, 0, 3);
      StandsParen(src, t, p);
    }

    lemma InnerWhole(t: Tree, p: nat)
      requires Valid() && t.Paren? && Fits(t, 0) && Stands(src, t, p) && ValueHere(t).Some?
      ensures Whole(t.inner, 2, p + 1 + t.open)
    {
      StandsParen(src, t, p);
      InnerValue(t);
      ClosesExpr(EndOf(t.inner, p + 1 + t.open));
    }

    lemma InnerValue(t: Tree)
      requires Valid() && t.Paren? && Fits(t, 0) && ValueHere(t).Some?
      ensures Size(t.inner) < Size(t) && ValueHere(t) == Narrow(ValueHere(t.inner), tok.signedChar)
      ensures Fits(t.inner, 2) && ValueHere(t.inner).Some?
    {
    }

    lemma ClosesExpr(p: nat)
      requires src.lex(p).token == RightParen
      ensures StopsAt(src, p, 2)
    {
    }

    method InParens(ghost t: Tree, ghost p: nat, ghost open: nat, ghost gap: nat) returns (r: int)
      requires Valid() && Reading(p) && Whole(t, 2, p + 1 + open)
      requires Lies(LeftParen, p, 1, open) && Lies(RightParen, EndOf(t, p + 1 + open), 1, gap)
      modifies tok
      ensures Reading(EndOf(t, p + 1 + open) + 1 + gap) && Narrow(ValueHere(t), tok.signedChar) == Some(r)
      decreases Size(t), 5
    {
      hide Whole, Lies, Reading, Render, EndOf, Value;
      Expect(LeftParen, p, 1, open);
      r := Expr(t, p + 1 + open);
      Expect(RightParen, EndOf(t, p + 1 + open), 1, gap);
    }

    method ParenFactor(ghost t: Tree, ghost p: nat) returns (r: int)
      requires Valid() && t.Paren? && Fits(t, 0) && Reading(p) && Stands(src, t, p) && ValueHere(t).Some?
      modifies tok
      ensures Reading(EndOf(t, p)) && ValueHere(t) == Some(r)
      decreases Size(t), 0
    {
      hide Render, Stands, Fits, Lies, Whole, Reading;
      ParenLieHere(t, p);
      InnerWhole(t, p);
      InnerValue(t);
      r := InParens(t.inner, p, t.open, t.gap);
    }

    method Factor(ghost t: Tree, ghost p: nat) returns (r: int)
      requires Valid() && Fits(t, 0) && Reading(p) && Stands(src, t, p) && ValueHere(t).Some?
      modifies tok
      ensures Reading(EndOf(t, p)) && ValueHere(t) == Some(r)
      decreases Size(t), 1
    {
      Starts(src, t, p);
      if tok.current == Number {
        r := NumFactor(t, p);
      } else if tok.current == LeftParen {
        r := ParenFactor(t, p);
      } else {
        r := VarFactor(t, p);
      }
    }

    /** What a call for an expression of this level needs. */
    ghost predicate Whole(t: Tree, level: nat, p: nat)
      reads this
    {
      && Valid() && Fits(t, level) && Stands(src, t, p) && ValueHere(t).Some?
      && StopsAt(src, EndOf(t, p), level)
    }

    /** A run has been taken in as far as s. */
    ghost predicate Midway(s: Tree, t: Tree, level: nat, p: nat)
      reads this, tok
    {
      LeftOf(s, t, level) && Size(s) <= Size(t) && Reading(EndOf(s, p)) && (s != t ==> Size(s) < Size(t))
    }

    /** The first operand of a run. */
    lemma RunStarts(t: Tree, level: nat, p: nat)
      requires 1 <= level <= 3 && Whole(t, level, p)
      ensures var s := First(t, level);
        LeftOf(s, t, level) && Whole(s, level - 1, p) && Size(s) <= Size(t) && (s != t ==> Size(s) < Size(t))
    {
      var s := First(t, level);
      FirstIsLeft(t, level);
      LeftIsPart(src, s, t, level, p, variables, tok.signedChar);
      FirstStops(t, level, p);
    }

    lemma FirstStops(t: Tree, level: nat, p: nat)
      requires 1 <= level <= 3 && Whole(t, level, p) && LeftOf(First(t, level), t, level)
      ensures StopsAt(src, EndOf(First(t, level), p), level - 1)
    {
      if First(t, level) != t {
        var u := NextOp(src, First(t, level), t, level, p, variables, tok.signedChar);
        StandsBin(src, u, p);
        OpTokenIsOp(u.op, 1);
        OpTokenIsOp(u.op, 2);
      }
    }

    /** A run is over when the token is no operator of its level. */
    lemma RunEnds(s: Tree, t: Tree, level: nat, p: nat)
      requires 1 <= level <= 3 && Whole(t, level, p) && Midway(s, t, level, p)
      ensures s != t <==> IsOp(tok.current, level)
    {
      if s != t {
        var u := NextOp(src, s, t, level, p, variables, tok.signedChar);
        StandsBin(src, u, p);
        OpTokenIsOp(u.op, level);
      }
    }

    /** Past the operator. */
    method PassOp(ghost s: Tree, ghost t: Tree, ghost level: nat, ghost p: nat) returns (ghost u: Tree, ghost r: nat)
      requires Valid() && 1 <= level <= 3 && Whole(t, level, p) && Midway(s, t, level, p) && s != t
      modifies tok
      ensures u.Bin? && u.left == s && Level(u.op) == level && OpToken(u.op) == old(tok.current)
      ensures Reading(r) && Whole(u.right, level - 1, r) && EndOf(u.right, r) == EndOf(u, p) && Size(u.right) < Size(t)
      ensures LeftOf(u, t, level) && Size(s) < Size(u) <= Size(t) && (u != t ==> Size(u) < Size(t))
        && ValueHere(u).Some?
    {
      hide Render, Value, Whole, LeftOf, Gap;
      u := AfterOp(s, t, level, p);
      r := EndOf(s, p) + 1 + u.opGap;
      Skip(OpToken(u.op), EndOf(s, p), 1, u.opGap);
    }

    lemma OperatorLies(u: Tree, p: nat)
      requires u.Bin? && Valid() && Fits(u, 3) && Stands(src, u, p)
      ensures var q := EndOf(u.left, p); var r := q + 1 + u.opGap;
        Lies(OpToken(u.op), q, 1, u.opGap) && Stands(src, u.right, r) && EndOf(u.right, r) == EndOf(u, p)
    {
      StandsBin(src, u, p);
    }

    lemma AfterOp(s: Tree, t: Tree, level: nat, p: nat) returns (u: Tree)
      requires 1 <= level <= 3 && Whole(t, level, p) && LeftOf(s, t, level) && s != t
      ensures u.Bin? && u.left == s && Level(u.op) == level
      ensures Lies(OpToken(u.op), EndOf(s, p), 1, u.opGap)
      ensures var r := EndOf(s, p) + 1 + u.opGap; Whole(u.right, level - 1, r) && EndOf(u.right, r) == EndOf(u, p)
      ensures Size(u.right) < Size(t) && LeftOf(u, t, level) && ValueHere(u).Some?
      ensures Size(s) < Size(u) <= Size(t) && (u != t ==> Size(u) < Size(t))
    {
      hide Stands, Render, Fits, Value, Lies;
      u := NextOp(src, s, t, level, p, variables, tok.signedChar);
      OperatorLies(u, p);
      LeftIsPart(src, u, t, level, p, variables, tok.signedChar);
    }

    method Term(ghost t: Tree, ghost p: nat) returns (f1: int)
      requires Whole(t, 1, p) && Reading(p)
      modifies tok
      ensures Reading(EndOf(t, p)) && ValueHere(t) == Some(f1)
      decreases Size(t), 2
    {
      ghost var s := First(t, 1);
      RunStarts(t, 1, p);
      f1 := Factor(s, p);
      var op := tok.current;
      RunEnds(s, t, 1, p);
      while op == Astr || op == Slash || op == Mod
        invariant Midway(s, t, 1, p) && ValueHere(s) == Some(f1)
        invariant op == tok.current && (s != t <==> IsOp(op, 1))
        decreases Size(t) - Size(s)
      {
        f1, s := TermMore(op, f1, s, t, p);
        op := tok.current;
        RunEnds(s, t, 1, p);
      }
    }

    lemma TermValue(u: Tree, x: int, y: int)
      requires Valid() && u.Bin? && Level(u.op) == 1 && ValueHere(u).Some? && ValueHere(u.left) == Some(x)
      requires ValueHere(u.right) == Some(y)
      ensures OpToken(u.op) != Astr ==> y != 0
      ensures ValueHere(u).value ==
        match OpToken(u.op) case Astr => x * y case Slash => Quotient(x, y) case _ => x - y * Quotient(x, y)
    {
      assert Compute(u.op, x, y) == ValueHere(u);
    }

    method TermMore(op: Token, f1: int, ghost s: Tree, ghost t: Tree, ghost p: nat) returns (r: int, ghost u: Tree)
      requires Valid() && Whole(t, 1, p) && Midway(s, t, 1, p) && s != t && ValueHere(s) == Some(f1)
      requires op == tok.current
      modifies tok
      ensures Midway(u, t, 1, p) && Size(s) < Size(u) && ValueHere(u) == Some(r)
      decreases Size(t), 0
    {
      hide EndOf, Reading, Value, LeftOf, Fits, Stands, StopsAt, Quotient;
      ghost var q;
      u, q := PassOp(s, t, 1, p);
      var f2 := Factor(u.right, q);
      TermValue(u, f1, f2);
      if op == Astr {
        r := f1 * f2;
      } else if op == Slash {
        r := Quotient(f1, f2);
      } else {
        r := f1 - f2 * Quotient(f1, f2);
      }
    }

    method Expr(ghost t: Tree, ghost p: nat) returns (r: int)
      requires Whole(t, 2, p) && Reading(p)
      modifies tok
      ensures Reading(EndOf(t, p)) && Narrow(ValueHere(t), tok.signedChar) == Some(r)
      decreases Size(t), 4
    {
      ghost var s := First(t, 2);
      RunStarts(t, 2, p);
      var t1 := Term(s, p);
      var op := tok.current;
      RunEnds(s, t, 2, p);
      while op == Plus || op == Minus || op == And || op == Or
        invariant Midway(s, t, 2, p) && ValueHere(s) == Some(t1)
        invariant op == tok.current && (s != t <==> IsOp(op, 2))
        decreases Size(t) - Size(s)
      {
        t1, s := ExprMore(op, t1, s, t, p);
        op := tok.current;
        RunEnds(s, t, 2, p);
      }
      r := ToChar(t1, tok.signedChar);
    }

    lemma ExprValue(u: Tree, x: int, y: int)
      requires Valid() && u.Bin? && Level(u.op) == 2 && ValueHere(u).Some? && ValueHere(u.left) == Some(x)
      requires ValueHere(u.right) == Some(y)
      ensures ValueHere(u).value ==
        match OpToken(u.op)
        case Plus => x + y
        case Minus => x - y
        case And => ToInt32(Words.And(Wrap(x), Wrap(y)))
        case _ => ToInt32(Words.Or(Wrap(x), Wrap(y)))
    {
      assert Compute(u.op, x, y) == ValueHere(u);
    }

    method ExprMore(op: Token, t1: int, ghost s: Tree, ghost t: Tree, ghost p: nat) returns (r: int, ghost u: Tree)
      requires Valid() && Whole(t, 2, p) && Midway(s, t, 2, p) && s != t && ValueHere(s) == Some(t1)
      requires op == tok.current
      modifies tok
      ensures Midway(u, t, 2, p) && Size(s) < Size(u) && ValueHere(u) == Some(r)
      decreases Size(t), 3
    {
      hide Whole, EndOf, Reading, Value, LeftOf;
      ghost var q;
      u, q := PassOp(s, t, 2, p);
      var t2 := Term(u.right, q);
      ExprValue(u, t1, t2);
      if op == Plus {
        r := t1 + t2;
      } else if op == Minus {
        r := t1 - t2;
      } else if op == And {
        r := ToInt32(Words.And(Wrap(t1), Wrap(t2)));
      } else {
        r := ToInt32(Words.Or(Wrap(t1), Wrap(t2)));
      }
    }

    /** An operand of a relation: what expr gives, or what the relation so far has. */
    ghost function Operand(t: Tree): Option
      requires Valid()
      reads this
    {
      if IsRelation(t) then ValueHere(t) else Narrow(ValueHere(t), tok.signedChar)
    }

    method Relation(ghost t: Tree, ghost p: nat) returns (r1: int)
      requires Whole(t, 3, p) && Reading(p)
      modifies tok
      ensures Reading(EndOf(t, p)) && Operand(t) == Some(r1)
      decreases Size(t), 6
    {
      ghost var s := First(t, 3);
      RunStarts(t, 3, p);
      r1 := Expr(s, p);
      var op := tok.current;
      RunEnds(s, t, 3, p);
      while op == Lt || op == Gt || op == Eq
        invariant Midway(s, t, 3, p) && Operand(s) == Some(r1)
        invariant op == tok.current && (s != t <==> IsOp(op, 3))
        decreases Size(t) - Size(s)
      {
        r1, s := RelationMore(op, r1, s, t, p);
        op := tok.current;
        RunEnds(s, t, 3, p);
      }
    }

    lemma RelationValue(u: Tree, x: int, y: int)
      requires Valid() && u.Bin? && Level(u.op) == 3 && ValueHere(u).Some?
      requires Operand(u.left) == Some(x) && Narrow(ValueHere(u.right), tok.signedChar) == Some(y)
      ensures Operand(u) == Some(match OpToken(u.op)
        case Lt => if x < y then 1 else 0
        case Gt => if x > y then 1 else 0
        case _ => if x == y then 1 else 0)
    {
      assert Compute(u.op, x, y) == ValueHere(u);
    }

    method RelationMore(op: Token, r1: int, ghost s: Tree, ghost t: Tree, ghost p: nat) returns (r: int, ghost u: Tree)
      requires Valid() && Whole(t, 3, p) && Midway(s, t, 3, p) && s != t && Operand(s) == Some(r1) && op == tok.current
      modifies tok
      ensures Midway(u, t, 3, p) && Size(s) < Size(u) && Operand(u) == Some(r)
      decreases Size(t), 5
    {
      hide Whole, EndOf, Reading, Value, LeftOf;
      ghost var q;
      u, q := PassOp(s, t, 3, p);
      var r2 := Expr(u.right, q);
      RelationValue(u, r1, r2);
      if op == Lt {
        r := if r1 < r2 then 1 else 0;
      } else if op == Gt {
        r := if r1 > r2 then 1 else 0;
      } else {
        r := if r1 == r2 then 1 else 0;
      }
    }
  }

  /** The result of relation on t: an int if t is a relation, else a char. */
  function Result(t: Tree, vars: seq<int>, signed: bool): Option
    requires |vars| == 26
  {
    if IsRelation(t) then Value(t, vars, signed) else Narrow(Value(t, vars, signed), signed)
  }

  /** The program starts with t, its last token does not run on, and no operator or comment follows. */
  ghost predicate StartsWith(program: string, t: Tree) {
    var n := |Render(t)|;
    && Matches(program, 0, Render(t)) && Parts(t, program, n) && At(program, n) != ' '
    && Lex(program, n).token != Rem && Stops(Lex(program, n).token, 3)
  }

  /** Tokenizing and evaluating the text of any expression takes in just that text, and gives its value. */
  method Evaluate(program: string, signed: bool, vars: seq<int>, ghost t: Tree) returns (r: int, end: nat)
    requires |vars| == 26 && Fits(t, 3) && Value(t, vars, signed).Some? && StartsWith(program, t)
    ensures Result(t, vars, signed) == Some(r) && end == |Render(t)|
  {
    var b := new Basic(program, signed, vars);
    assert Seen(EndOf(t, 0));
    r := b.Relation(t, 0);
    end := b.tok.ptr;
  }

  /** So it is before a separator and at the end of the program, whatever the expression. */
  lemma EndsAny(program: string, t: Tree)
    requires var n := |Render(t)|; Matches(program, 0, Render(t)) && At(program, n) in {'\0', '\n', ',', ';', ')', '#'}
    ensures StartsWith(program, t)
  {
    PartsAny(t, program, |Render(t)|);
    EndToken(program, |Render(t)|);
  }

  lemma EndToken(program: string, n: nat)
    requires At(program, n) in {'\0', '\n', ',', ';', ')', '#'}
    ensures Lex(program, n).token in {EndOfInput, Cr, Comma, Semicolon, RightParen, Hash}
  {
  }

  /** 7 - 2 - 1 is (7 - 2) - 1, and 1 + 2 * 3 is 1 + (2 * 3). */
  method Precedence(vars: seq<int>) returns (a: int, b: int)
    requires |vars| == 26
    ensures a == 4 && b == 7
  {
    hide Render, Fits, StartsWith;
    ghost var t := LeftFirst(vars);
    EndsAny("7-2-1", t);
    var end;
    a, end := Evaluate("7-2-1", true, vars, t);
    ghost var u := ProductFirst(vars);
    EndsAny("1+2*3", u);
    b, end := Evaluate("1+2*3", true, vars, u);
  }

  lemma LeftFirst(vars: seq<int>) returns (t: Tree)
    requires |vars| == 26
    ensures Fits(t, 3) && Render(t) == "7-2-1" && !IsRelation(t) && Value(t, vars, true) == Some(4)
  {
    OneDigit('7', vars);
    OneDigit('2', vars);
    OneDigit('1', vars);
    var s := Bin(Num("7", 0), Subtract, 0, Num("2", 0));
    assert Render(s) == "7-2" && Value(s, vars, true) == Some(5);
    t := Bin(s, Subtract, 0, Num("1", 0));
  }

  lemma ProductFirst(vars: seq<int>) returns (t: Tree)
    requires |vars| == 26
    ensures Fits(t, 3) && Render(t) == "1+2*3" && !IsRelation(t) && Value(t, vars, true) == Some(7)
  {
    OneDigit('1', vars);
    OneDigit('2', vars);
    OneDigit('3', vars);
    var s := Bin(Num("2", 0), Times, 0, Num("3", 0));
    assert Render(s) == "2*3" && Value(s, vars, true) == Some(6);
    t := Bin(Num("1", 0), Add, 0, s);
  }

  lemma OneDigit(d: char, vars: seq<int>)
    requires IsDigit(d) && |vars| == 26
    ensures Fits(Num([d], 0), 0) && Render(Num([d], 0)) == [d] && Value(Num([d], 0), vars, true) == Some(DigitValue(d))
  {
    assert [d][..0] == [];
    assert Decimal([d]) == DigitValue(d);
  }

  /** Literals are chars: one is read as the number it spells exactly when that number is one. */
  lemma LiteralKept(digits: string, gap: nat, vars: seq<int>, signed: bool)
    requires AllDigits(digits) && |vars| == 26
    ensures Value(Num(digits, gap), vars, signed) == Some(Decimal(digits)) <==>
      Decimal(digits) < (if signed then 0x80 else 0x100)
  {
  }

  /** So 200 is read as -56 where char is signed. */
  lemma LiteralsWrap(vars: seq<int>)
    requires |vars| == 26
    ensures Value(Num("200", 0), vars, true) == Some(-56) && Value(Num("200", 0), vars, false) == Some(200)
  {
    assert "200"[..2] == "20" && "20"[..1] == "2" && "2"[..0] == "";
    assert Decimal("2") == 2 && Decimal("20") == 20 && Decimal("200") == 200;
  }
}
