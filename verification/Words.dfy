/** Machine words, chars, and division. */
module Words {
  const WORD := 0x1_0000_0000

  /** The unsigned word holding the low 32 bits of x. */
  function Wrap(x: int): nat {
    x % 0x1_0000_0000
  }

  /** The int holding the low 32 bits of x. */
  function ToInt32(x: int): int {
    Wrap(x + 0x8000_0000) - 0x8000_0000
  }

  /** Bitwise or. */
  function Or(x: nat, y: nat): nat {
    if x == 0 then y
    else if y == 0 then x
    else 2 * Or(x / 2, y / 2) + (if x % 2 == 1 || y % 2 == 1 then 1 else 0)
  }

  /** Bitwise and. */
  function And(x: nat, y: nat): nat {
    if x == 0 || y == 0 then 0
    else 2 * And(x / 2, y / 2) + (if x % 2 == 1 && y % 2 == 1 then 1 else 0)
  }

  /** Bitwise exclusive or. */
  function Xor(x: nat, y: nat): nat {
    if x == 0 then y
    else if y == 0 then x
    else 2 * Xor(x / 2, y / 2) + (if x % 2 != y % 2 then 1 else 0)
  }

  /** Division toward zero. */
  function Quotient(a: int, b: int): int
    requires b != 0
  {
    if a >= 0 then a / b else -(-a / b)
  }

  function Abs(x: int): nat {
    if x < 0 then -x else x
  }

  /** The low 8 bits; whether a char is signed depends on the compiler. */
  function ToChar(x: int, signed: bool): int {
    if signed && x % 0x100 >= 0x80 then x % 0x100 - 0x100 else x % 0x100
  }

  /** Both stay within their range, and leave out or add only multiples of 2^32. */
  lemma WordMeans(x: int)
    ensures 0 <= Wrap(x) < 0x1_0000_0000 && (x - Wrap(x)) % 0x1_0000_0000 == 0
    ensures -0x8000_0000 <= ToInt32(x) < 0x8000_0000 && (x - ToInt32(x)) % 0x1_0000_0000 == 0
  {
  }

  /** A char is the number's remainder by 256, taken from -128 to 127 if it is signed, and from 0 to 255 if not. */
  lemma CharMeans(x: int, signed: bool)
    ensures (x - ToChar(x, signed)) % 0x100 == 0
    ensures if signed then -0x80 <= ToChar(x, signed) < 0x80 else 0 <= ToChar(x, signed) < 0x100
  {
  }

  /** What is left over is less than the divisor, and of the sign of the number divided. */
  lemma QuotientMeans(a: int, b: int)
    requires b != 0
    ensures var r := a - b * Quotient(a, b);
      (if a >= 0 then 0 <= r else r <= 0) && Abs(r) < Abs(b)
  {
    if a < 0 {
      assert -a == b * (-a / b) + -a % b && b * -(-a / b) == -(b * (-a / b));
    }
  }

  lemma MultipleBounds(m: int, w: int)
    requires w > 0
    ensures m >= 1 ==> m * w >= w
    ensures m <= -1 ==> m * w <= -w
  {
  }

  lemma DivideUnique(x: int, w: int, q: int, r: int)
    requires w > 0 && x == q * w + r && 0 <= r < w
    ensures x / w == q && x % w == r
  {
    MultipleBounds(x / w - q, w);
    assert (x / w - q) * w == x / w * w - q * w;
  }

  lemma DivideOrder(x: int, y: int, w: int)
    requires w > 0 && x <= y
    ensures x / w <= y / w
  {
    var a, b := x / w, y / w;
    assert x == a * w + x % w && y == b * w + y % w;
    MultipleBounds(a - b, w);
    assert (a - b) * w == a * w - b * w;
  }
}
