/** Greatest common divisors, and what the multiples of one number leave when divided by another. */
module Divisors {
  import opened Words

  function Gcd(a: nat, b: nat): (g: nat)
    ensures a + b > 0 ==> g > 0
  {
    if a == 0 then b else Gcd(b % a, a)
  }

  /** b in terms of b % a. */
  lemma Parts(a: nat, b: nat)
    requires a > 0
    ensures b == b / a * a + b % a && b / a >= 0
  {
    MultipleBounds(b / a, a);
  }

  /** It divides both. */
  lemma {:induction false} GcdDivides(a: nat, b: nat) returns (x: nat, y: nat)
    ensures a == x * Gcd(a, b) && b == y * Gcd(a, b)
  {
    if a == 0 {
      x, y := 0, 1;
    } else {
      var u, v := GcdDivides(b % a, a);
      var g := Gcd(a, b);
      Parts(a, b);
      ProductNat(b / a, v);
      x, y := v, b / a * v + u;
      Gather(b / a, v, u, g);
    }
  }

  lemma ProductNat(q: nat, v: nat)
    ensures q * v >= 0
  {
  }

  lemma Gather(q: int, v: int, u: int, g: int)
    ensures q * (v * g) + u * g == (q * v + u) * g
  {
  }

  /** And it is a sum of multiples of the two. */
  lemma {:induction false} Bezout(a: nat, b: nat) returns (s: int, t: int)
    ensures s * a + t * b == Gcd(a, b)
  {
    if a == 0 {
      s, t := 0, 1;
    } else {
      var u, v := Bezout(b % a, a);
      Parts(a, b);
      s, t := v - u * (b / a), u;
      Exchange(u, v, b / a, a, b % a);
    }
  }

  lemma Exchange(u: int, v: int, q: int, a: int, m: int)
    ensures (v - u * q) * a + u * (q * a + m) == u * m + v * a
  {
  }

  /** What a multiple of r leaves, divided by w, is at least a divisor short of w. */
  lemma RemainderAtMost(r: nat, w: nat, j: nat)
    requires 0 < w
    ensures j * r % w <= w - Gcd(r, w)
  {
    var g, q := Gcd(r, w), j * r / w;
    var x, y := GcdDivides(r, w);
    var m := j * x - q * y;
    Parts(w, j * r);
    LeftOver(j, x, q, y, g);
    MultipleBelow(m, y, g);
  }

  lemma MultipleBelow(m: int, y: int, g: int)
    requires g > 0 && m * g < y * g
    ensures m * g <= y * g - g
  {
    Distribute(m, y, g);
    MultipleBounds(m - y, g);
    MultipleBounds(m - y + 1, g);
  }

  lemma LeftOver(j: int, x: int, q: int, y: int, g: int)
    ensures j * (x * g) - q * (y * g) == (j * x - q * y) * g
  {
  }

  lemma Distribute(m: int, y: int, g: int)
    ensures (m - y) * g == m * g - y * g && (m - y + 1) * g == m * g - y * g + g
  {
  }

  /** And some multiple leaves just that. */
  lemma RemainderReached(r: nat, w: nat) returns (j: nat)
    requires 0 < r < w
    ensures j < w && j * r % w == w - Gcd(r, w)
  {
    var g := Gcd(r, w);
    var s, t := Bezout(r, w);
    var x, y := GcdDivides(r, w);
    DivisorSmall(x, g, r);
    j := -s % w;
    var m := -s / w;
    assert -s == m * w + j;
    Turned(s, t, m, r, w, j);
    DivideUnique(j * r, w, t - m * r - 1, w - g);
  }

  lemma DivisorSmall(x: nat, g: nat, r: nat)
    requires r == x * g && r > 0 && g > 0
    ensures g <= r
  {
    MultipleBounds(x, g);
  }

  lemma Turned(s: int, t: int, m: int, r: int, w: int, j: int)
    requires -s == m * w + j
    ensures j * r == (t - m * r - 1) * w + (w - (s * r + t * w))
  {
    assert j == -s - m * w;
    assert (-s - m * w) * r == -(s * r) - m * w * r;
    assert (t - m * r - 1) * w == t * w - m * r * w - w;
  }
}
