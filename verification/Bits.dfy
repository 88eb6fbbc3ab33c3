/** The bits of a word, one by one, and what the bitwise operations make of them. */
module Bits {
  import opened Words

  function Pow2(i: nat): (p: nat)
    ensures p > 0
  {
    if i == 0 then 1 else 2 * Pow2(i - 1)
  }

  function Bit(x: nat, i: nat): nat {
    x / Pow2(i) % 2
  }

  lemma BitNext(x: nat, i: nat)
    ensures Bit(x, i + 1) == Bit(x / 2, i) && Bit(x, 0) == x % 2
  {
    var p := Pow2(i);
    var q, r := x / 2 / p, x / 2 % p;
    assert x / 2 == q * p + r && Pow2(i + 1) == 2 * p;
    assert x == q * (2 * p) + (2 * r + x % 2);
    DivideUnique(x, 2 * p, q, 2 * r + x % 2);
    assert Pow2(0) == 1;
  }

  lemma {:induction false} NoBits(i: nat)
    ensures Bit(0, i) == 0
  {
    if i > 0 {
      BitNext(0, i - 1);
      NoBits(i - 1);
    } else {
      BitNext(0, 0);
    }
  }

  lemma AndHalves(x: nat, y: nat)
    ensures And(x, y) / 2 == And(x / 2, y / 2) && And(x, y) % 2 == if x % 2 == 1 && y % 2 == 1 then 1 else 0
  {
  }

  lemma {:induction false} AndBits(x: nat, y: nat, i: nat)
    ensures Bit(And(x, y), i) == if Bit(x, i) == 1 && Bit(y, i) == 1 then 1 else 0
    decreases i
  {
    hide And, Bit;
    AndHalves(x, y);
    var k := if i == 0 then 0 else i - 1;
    BitNext(x, k);
    BitNext(y, k);
    BitNext(And(x, y), k);
    if i > 0 {
      AndBits(x / 2, y / 2, k);
    }
  }

  lemma OrHalves(x: nat, y: nat)
    ensures Or(x, y) / 2 == Or(x / 2, y / 2) && Or(x, y) % 2 == if x % 2 == 1 || y % 2 == 1 then 1 else 0
  {
  }

  lemma {:induction false} OrBits(x: nat, y: nat, i: nat)
    ensures Bit(Or(x, y), i) == if Bit(x, i) == 1 || Bit(y, i) == 1 then 1 else 0
    decreases i
  {
    hide Or, Bit;
    OrHalves(x, y);
    var k := if i == 0 then 0 else i - 1;
    BitNext(x, k);
    BitNext(y, k);
    BitNext(Or(x, y), k);
    if i > 0 {
      OrBits(x / 2, y / 2, k);
    }
  }

  lemma XorHalves(x: nat, y: nat)
    ensures Xor(x, y) / 2 == Xor(x / 2, y / 2) && Xor(x, y) % 2 == if x % 2 != y % 2 then 1 else 0
  {
  }

  lemma {:induction false} XorBits(x: nat, y: nat, i: nat)
    ensures Bit(Xor(x, y), i) == if Bit(x, i) != Bit(y, i) then 1 else 0
    decreases i
  {
    hide Xor, Bit;
    XorHalves(x, y);
    var k := if i == 0 then 0 else i - 1;
    BitNext(x, k);
    BitNext(y, k);
    BitNext(Xor(x, y), k);
    if i > 0 {
      XorBits(x / 2, y / 2, k);
    }
  }

  /** A number of n bits is 0 when they are. */
  lemma {:induction false} ZeroBits(x: nat, n: nat)
    requires x < Pow2(n) && forall i :: 0 <= i < n ==> Bit(x, i) == 0
    ensures x == 0
    decreases n
  {
    if n > 0 {
      BitNext(x, 0);
      assert Bit(x, 0) == 0;
      forall i | 0 <= i < n - 1 ensures Bit(x / 2, i) == 0 {
        BitNext(x, i);
        assert Bit(x, i + 1) == 0;
      }
      ZeroBits(x / 2, n - 1);
    }
  }

  /** Numbers of n bits are the same when their bits are. */
  lemma {:induction false} SameBits(x: nat, y: nat, n: nat)
    requires x < Pow2(n) && y < Pow2(n) && forall i :: 0 <= i < n ==> Bit(x, i) == Bit(y, i)
    ensures x == y
    decreases n
  {
    if n > 0 {
      BitNext(x, 0);
      BitNext(y, 0);
      assert Bit(x, 0) == Bit(y, 0);
      forall i | 0 <= i < n - 1 ensures Bit(x / 2, i) == Bit(y / 2, i) {
        BitNext(x, i);
        BitNext(y, i);
        assert Bit(x, i + 1) == Bit(y, i + 1);
      }
      SameBits(x / 2, y / 2, n - 1);
    }
  }

  lemma BitIs(x: nat, i: nat)
    ensures Bit(x, i) == 0 || Bit(x, i) == 1
  {
  }

  lemma {:induction false} AndSmall(x: nat, y: nat)
    ensures And(x, y) <= y
    decreases y
  {
    if x != 0 && y != 0 {
      AndSmall(x / 2, y / 2);
    }
  }

  lemma {:induction false} OrSmall(x: nat, y: nat, n: nat)
    requires x < Pow2(n) && y < Pow2(n)
    ensures Or(x, y) < Pow2(n)
    decreases n
  {
    if x != 0 && y != 0 {
      OrSmall(x / 2, y / 2, n - 1);
    }
  }

  /** The n lowest bits of 2^n - 1 are set. */
  lemma {:induction false} OneBits(i: nat, n: nat)
    requires i < n
    ensures Bit(Pow2(n) - 1, i) == 1
    decreases n
  {
    hide Bit;
    assert (Pow2(n) - 1) / 2 == Pow2(n - 1) - 1;
    BitNext(Pow2(n) - 1, if i == 0 then 0 else i - 1);
    if i > 0 {
      OneBits(i - 1, n - 1);
    }
  }

  lemma WordBits()
    ensures Pow2(8) == 0x100 && Pow2(16) == 0x1_0000 && Pow2(32) == WORD
  {
    assert Pow2(4) == 16 && Pow2(8) == 16 * Pow2(4);
    assert Pow2(12) == 16 * Pow2(8) && Pow2(16) == 16 * Pow2(12);
    assert Pow2(20) == 16 * Pow2(16) && Pow2(24) == 16 * Pow2(20);
    assert Pow2(28) == 16 * Pow2(24) && Pow2(32) == 16 * Pow2(28);
  }
}
