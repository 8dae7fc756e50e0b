/** Bitwise operations of C on unsigned integers of a given width, defined
    bit by bit from the least significant bit, and the facts about bit 0
    that the relay byte relies on. */
module Bits {

  /** 2 to the power n. */
  function Pow2(n: nat): (r: nat)
    ensures r >= 1
  {
    if n == 0 then 1 else 2 * Pow2(n - 1)
  }

  /** Bit i of a; bit 0 is the least significant. */
  function Bit(a: nat, i: nat): nat
  {
    if i == 0 then a % 2 else Bit(a / 2, i - 1)
  }

  /** The low w bits of a & b. */
  function And(a: nat, b: nat, w: nat): (r: nat)
    ensures r < Pow2(w)
  {
    if w == 0 then 0
    else 2 * And(a / 2, b / 2, w - 1) + (if a % 2 == 1 && b % 2 == 1 then 1 else 0)
  }

  /** The low w bits of a | b. */
  function Or(a: nat, b: nat, w: nat): (r: nat)
    ensures r < Pow2(w)
  {
    if w == 0 then 0
    else 2 * Or(a / 2, b / 2, w - 1) + (if a % 2 == 1 || b % 2 == 1 then 1 else 0)
  }

  /** The low w bits of ~a. */
  function Not(a: nat, w: nat): (r: nat)
    ensures r < Pow2(w)
  {
    if w == 0 then 0 else 2 * Not(a / 2, w - 1) + (1 - a % 2)
  }

  /** x | 0 == x for x of width w. */
  lemma {:induction false} OrZero(a: nat, w: nat)
    requires a < Pow2(w)
    ensures Or(a, 0, w) == a
    decreases w
  {
    if w > 0 {
      OrZero(a / 2, w - 1);
    }
  }

  /** x & (2^w - 1) == x for x of width w. */
  lemma {:induction false} AndAllOnes(a: nat, w: nat)
    requires a < Pow2(w)
    ensures And(a, Pow2(w) - 1, w) == a
    decreases w
  {
    if w > 0 {
      assert (Pow2(w) - 1) / 2 == Pow2(w - 1) - 1;
      AndAllOnes(a / 2, w - 1);
    }
  }

  /** x | 1 sets bit 0 of x and keeps the others. */
  lemma OrOne(a: nat, w: nat)
    requires 0 < w && a < Pow2(w)
    ensures Or(a, 1, w) == a - a % 2 + 1
  {
    OrZero(a / 2, w - 1);
  }

  /** x & ~1 clears bit 0 of x and keeps the others. */
  lemma AndNotOne(a: nat, w: nat)
    requires 0 < w && a < Pow2(w)
    ensures And(a, Not(1, w), w) == a - a % 2
  {
    NotOneIsHigh(w);
    AndAllOnes(a / 2, w - 1);
  }

  /** x & 1 is bit 0 of x. */
  lemma AndOne(a: nat, w: nat)
    requires 0 < w
    ensures And(a, 1, w) == a % 2 == Bit(a, 0)
  {
    AndZero(a / 2, w - 1);
  }

  /** ~1 over w bits is all ones above bit 0. */
  lemma {:induction false} NotOneIsHigh(w: nat)
    requires 0 < w
    ensures Not(1, w) == 2 * (Pow2(w - 1) - 1)
  {
    NotZero(w - 1);
  }

  /** ~0 over w bits is all ones. */
  lemma {:induction false} NotZero(w: nat)
    ensures Not(0, w) == Pow2(w) - 1
    decreases w
  {
    if w > 0 {
      NotZero(w - 1);
    }
  }

  /** x & 0 == 0. */
  lemma {:induction false} AndZero(a: nat, w: nat)
    ensures And(a, 0, w) == 0
    decreases w
  {
    if w > 0 {
      AndZero(a / 2, w - 1);
    }
  }

  /** Masking with a single bit 2^i picks out bit i of a. */
  lemma {:induction false} AndPow2(a: nat, i: nat, w: nat)
    requires i < w
    ensures And(a, Pow2(i), w) == Pow2(i) * Bit(a, i)
    decreases i
  {
    if i == 0 {
      AndOne(a, w);
    } else {
      var p, b := Pow2(i - 1), Bit(a / 2, i - 1);
      AndEvenMask(a, Pow2(i), w);
      assert Pow2(i) / 2 == p;
      AndPow2(a / 2, i - 1, w - 1);
      assert Pow2(i) * Bit(a, i) == 2 * (p * b);
    }
  }

  /** A mask with bit 0 clear clears bit 0 and masks the rest one bit down. */
  lemma AndEvenMask(a: nat, m: nat, w: nat)
    requires w > 0 && m % 2 == 0
    ensures And(a, m, w) == 2 * And(a / 2, m / 2, w - 1)
  {
  }
}
