/** The word operations the tree navigation is written with, bit by bit on natural numbers.
    `LeftBalanced.StepsFitWord` says for which positions they coincide with the 64-bit ones. */
module Bits {

  function Pow2(k: nat): (r: nat)
    ensures r > 0
  {
    if k == 0 then 1 else 2 * Pow2(k - 1)
  }

  function Xor(a: nat, b: nat): nat
    decreases a + b
  {
    if a == 0 && b == 0 then 0 else (a + b) % 2 + 2 * Xor(a / 2, b / 2)
  }

  function Or(a: nat, b: nat): nat
    decreases a + b
  {
    if a == 0 && b == 0 then 0 else (if a % 2 == 1 || b % 2 == 1 then 1 else 0) + 2 * Or(a / 2, b / 2)
  }

  function Shl(a: nat, k: nat): nat {
    if k == 0 then a else 2 * Shl(a, k - 1)
  }

  function Shr(a: nat, k: nat): nat
    decreases k
  {
    if k == 0 then a else Shr(a / 2, k - 1)
  }

  function TrailingOnes(x: nat): nat {
    if x % 2 == 0 then 0 else 1 + TrailingOnes(x / 2)
  }

  /** `checked_ilog2().unwrap_or(0)`. */
  function Log2(n: nat): nat {
    if n <= 1 then 0 else 1 + Log2(n / 2)
  }

  lemma XorDigits(a: nat, p: nat, b: nat, q: nat)
    requires p < 2 && q < 2
    ensures Xor(2 * a + p, 2 * b + q) == (p + q) % 2 + 2 * Xor(a, b)
  {
    assert (2 * a + p) / 2 == a && (2 * b + q) / 2 == b;
    if 2 * a + p == 0 && 2 * b + q == 0 {
      assert Xor(a, b) == 0;
    } else {
      assert (2 * a + p + (2 * b + q)) % 2 == (p + q) % 2;
    }
  }

  lemma OrDigits(a: nat, p: nat, b: nat, q: nat)
    requires p < 2 && q < 2
    ensures Or(2 * a + p, 2 * b + q) == (if p == 1 || q == 1 then 1 else 0) + 2 * Or(a, b)
  {
    assert (2 * a + p) / 2 == a && (2 * b + q) / 2 == b;
    if 2 * a + p == 0 && 2 * b + q == 0 {
      assert Or(a, b) == 0;
    }
  }

  lemma XorZero(a: nat)
    ensures Xor(a, 0) == a
  {
  }

  lemma OrZero(a: nat)
    ensures Or(a, 0) == a
  {
  }

  lemma DoubleProduct(q: nat, p: nat)
    ensures q * (2 * p) == 2 * (q * p) && (2 * q) * p == 2 * (q * p)
  {
  }

  lemma ShlPow2(a: nat, k: nat)
    ensures Shl(a, k) == a * Pow2(k)
  {
    if k > 0 {
      ShlPow2(a, k - 1);
      DoubleProduct(a, Pow2(k - 1));
    }
  }

  lemma Pow2Mono(a: nat, b: nat)
    requires a <= b
    ensures Pow2(a) <= Pow2(b)
  {
    if a < b {
      Pow2Mono(a, b - 1);
    }
  }

  /** `Log2` is the exponent of the largest power of two not above `n`. */
  lemma {:induction false} Log2Bounds(n: nat)
    requires n > 0
    ensures Pow2(Log2(n)) <= n < Pow2(Log2(n) + 1)
  {
    if n > 1 {
      Log2Bounds(n / 2);
    }
  }

  lemma {:induction false} Log2Unique(n: nat, k: nat)
    requires Pow2(k) <= n < Pow2(k + 1)
    ensures Log2(n) == k
  {
    if k > 0 {
      Log2Unique(n / 2, k - 1);
    }
  }
}
