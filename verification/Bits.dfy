/** Bitwise operators on unsigned numbers of any width, bit by bit. */
module Bits {
  function Pow2(k: nat): (p: nat)
    ensures p > 0
  {
    if k == 0 then 1 else 2 * Pow2(k - 1)
  }

  /** a | b. */
  function Or(a: nat, b: nat): nat {
    if a == 0 then b
    else (if a % 2 == 1 || b % 2 == 1 then 1 else 0) + 2 * Or(a / 2, b / 2)
  }

  /** a ^ b. */
  function Xor(a: nat, b: nat): nat {
    if a == 0 then b
    else (if a % 2 != b % 2 then 1 else 0) + 2 * Xor(a / 2, b / 2)
  }

  lemma {:induction false} Pow2Sum(j: nat, k: nat)
    ensures Pow2(j + k) == Pow2(j) * Pow2(k)
  {
    if j > 0 {
      Pow2Sum(j - 1, k);
      Associates(2, Pow2(j - 1), Pow2(k));
    }
  }

  lemma Associates(a: nat, b: nat, c: nat)
    ensures a * (b * c) == a * b * c
  {
  }

  /** Bits or-ed in above those already there are added. */
  lemma {:induction false} OrIsPlus(a: nat, y: nat, j: nat)
    requires a < Pow2(j)
    ensures Or(a, y * Pow2(j)) == a + y * Pow2(j)
  {
    if a > 0 {
      var b := y * Pow2(j - 1);
      assert y * Pow2(j) == 2 * b by { Associates(2, y, Pow2(j - 1)); }
      assert Or(a, 2 * b) == a % 2 + 2 * Or(a / 2, b);
      OrIsPlus(a / 2, y, j - 1);
    }
  }

  /** Exclusive or with all ones is subtraction from all ones. */
  lemma {:induction false} XorAllOnes(a: nat, k: nat)
    requires a < Pow2(k)
    ensures Xor(a, Pow2(k) - 1) == Pow2(k) - 1 - a
  {
    if a > 0 {
      var m := Pow2(k - 1);
      XorHalves(a, 2 * m - 1);
      XorAllOnes(a / 2, k - 1);
      assert (2 * m - 1) / 2 == m - 1 && (2 * m - 1) % 2 == 1;
    }
  }

  lemma XorHalves(a: nat, b: nat)
    requires a > 0
    ensures Xor(a, b) == (if a % 2 != b % 2 then 1 else 0) + 2 * Xor(a / 2, b / 2)
  {
  }

  lemma {:induction false} XorZero(a: nat)
    ensures Xor(a, 0) == a
  {
    if a > 0 { XorZero(a / 2); }
  }
}
