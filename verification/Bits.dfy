/** Bitwise operations on natural numbers, digit by binary digit. */
module Bits {

  function And(a: nat, b: nat): nat {
    if a == 0 || b == 0 then 0 else (if a % 2 == 1 && b % 2 == 1 then 1 else 0) + 2 * And(a / 2, b / 2)
  }

  function Or(a: nat, b: nat): nat {
    if a == 0 then b else if b == 0 then a
    else (if a % 2 == 1 || b % 2 == 1 then 1 else 0) + 2 * Or(a / 2, b / 2)
  }

  function Pow2(n: nat): (p: nat)
    ensures p >= 1
  {
    if n == 0 then 1 else 2 * Pow2(n - 1)
  }

  lemma {:induction false} AndSelf(x: nat)
    ensures And(x, x) == x
  {
    if x > 0 {
      AndSelf(x / 2);
    }
  }

  lemma {:induction false} OrSelf(x: nat)
    ensures Or(x, x) == x
  {
    if x > 0 {
      OrSelf(x / 2);
    }
  }

  lemma {:induction false} Pow2Sum(m: nat, n: nat)
    ensures Pow2(m + n) == Pow2(m) * Pow2(n)
  {
    if m > 0 {
      Pow2Sum(m - 1, n);
      Regroup(Pow2(m - 1), Pow2(n));
    }
  }

  lemma Regroup(a: nat, b: nat)
    ensures 2 * (a * b) == (2 * a) * b
  {
  }

  /** Bits that do not meet add up. */
  lemma {:induction false} OrDisjoint(a: nat, v: nat, s: nat)
    requires a < Pow2(s)
    ensures Or(a, v * Pow2(s)) == a + v * Pow2(s)
  {
    var m := v * Pow2(s);
    if s > 0 && a > 0 && m > 0 {
      var h := v * Pow2(s - 1);
      assert m == 2 * h by { Regroup2(v, Pow2(s - 1)); }
      OrDisjoint(a / 2, v, s - 1);
      assert m / 2 == h && m % 2 == 0;
    }
  }

  lemma Regroup2(v: nat, p: nat)
    ensures v * (2 * p) == 2 * (v * p)
  {
  }
}
