/** Bitwise operators on natural numbers, defined bit by bit. */
module Bits {

  function And(a: nat, b: nat): (r: nat)
    ensures r <= a && r <= b
    decreases a
  {
    if a == 0 || b == 0 then 0 else 2 * And(a / 2, b / 2) + (a % 2) * (b % 2)
  }

  function Or(a: nat, b: nat): nat
    decreases a + b
  {
    if a == 0 then b else if b == 0 then a
    else 2 * Or(a / 2, b / 2) + (if a % 2 == 1 || b % 2 == 1 then 1 else 0)
  }

  function Pow2(n: nat): (p: nat)
    ensures p > 0
  {
    if n == 0 then 1 else 2 * Pow2(n - 1)
  }

  lemma {:induction false} Pow2Add(a: nat, b: nat)
    ensures Pow2(a + b) == Pow2(a) * Pow2(b)
  {
    if a > 0 {
      Pow2Add(a - 1, b);
      assert Pow2(a + b) == 2 * Pow2(a - 1 + b);
      assert 2 * (Pow2(a - 1) * Pow2(b)) == (2 * Pow2(a - 1)) * Pow2(b);
    }
  }

  lemma {:induction false} Pow2Monotone(a: nat, b: nat)
    requires a <= b
    ensures Pow2(a) <= Pow2(b)
  {
    if a < b { Pow2Monotone(a, b - 1); }
  }

  /** Disjoint bits: or-ing a multiple of 2**n with a number below 2**n adds them. */
  lemma {:induction false} OrDisjoint(a: nat, b: nat, n: nat)
    requires b < Pow2(n)
    ensures Or(a * Pow2(n), b) == a * Pow2(n) + b
    decreases n
  {
    if n > 0 && a > 0 && b > 0 {
      var p := Pow2(n - 1);
      assert a * Pow2(n) == 2 * (a * p);
      assert a * p > 0;
      OrDisjoint(a, b / 2, n - 1);
    } else if a == 0 {
      assert a * Pow2(n) == 0;
    }
  }

  lemma {:induction false} OrCommutes(a: nat, b: nat)
    ensures Or(a, b) == Or(b, a)
    decreases a + b
  {
    if a > 0 && b > 0 { OrCommutes(a / 2, b / 2); }
  }

  /** Testing the highest bit a number can have. */
  lemma {:induction false} AndBit(x: nat, n: nat)
    requires x < Pow2(n + 1)
    ensures And(x, Pow2(n)) != 0 <==> x >= Pow2(n)
    decreases n
  {
    if n > 0 && x > 0 {
      AndBit(x / 2, n - 1);
      assert Pow2(n) / 2 == Pow2(n - 1) && Pow2(n) % 2 == 0;
    }
  }

  /** Setting a clear bit adds its weight. */
  lemma {:induction false} OrBit(a: nat, b: nat, n: nat)
    requires b < Pow2(n)
    ensures Or(a * Pow2(n + 1) + b, Pow2(n)) == a * Pow2(n + 1) + b + Pow2(n)
    decreases n
  {
    var p := Pow2(n);
    assert a * (2 * p) == 2 * (a * p);
    if n > 0 { OrBit(a, b / 2, n - 1); }
  }
}
