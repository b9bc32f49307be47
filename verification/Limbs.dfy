/** Numbers as sequences of 32-bit limbs, least significant first. */
module Limbs {
  import opened Arithmetic
  import opened Bits

  const LIMB: nat := 0x1_0000_0000

  /** 2**32 to the n-th power. */
  function Base(n: nat): (r: nat)
    ensures r > 0
  {
    Pow2(32 * n)
  }

  function Val(s: seq<nat>): nat {
    if s == [] then 0 else Val(s[..|s| - 1]) + s[|s| - 1] * Base(|s| - 1)
  }

  predicate Limbed(s: seq<nat>) {
    forall i :: 0 <= i < |s| ==> s[i] < LIMB
  }

  lemma Pow2Limb()
    ensures Pow2(32) == LIMB && Pow2(31) == 0x8000_0000 && Pow2(16) == 0x1_0000 && Pow2(8) == 256
  {
    assert Pow2(8) == 256;
    Pow2Add(8, 8);
    Pow2Add(16, 16);
    assert Pow2(32) == 2 * Pow2(31);
  }

  lemma SmallBases()
    ensures Base(0) == 1 && Base(1) == LIMB && Base(2) == LIMB * LIMB
  {
    hide Base;
    assert Base(0) == 1 by { Pow2Zero(); }
    BaseStep(0);
    BaseStep(1);
  }

  lemma Pow2Zero()
    ensures Pow2(0) == 1 && Base(0) == 1
  {
  }

  lemma BaseStep(n: nat)
    ensures Base(n + 1) == LIMB * Base(n)
  {
    Pow2Limb();
    Pow2Add(32, 32 * n);
  }

  lemma BaseAdd(m: nat, n: nat)
    ensures Base(m + n) == Base(m) * Base(n)
  {
    Pow2Add(32 * m, 32 * n);
  }

  lemma ValAppend(s: seq<nat>, x: nat)
    ensures Val(s + [x]) == Val(s) + x * Base(|s|)
  {
    assert (s + [x])[..|s|] == s;
  }

  /** A limb sequence stays below the base of its length. */
  lemma {:induction false} ValBound(s: seq<nat>)
    requires Limbed(s)
    ensures Val(s) < Base(|s|)
  {
    if s != [] {
      var n := |s| - 1;
      ValBound(s[..n]);
      BaseStep(n);
      MulMonotone(s[n], LIMB - 1, Base(n));
      assert Val(s) == Val(s[..n]) + s[n] * Base(n);
      assert (LIMB - 1) * Base(n) == LIMB * Base(n) - Base(n);
    }
  }

  lemma {:induction false} ValZeros(s: seq<nat>)
    requires forall i :: 0 <= i < |s| ==> s[i] == 0
    ensures Val(s) == 0
  {
    if s != [] { ValZeros(s[..|s| - 1]); }
  }

  /** Splitting a number at a limb boundary. */
  lemma {:induction false} ValSplit(s: seq<nat>, k: nat)
    requires k <= |s|
    ensures Val(s) == Val(s[..k]) + Base(k) * Val(s[k..])
    decreases |s|
  {
    hide Base;
    if k == |s| {
      assert s[..k] == s && s[k..] == [];
    } else {
      var n := |s| - 1;
      ValSplit(s[..n], k);
      assert s[..n][..k] == s[..k] && s[k..][..n - k] == s[..n][k..];
      BaseAdd(k, n - k);
      SplitStep(Val(s[k..n]), s[n], Base(k), Base(n - k));
    }
  }

  lemma SplitStep(v: nat, x: nat, b: nat, c: nat)
    ensures b * (v + x * c) == b * v + x * (b * c)
  {
    assert b * (v + x * c) == b * v + b * (x * c);
  }

  /** Changing one limb changes the value by the difference at that place. */
  lemma ValUpdate(s: seq<nat>, j: nat, x: nat)
    requires j < |s|
    ensures Val(s[j := x]) == Val(s) - s[j] * Base(j) + x * Base(j)
  {
    hide Base;
    var t := s[j := x];
    ValSplit(s, j + 1);
    ValSplit(t, j + 1);
    assert s[j + 1..] == t[j + 1..];
    assert s[..j + 1] == s[..j] + [s[j]];
    assert t[..j + 1] == s[..j] + [x];
    ValAppend(s[..j], s[j]);
    ValAppend(s[..j], x);
  }

  /** A number, split at limb i. */
  lemma ValAt(s: seq<nat>, i: nat)
    requires i < |s|
    ensures Val(s) == Val(s[..i]) + s[i] * Base(i) + Base(i + 1) * Val(s[i + 1..])
  {
    hide Base;
    ValSplit(s, i + 1);
    assert s[..i + 1] == s[..i] + [s[i]];
    ValAppend(s[..i], s[i]);
  }

  /** The first differing limb from the top decides the order. */
  lemma ValOrder(s: seq<nat>, t: seq<nat>, i: nat)
    requires |s| == |t| && i < |s| && Limbed(s) && Limbed(t)
    requires s[i] < t[i] && forall j :: i < j < |s| ==> s[j] == t[j]
    ensures Val(s) < Val(t)
  {
    hide Base, Val;
    ValAt(s, i);
    ValAt(t, i);
    assert s[i + 1..] == t[i + 1..];
    ValBound(s[..i]);
    HigherLimb(Val(s[..i]), Val(t[..i]), s[i], t[i], Base(i));
  }

  lemma HigherLimb(a: nat, b: nat, x: nat, y: nat, p: nat)
    requires a < p && x < y
    ensures a + x * p < b + y * p
  {
    MulMonotone(x + 1, y, p);
    assert (x + 1) * p == x * p + p;
  }

  // ---------- single steps of the carry loops ----------

  /** n = (n / 2**32) * 2**32 + n % 2**32, scaled by a place value. */
  lemma SplitWord(n: nat, p: nat)
    ensures n * p == (n % LIMB) * p + (n / LIMB) * (LIMB * p)
  {
    var q, r := n / LIMB, n % LIMB;
    assert n == q * LIMB + r;
    assert q * (LIMB * p) == (q * LIMB) * p;
    assert (q * LIMB + r) * p == (q * LIMB) * p + r * p;
  }

  /** One limb of an addition: what was written and carried accounts for what was read. */
  lemma AddStep(v: int, u: int, w: int, x: nat, y: nat, carry: nat, p: nat)
    requires v + carry * p == u + w
    ensures var n := carry + x + y;
            v + (n % LIMB) * p + (n / LIMB) * (LIMB * p) == (u + x * p) + (w + y * p)
  {
    var n := carry + x + y;
    SplitWord(n, p);
    assert n * p == carry * p + x * p + y * p;
  }

  /** A product of two words, kept folded in the loops below. */
  function Product(x: nat, y: nat): nat {
    x * y
  }

  /** One limb of a multiplication by a word, added to a partial sum. */
  lemma MulStep(v: int, u: int, w: nat, x: nat, y: nat, z: nat, carry: nat, p: nat, pj: nat, pi: nat)
    requires p == pj * pi
    requires v + carry * p == u + Product(x * pj, w)
    ensures var n := carry + z + Product(x, y);
            v + (n % LIMB) * p + (n / LIMB) * (LIMB * p) == (u + z * p) + Product(x * pj, w + y * pi)
  {
    var n, xy := carry + z + x * y, x * y;
    SplitWord(n, p);
    assert n * p == carry * p + z * p + xy * p;
    assert x * pj * (w + y * pi) == x * pj * w + (x * pj) * (y * pi);
    assert (x * pj) * (y * pi) == xy * (pj * pi) by { Rearrange(x, pj, y, pi); }
  }

  lemma ProductZero(x: nat, y: nat)
    ensures Product(x, 0) == 0 && Product(x * 1, y) == x * y && Product(0, y) == 0
  {
  }

  lemma Rearrange(a: nat, b: nat, c: nat, d: nat)
    ensures (a * b) * (c * d) == (a * c) * (b * d)
  {
    assert (a * b) * (c * d) == a * (b * (c * d));
    assert b * (c * d) == c * (b * d);
    assert a * (c * (b * d)) == (a * c) * (b * d);
  }

  /** The product of two words with two more words added fits in 64 bits. */
  lemma WordProduct(x: nat, y: nat, z: nat, carry: nat)
    requires x < LIMB && y < LIMB && z < LIMB && carry < LIMB
    ensures carry + z + Product(x, y) < LIMB * LIMB && (carry + z + Product(x, y)) / LIMB < LIMB
  {
    MulMonotone(x, LIMB - 1, y);
    MulMonotone(y, LIMB - 1, LIMB - 1);
    assert x * y <= (LIMB - 1) * (LIMB - 1);
  }

  /** The remainder modulo a base, from any witness of the multiple left off. */
  lemma Wrap(v: nat, q: int, total: int, b: nat)
    requires 0 <= v < b && v + q * b == total
    ensures v == total % b
  {
    DivModUnique(total, b, q, v);
  }
}
