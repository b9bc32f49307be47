/** Numbers as digits, most significant first, in any base, and the powers that bound them. */
module Radix {
  import opened Arithmetic

  function Pow(b: nat, n: nat): (r: nat)
    ensures b > 0 ==> r > 0
  {
    if n == 0 then 1 else b * Pow(b, n - 1)
  }

  lemma {:induction false} PowAdd(b: nat, m: nat, n: nat)
    ensures Pow(b, m + n) == Pow(b, m) * Pow(b, n)
  {
    if m > 0 {
      PowAdd(b, m - 1, n);
      Associate(b, Pow(b, m - 1), Pow(b, n));
      assert Pow(b, m + n) == b * Pow(b, m - 1 + n);
    }
  }

  lemma Associate(a: nat, b: nat, c: nat)
    ensures a * (b * c) == (a * b) * c
  {
  }

  lemma {:induction false} PowOfPow(b: nat, m: nat, n: nat)
    ensures Pow(Pow(b, m), n) == Pow(b, m * n)
  {
    if n > 0 {
      PowOfPow(b, m, n - 1);
      PowAdd(b, m, m * (n - 1));
      assert m * n == m + m * (n - 1);
    }
  }

  lemma {:induction false} PowMonotone(b: nat, m: nat, n: nat)
    requires b > 0 && m <= n
    ensures Pow(b, m) <= Pow(b, n)
  {
    if m < n {
      PowMonotone(b, m, n - 1);
      MulMonotone(1, b, Pow(b, n - 1));
    }
  }

  lemma {:induction false} PowBase(a: nat, b: nat, n: nat)
    requires a <= b
    ensures Pow(a, n) <= Pow(b, n)
  {
    if n > 0 {
      PowBase(a, b, n - 1);
      MulMonotone(Pow(a, n - 1), Pow(b, n - 1), a);
      MulMonotone(a, b, Pow(b, n - 1));
    }
  }

  lemma {:induction false} PowStrict(a: nat, b: nat, n: nat)
    requires a < b && n > 0
    ensures Pow(a, n) < Pow(b, n)
  {
    if n > 1 {
      PowStrict(a, b, n - 1);
      MulMonotone(Pow(a, n - 1), Pow(b, n - 1), a);
      StrictScale(a, b, Pow(b, n - 1));
    }
  }

  /** Comparing numbers by comparing a power of them. */
  lemma RootOrder(a: nat, b: nat, n: nat)
    requires n > 0 && Pow(a, n) <= Pow(b, n)
    ensures a <= b
  {
    if b < a { PowStrict(b, a, n); }
  }

  // ---------- values ----------

  predicate Digits(d: seq<nat>, base: nat) {
    forall i :: 0 <= i < |d| ==> d[i] < base
  }

  function Value(d: seq<nat>, base: nat): nat {
    if d == [] then 0 else Value(d[..|d| - 1], base) * base + d[|d| - 1]
  }

  /** The digits of a number without leading zeroes. */
  function Shortest(v: nat, base: nat): (d: seq<nat>)
    requires base > 1
    ensures Digits(d, base) && (d != [] ==> d[0] != 0)
  {
    if v == 0 then [] else (DivSmaller(v, base); Shortest(v / base, base) + [v % base])
  }

  lemma DivSmaller(v: nat, base: nat)
    requires v > 0 && base > 1
    ensures 0 <= v / base < v && v == (v / base) * base + v % base && (v / base == 0 ==> v % base != 0)
  {
    DivBounds(v, base);
    MulMonotone(2, base, v / base);
  }

  lemma {:induction false} ValueBound(d: seq<nat>, base: nat)
    requires Digits(d, base) && base > 0
    ensures Value(d, base) < Pow(base, |d|)
  {
    if d != [] {
      var n := |d| - 1;
      ValueBound(d[..n], base);
      StrictScale(Value(d[..n], base), Pow(base, n), base);
    }
  }

  lemma {:induction false} ValueSplit(d: seq<nat>, k: nat, base: nat)
    requires k <= |d|
    ensures Value(d, base) == Value(d[..k], base) * Pow(base, |d| - k) + Value(d[k..], base)
    decreases |d|
  {
    if k == |d| {
      assert d[..k] == d;
    } else {
      var n := |d| - 1;
      ValueSplit(d[..n], k, base);
      assert d[..n][..k] == d[..k] && d[k..][..n - k] == d[..n][k..];
      SplitArith(Value(d[..k], base), Pow(base, n - k), Value(d[k..n], base), base);
    }
  }

  lemma SplitArith(a: nat, p: nat, v: nat, base: nat)
    ensures (a * p + v) * base == a * (base * p) + v * base
  {
    assert (a * p + v) * base == (a * p) * base + v * base;
    assert (a * p) * base == a * (base * p);
  }

  lemma {:induction false} ValueZeros(d: seq<nat>, base: nat)
    requires forall i :: 0 <= i < |d| ==> d[i] == 0
    ensures Value(d, base) == 0
  {
    if d != [] { ValueZeros(d[..|d| - 1], base); }
  }

  lemma LeadingZeros(d: seq<nat>, k: nat, base: nat)
    requires k <= |d| && forall i :: 0 <= i < k ==> d[i] == 0
    ensures Value(d, base) == Value(d[k..], base)
  {
    hide Value, Pow;
    ValueSplit(d, k, base);
    ValueZeros(d[..k], base);
    assert 0 * Pow(base, |d| - k) == 0;
  }

  lemma ValuePrepend(x: nat, d: seq<nat>, base: nat)
    ensures Value([x] + d, base) == x * Pow(base, |d|) + Value(d, base)
  {
    var s := [x] + d;
    ValueSplit(s, 1, base);
    assert s[..1] == [x] && s[1..] == d && [x][..0] == [];
  }

  /** A leading digit other than zero puts a number above the power of its place. */
  lemma LeadingDigit(d: seq<nat>, base: nat)
    requires d != [] && Digits(d, base) && base > 0
    ensures d[0] != 0 <==> Value(d, base) >= Pow(base, |d| - 1)
  {
    assert d == [d[0]] + d[1..];
    ValuePrepend(d[0], d[1..], base);
    ValueBound(d[1..], base);
    if d[0] != 0 { MulMonotone(1, d[0], Pow(base, |d| - 1)); }
  }

  lemma {:induction false} ValueOfShortest(v: nat, base: nat)
    requires base > 1
    ensures Value(Shortest(v, base), base) == v
  {
    if v > 0 {
      DivSmaller(v, base);
      ValueOfShortest(v / base, base);
      assert Shortest(v, base)[..|Shortest(v, base)| - 1] == Shortest(v / base, base);
    }
  }

  /** Digits without a leading zero are the digits of their value. */
  lemma {:induction false} ShortestOfValue(d: seq<nat>, base: nat)
    requires base > 1 && Digits(d, base) && (d != [] ==> d[0] != 0)
    ensures Shortest(Value(d, base), base) == d
  {
    if d != [] {
      var n := |d| - 1;
      var v := Value(d[..n], base);
      ShortestOfValue(d[..n], base);
      LeadingDigit(d, base);
      DivModUnique(Value(d, base), base, v, d[n]);
    }
  }

  lemma ShortestMonotone(v: nat, w: nat, base: nat)
    requires base > 1 && v <= w
    ensures |Shortest(v, base)| <= |Shortest(w, base)|
  {
    var a, b := Shortest(v, base), Shortest(w, base);
    ValueOfShortest(v, base);
    ValueOfShortest(w, base);
    if a != [] && |b| < |a| {
      LeadingDigit(a, base);
      ValueBound(b, base);
      PowMonotone(base, |b|, |a| - 1);
    }
  }

  // ---------- buffer sizes ----------

  lemma SmallPowers()
    ensures Pow(2, 8) == 256 && Pow(2, 9) == 512 && Pow(2, 10) == 1024 && Pow(58, 1) == 58 && Pow(58, 2) == 3364
  {
  }

  /** 256**n fits in n * 138 / 100 + 1 base-58 digits, because 58**5 >= 2**29. */
  lemma EncodeBuffer(n: nat)
    ensures Pow(256, n) <= Pow(58, n * 138 / 100 + 1)
  {
    hide Pow;
    var s := n * 138 / 100 + 1;
    SmallPowers();
    Pow58Five();
    PowOfPow(2, 8, n);
    PowOfPow(2, 8 * n, 5);
    PowOfPow(58, s, 5);
    PowOfPow(58, 5, s);
    PowBase(Pow(2, 29), Pow(58, 5), s);
    PowOfPow(2, 29, s);
    PowMonotone(2, 8 * n * 5, 29 * s);
    RootOrder(Pow(256, n), Pow(58, s), 5);
  }

  lemma Pow58Five()
    ensures Pow(2, 29) <= Pow(58, 5)
  {
    hide Pow;
    SmallPowers();
    PowAdd(2, 10, 10);
    PowAdd(2, 20, 9);
    PowAdd(58, 2, 2);
    PowAdd(58, 4, 1);
  }

  /** 58**n fits in n * 733 / 1000 + 1 bytes, because 58**22 <= 2**129. */
  lemma DecodeBuffer(n: nat)
    ensures Pow(58, n) <= Pow(256, n * 733 / 1000 + 1)
  {
    hide Pow;
    var s := n * 733 / 1000 + 1;
    SmallPowers();
    Pow58TwentyTwo();
    PowOfPow(58, n, 22);
    PowOfPow(58, 22, n);
    PowBase(Pow(58, 22), Pow(2, 129), n);
    PowOfPow(2, 129, n);
    PowOfPow(2, 8, s);
    PowOfPow(2, 8 * s, 22);
    PowMonotone(2, 129 * n, 8 * s * 22);
    RootOrder(Pow(58, n), Pow(256, s), 22);
  }

  lemma Pow58TwentyTwo()
    ensures Pow(58, 22) <= Pow(2, 129)
  {
    hide Pow;
    SmallPowers();
    PowAdd(2, 10, 10);
    PowAdd(2, 20, 20);
    PowAdd(2, 40, 40);
    PowAdd(2, 80, 40);
    PowAdd(2, 120, 9);
    PowAdd(58, 2, 2);
    PowAdd(58, 4, 4);
    PowAdd(58, 8, 8);
    PowAdd(58, 16, 4);
    PowAdd(58, 20, 2);
  }
}
