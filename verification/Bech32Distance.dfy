/**
 * The distance of the Bech32 code. Its generator vanishes at the 997th, 998th and 999th powers of
 * an element of order 1023, so up to three wrong symbols within a window of 1023 are noticed.
 */
module Bech32Distance {
  import opened Bech32Code
  import opened Bech32Field

  // ---------- powers of e ----------

  /** An element times the k-th power of e. */
  function Power(k: nat, v: bv32): bv32 {
    if k == 0 then v else TimesE(Power(k - 1, v))
  }

  lemma {:induction false} PowerNonZero(k: nat, v: bv32)
    requires v < 1024
    ensures Power(k, v) < 1024 && (Power(k, v) == 0 <==> v == 0)
  {
    hide TimesE;
    if k > 0 {
      PowerNonZero(k - 1, v);
      TimesEHalves(Power(k - 1, v));
      TimesENonZero(Power(k - 1, v));
    }
  }

  lemma {:induction false} PowerXor(k: nat, u: bv32, v: bv32)
    ensures Power(k, Xor(u, v)) == Xor(Power(k, u), Power(k, v))
  {
    hide TimesE, Xor;
    if k > 0 {
      PowerXor(k - 1, u, v);
      TimesEXor(Power(k - 1, u), Power(k - 1, v));
    }
  }

  lemma {:induction false} PowerAdd(m: nat, n: nat, v: bv32)
    ensures Power(m + n, v) == Power(m, Power(n, v))
  {
    hide TimesE;
    if m > 0 {
      PowerAdd(m - 1, n, v);
    }
  }

  lemma {:induction false} PowerScale(k: nat, s: bv32, v: bv32)
    requires v < 1024
    ensures Power(k, Scale(s, v)) == Scale(s, Power(k, v))
  {
    hide TimesE, Scale;
    if k > 0 {
      PowerScale(k - 1, s, v);
      PowerNonZero(k - 1, v);
      TimesEScale(s, Power(k - 1, v));
    }
  }

  lemma MulOne(v: bv32)
    requires v < 1024
    ensures Mul(1, v) == v
  {
    hide Scale, Xor, TimesE;
    ScaleZero(v);
    ScaleZero(TimesE(v));
    XorLaws(v, 0, 0);
  }

  /** Powers of e act as products with powers of e. */
  lemma {:induction false} PowerMul(k: nat, v: bv32)
    requires v < 1024
    ensures Power(k, v) == Mul(Power(k, 1), v)
  {
    hide TimesE, Mul;
    if k == 0 {
      MulOne(v);
    } else {
      PowerMul(k - 1, v);
      PowerNonZero(k - 1, 1);
      MulE(Power(k - 1, 1), v);
    }
  }

  lemma PowerSum(m: nat, n: nat, a: bv32, b: bv32)
    requires Power(m, 1) == a && Power(n, 1) == b
    ensures Power(m + n, 1) == Mul(a, b)
  {
    hide Power, Mul;
    PowerAdd(m, n, 1);
    PowerNonZero(n, 1);
    PowerMul(m, b);
  }

  lemma Products1()
    ensures Mul(32, 32) == 311 && Mul(311, 311) == 206 && Mul(206, 32) == 553
  {
  }

  lemma Products2()
    ensures Mul(206, 206) == 537 && Mul(537, 553) == 373 && Mul(537, 537) == 675
  {
  }

  lemma Products3()
    ensures Mul(675, 553) == 958 && Mul(675, 373) == 124 && Mul(675, 675) == 41
  {
  }

  lemma Products4()
    ensures Mul(41, 32) == 23 && Mul(41, 41) == 292 && Mul(292, 958) == 403
  {
  }

  lemma Products5()
    ensures Mul(292, 124) == 854 && Mul(292, 292) == 209 && Mul(209, 675) == 99
  {
  }

  lemma Products6()
    ensures Mul(209, 209) == 516 && Mul(516, 403) == 365 && Mul(516, 516) == 698
  {
  }

  lemma Products7()
    ensures Mul(698, 99) == 639 && Mul(365, 365) == 364 && Mul(364, 365) == 1
  {
  }

  lemma Products8()
    ensures Mul(639, 365) == 445 && Mul(445, 32) == 101 && Mul(101, 32) == 976
  {
  }

  lemma Products9()
    ensures Mul(364, 537) == 855 && Mul(403, 124) == 567 && Mul(698, 567) == 591
  {
  }

  lemma Products10()
    ensures Mul(591, 32) == 22
  {
  }

  lemma FirstPower()
    ensures Power(1, 1) == 32
  {
  }

  /** The powers of e that matter, by an addition chain. */
  lemma KnownPowers()
    ensures Power(33, 1) == 23 && Power(93, 1) == 854 && Power(341, 1) == 365 && Power(1023, 1) == 1
    ensures Power(627, 1) == 22 && Power(690, 1) == 855 && Power(682, 1) == 364
    ensures Power(997, 1) == 445 && Power(998, 1) == 101 && Power(999, 1) == 976
  {
    hide Power, Mul;
    FirstPower();
    Products1();
    Products2();
    Products3();
    Products4();
    Products5();
    Products6();
    Products7();
    Products8();
    Products9();
    Products10();
    PowerSum(1, 1, 32, 32);
    PowerSum(2, 2, 311, 311);
    PowerSum(4, 1, 206, 32);
    PowerSum(4, 4, 206, 206);
    PowerSum(8, 5, 537, 553);
    PowerSum(8, 8, 537, 537);
    PowerSum(16, 5, 675, 553);
    PowerSum(16, 13, 675, 373);
    PowerSum(16, 16, 675, 675);
    PowerSum(32, 1, 41, 32);
    PowerSum(32, 32, 41, 41);
    PowerSum(64, 21, 292, 958);
    PowerSum(64, 29, 292, 124);
    PowerSum(64, 64, 292, 292);
    PowerSum(128, 16, 209, 675);
    PowerSum(128, 128, 209, 209);
    PowerSum(256, 85, 516, 403);
    PowerSum(256, 256, 516, 516);
    PowerSum(512, 144, 698, 99);
    PowerSum(341, 341, 365, 365);
    PowerSum(682, 341, 364, 365);
    PowerSum(656, 341, 639, 365);
    PowerSum(997, 1, 445, 32);
    PowerSum(998, 1, 101, 32);
    PowerSum(682, 8, 364, 537);
    PowerSum(85, 29, 403, 124);
    PowerSum(512, 114, 698, 567);
    PowerSum(626, 1, 591, 32);
  }

  lemma MulXor(a: bv32, b: bv32, v: bv32)
    ensures Mul(Xor(a, b), v) == Xor(Mul(a, v), Mul(b, v))
  {
    hide Upper, Lower, Xor, Scale, TimesE;
    UpperXor(a, b);
    LowerXor(a, b);
    ScaleXor(Lower(a), Lower(b), v);
    ScaleXor(Upper(a), Upper(b), TimesE(v));
    XorSwap(Scale(Lower(a), v), Scale(Lower(b), v), Scale(Upper(a), TimesE(v)), Scale(Upper(b), TimesE(v)));
  }

  /** Where one power of e is another plus one, the other fixes only zero. */
  lemma Fixed(d: nat, s: nat, v: bv32)
    requires v < 1024 && Power(s, 1) == Xor(Power(d, 1), 1) && Power(d, v) == v
    ensures v == 0
  {
    hide Power, Mul, Xor;
    PowerMul(d, v);
    PowerMul(s, v);
    MulXor(Power(d, 1), 1, v);
    MulOne(v);
    XorLaws(v, 0, 0);
    PowerNonZero(s, v);
  }

  /** Two exponents that fix an element have a common divisor that does. */
  lemma {:induction false} CommonDivisor(m: nat, n: nat, v: bv32) returns (g: nat, x: nat, y: nat)
    requires m > 0 && n > 0 && Power(m, v) == v && Power(n, v) == v
    ensures g > 0 && m == g * x && n == g * y && Power(g, v) == v
    decreases m + n
  {
    hide Power;
    if m == n {
      g, x, y := m, 1, 1;
    } else if m > n {
      PowerAdd(m - n, n, v);
      g, x, y := CommonDivisor(m - n, n, v);
      x := x + y;
    } else {
      PowerAdd(n - m, m, v);
      g, x, y := CommonDivisor(m, n - m, v);
      y := x + y;
    }
  }

  lemma {:induction false} PowerRepeats(g: nat, q: nat, v: bv32)
    requires Power(g, v) == v
    ensures Power(g * q, v) == v
  {
    hide Power;
    if q == 0 {
      PowerNone(v);
    } else {
      PowerRepeats(g, q - 1, v);
      assert g * q == g + g * (q - 1);
      PowerAdd(g, g * (q - 1), v);
    }
  }

  lemma PowerNone(v: bv32)
    ensures Power(0, v) == v
  {
  }

  /** The proper divisors of 1023 divide 341, 93 or 33. */
  lemma ProperDivisor(g: nat, x: nat)
    requires g * x == 1023 && g < 1023
    ensures g == 1 || g == 3 || g == 11 || g == 31 || g == 33 || g == 93 || g == 341
  {
    if g <= 32 {
      SmallDivisor(g, x);
    } else {
      assert x <= 32 by { if x >= 33 { assert g * x >= 33 * 33 by { Larger(g, x); } } }
      assert x * g == 1023;
      SmallDivisor(x, g);
    }
  }

  lemma Larger(g: nat, x: nat)
    requires g >= 33 && x >= 33
    ensures g * x >= 33 * 33
  {
  }

  lemma SmallDivisor(g: nat, x: nat)
    requires g * x == 1023 && g <= 32
    ensures (g == 1 && x == 1023) || (g == 3 && x == 341) || (g == 11 && x == 93) || (g == 31 && x == 33)
  {
    assert 1023 % g == 0 && x == 1023 / g;
  }

  /** No power of e below the 1023rd fixes an element other than zero. */
  lemma NoFixedPoint(d: nat, v: bv32)
    requires 0 < d < 1023 && v < 1024 && Power(d, v) == v
    ensures v == 0
  {
    hide Power, Mul;
    KnownPowers();
    PowerMul(1023, v);
    MulOne(v);
    var g, x, y := CommonDivisor(1023, d, v);
    assert y != 0 && g * y >= g;
    ProperDivisor(g, x);
    if g == 1 || g == 11 || g == 31 || g == 341 {
      PowerRepeats(g, 341 / g, v);
      Fixed(341, 682, v);
    } else if g == 3 || g == 93 {
      PowerRepeats(g, 93 / g, v);
      Fixed(93, 690, v);
    } else {
      Fixed(33, 627, v);
    }
  }

  /** e has order 1023. */
  lemma Primitive(k: nat)
    ensures Power(k, 1) == 1 <==> k % 1023 == 0
  {
    hide Power, Mul;
    KnownPowers();
    var q, d := k / 1023, k % 1023;
    PowerRepeats(1023, q, 1);
    PowerAdd(d, 1023 * q, 1);
    assert k == d + 1023 * q;
    if d == 0 {
      PowerNone(1);
    } else if Power(d, 1) == 1 {
      NoFixedPoint(d, 1);
    }
  }

  /** The first 1023 powers of e are distinct, so each has one logarithm. */
  lemma PowersDistinct(j: nat, k: nat)
    requires j < k < 1023
    ensures Power(j, 1) != Power(k, 1)
  {
    hide Power;
    PowerAdd(k - j, j, 1);
    PowerNonZero(j, 1);
    if Power(j, 1) == Power(k, 1) {
      NoFixedPoint(k - j, Power(j, 1));
    }
  }

  // ---------- values of a message ----------

  /** The message as a polynomial, at the r-th power of e. */
  function Value(r: nat, w: seq<bv32>): bv32 {
    if w == [] then 0 else Xor(Power(r, Value(r, w[..|w| - 1])), w[|w| - 1])
  }

  lemma SmallSum(u: bv32, v: bv32)
    requires u < 1024 && v < 1024
    ensures Xor(u, v) < 1024
  {
  }

  lemma {:induction false} ValueInField(r: nat, w: seq<bv32>)
    requires Symbols(w)
    ensures Value(r, w) < 1024
  {
    hide Power, Xor;
    if w != [] {
      ValueInField(r, w[..|w| - 1]);
      PowerNonZero(r, Value(r, w[..|w| - 1]));
      SmallSum(Power(r, Value(r, w[..|w| - 1])), w[|w| - 1]);
    }
  }

  lemma ValueNext(r: nat, w: seq<bv32>, s: bv32)
    ensures Value(r, w + [s]) == Xor(Power(r, Value(r, w)), s)
  {
    hide Power, Xor;
    assert (w + [s])[..|w|] == w;
  }

  lemma ValueEmpty(r: nat)
    ensures Value(r, []) == 0
  {
  }

  lemma {:induction false} ValueXor(r: nat, v: seq<bv32>, w: seq<bv32>)
    requires |v| == |w|
    ensures Value(r, XorAll(v, w)) == Xor(Value(r, v), Value(r, w))
  {
    hide Power, Xor;
    if v == [] {
      XorLaws(0, 0, 0);
    } else {
      var n := |v| - 1;
      ValueXor(r, v[..n], w[..n]);
      assert XorAll(v, w)[..n] == XorAll(v[..n], w[..n]);
      PowerXor(r, Value(r, v[..n]), Value(r, w[..n]));
      XorSwap(Power(r, Value(r, v[..n])), Power(r, Value(r, w[..n])), v[n], w[n]);
    }
  }

  function ScaleAll(s: bv32, w: seq<bv32>): (r: seq<bv32>)
    ensures |r| == |w|
  {
    seq(|w|, i requires 0 <= i < |w| => Scale(s, w[i]))
  }

  lemma {:induction false} ValueScale(r: nat, s: bv32, w: seq<bv32>)
    requires Symbols(w)
    ensures Value(r, ScaleAll(s, w)) == Scale(s, Value(r, w))
  {
    hide Power, Xor, Scale;
    if w == [] {
      ScaleZero(s);
    } else {
      var n := |w| - 1;
      ValueScale(r, s, w[..n]);
      assert ScaleAll(s, w)[..n] == ScaleAll(s, w[..n]);
      ValueInField(r, w[..n]);
      PowerScale(r, s, Value(r, w[..n]));
      ScaleXorRight(s, Power(r, Value(r, w[..n])), w[n]);
    }
  }

  /** A product of exponents; folded so that proofs use only its two laws. */
  function Times(r: nat, n: nat): nat {
    r * n
  }

  lemma TimesLaws(r: nat, m: nat, n: nat)
    ensures Times(r, 0) == 0 && Times(r, 1) == r && Times(r, m + n) == Times(r, m) + Times(r, n)
  {
  }

  /** Zeroes behind a message multiply its value. */
  lemma {:induction false} ValueZeros(r: nat, w: seq<bv32>, z: seq<bv32>)
    requires Zeros(z)
    ensures Value(r, w + z) == Power(Times(r, |z|), Value(r, w))
  {
    hide Power, Xor, Value, Times;
    TimesLaws(r, 0, 0);
    if z == [] {
      assert w + z == w;
      PowerNone(Value(r, w));
    } else {
      var n := |z| - 1;
      ValueZeros(r, w, z[..n]);
      assert w + z == w + z[..n] + [0];
      ValueNext(r, w + z[..n], 0);
      XorLaws(Power(r, Value(r, w + z[..n])), 0, 0);
      TimesLaws(r, 1, n);
      PowerAdd(r, Times(r, n), Value(r, w));
    }
  }

  // ---------- the generator and its roots ----------

  function Generator(): (g: seq<bv32>)
    ensures |g| == 7
  {
    [1, 29, 22, 20, 21, 29, 18]
  }

  predicate Root(r: nat) {
    r == 997 || r == 998 || r == 999
  }

  lemma GeneratorAt997()
    ensures Xor(Mul(445, 1), 29) == 416 && Xor(Mul(445, 416), 22) == 742 && Xor(Mul(445, 742), 20) == 753
    ensures Xor(Mul(445, 753), 21) == 580 && Xor(Mul(445, 580), 29) == 90 && Xor(Mul(445, 90), 18) == 0
  {
  }

  lemma GeneratorAt998()
    ensures Xor(Mul(101, 1), 29) == 120 && Xor(Mul(101, 120), 22) == 332 && Xor(Mul(101, 332), 20) == 229
    ensures Xor(Mul(101, 229), 21) == 239 && Xor(Mul(101, 239), 29) == 812 && Xor(Mul(101, 812), 18) == 0
  {
  }

  lemma GeneratorAt999()
    ensures Xor(Mul(976, 1), 29) == 973 && Xor(Mul(976, 973), 22) == 954 && Xor(Mul(976, 954), 20) == 37
    ensures Xor(Mul(976, 37), 21) == 691 && Xor(Mul(976, 691), 29) == 376 && Xor(Mul(976, 376), 18) == 0
  {
  }

  /** A value computed step by step. */
  lemma {:induction false} ValueChain(r: nat, p: bv32, g: seq<bv32>, h: seq<bv32>)
    requires Power(r, 1) == p && |g| == |h| > 0 && h[0] == g[0]
    requires forall i :: 0 <= i < |g| - 1 ==> h[i] < 1024 && Xor(Mul(p, h[i]), g[i + 1]) == h[i + 1]
    ensures Value(r, g) == h[|h| - 1]
  {
    hide Power, Mul, Xor, Value;
    var n := |g| - 1;
    ValueNext(r, g[..n], g[n]);
    assert g[..n] + [g[n]] == g;
    if n == 0 {
      ValueEmpty(r);
      PowerZero(r);
      XorLaws(0, g[0], 0);
      XorLaws(g[0], 0, 0);
    } else {
      ValueChain(r, p, g[..n], h[..n]);
      PowerMul(r, h[n - 1]);
    }
  }

  lemma PowerZero(k: nat)
    ensures Power(k, 0) == 0
  {
    hide Power;
    PowerNonZero(k, 0);
  }

  /** The generator vanishes at three consecutive powers of e. */
  lemma GeneratorVanishes(r: nat)
    requires Root(r)
    ensures Value(r, Generator()) == 0
  {
    hide Power, Mul, Xor, Value;
    KnownPowers();
    if r == 997 {
      GeneratorAt997();
      ValueChain(997, 445, Generator(), [1, 416, 742, 753, 580, 90, 0]);
    } else if r == 998 {
      GeneratorAt998();
      ValueChain(998, 101, Generator(), [1, 120, 332, 229, 239, 812, 0]);
    } else {
      GeneratorAt999();
      ValueChain(999, 976, Generator(), [1, 973, 954, 37, 691, 376, 0]);
    }
  }

  /** What the reduction adds, coefficient by coefficient. */
  lemma ReductionSymbols(t: bv32)
    requires t < 32
    ensures Unpack(Reduction(t)) == ScaleAll(t, Generator()[1..])
  {
    hide Scale, Unpack, Reduction;
    ReductionCoefficients(t);
  }

  lemma ReductionCoefficients(t: bv32)
    requires t < 32
    ensures Unpack(Reduction(t)) == [Scale(t, 29), Scale(t, 22), Scale(t, 20), Scale(t, 21), Scale(t, 29), Scale(t, 18)]
  {
  }

  function Coefficient(c: bv32, n: bv6): bv32
    requires n <= 25
  {
    (c >> n) & 31
  }

  lemma UnpackCoefficients(c: bv32)
    ensures Unpack(c) == [Coefficient(c, 25), Coefficient(c, 20), Coefficient(c, 15), Coefficient(c, 10), Coefficient(c, 5), Coefficient(c, 0)]
  {
  }

  lemma CoefficientXor(c: bv32, d: bv32, n: bv6)
    requires n == 25 || n == 20 || n == 15 || n == 10 || n == 5 || n == 0
    ensures Coefficient(Xor(c, d), n) == Xor(Coefficient(c, n), Coefficient(d, n))
  {
    assert ((c ^ d) >> n) & 31 == ((c >> n) & 31) ^ ((d >> n) & 31);
  }

  lemma SixXors(a: seq<bv32>, b: seq<bv32>, c: seq<bv32>)
    requires |a| == 6 && |b| == 6 && |c| == 6
    requires c[0] == Xor(a[0], b[0]) && c[1] == Xor(a[1], b[1]) && c[2] == Xor(a[2], b[2])
    requires c[3] == Xor(a[3], b[3]) && c[4] == Xor(a[4], b[4]) && c[5] == Xor(a[5], b[5])
    ensures c == XorAll(a, b)
  {
    hide Xor;
  }

  lemma UnpackXor(c: bv32, d: bv32)
    ensures Unpack(Xor(c, d)) == XorAll(Unpack(c), Unpack(d))
  {
    hide Xor, Unpack, Coefficient, XorAll;
    UnpackCoefficients(c);
    UnpackCoefficients(d);
    UnpackCoefficients(Xor(c, d));
    CoefficientXor(c, d, 25);
    CoefficientXor(c, d, 20);
    CoefficientXor(c, d, 15);
    CoefficientXor(c, d, 10);
    CoefficientXor(c, d, 5);
    CoefficientXor(c, d, 0);
    SixXors(Unpack(c), Unpack(d), Unpack(Xor(c, d)));
  }

  lemma UnpackShifted(c: bv32, s: bv32)
    requires c < 0x4000_0000 && s < 32
    ensures Unpack(Xor(Low(c), s)) == Unpack(c)[1..] + [s] && Unpack(c)[0] == High(c) && High(c) < 32
  {
  }

  lemma ScaleOne(t: bv32)
    requires t < 32
    ensures Scale(t, 1) == t
  {
  }

  lemma StepSymbols(c: bv32, s: bv32)
    requires c < 0x4000_0000 && s < 32
    ensures Unpack(Step(c, s)) == XorAll(Unpack(c)[1..] + [s], ScaleAll(High(c), Generator()[1..]))
  {
    hide Xor, Scale, Unpack, Reduction, Low, High, Generator;
    UnpackShifted(c, s);
    UnpackXor(Xor(Low(c), s), Reduction(High(c)));
    ReductionSymbols(High(c));
  }

  /** One step of the remainder takes away a multiple of the generator. */
  lemma StepTakesGenerator(c: bv32, s: bv32)
    requires c < 0x4000_0000 && s < 32
    ensures XorAll(Unpack(c) + [s], [0] + Unpack(Step(c, s))) == ScaleAll(High(c), Generator())
  {
    hide Xor, Scale, Unpack, High, Step;
    var t, before, after := High(c), Unpack(c) + [s], [0] + Unpack(Step(c, s));
    UnpackShifted(c, s);
    StepSymbols(c, s);
    assert before[1..] == Unpack(c)[1..] + [s] && after[1..] == Unpack(Step(c, s));
    ScaleOne(t);
    XorLaws(t, 0, 0);
    forall i | 0 < i < 7 ensures Xor(before[i], after[i]) == Scale(t, Generator()[i]) {
      assert after[i] == after[1..][i - 1] && before[i] == before[1..][i - 1];
      XorCancel(before[i], Scale(t, Generator()[i]));
    }
  }

  lemma {:induction false} ValueLeading(r: nat, w: seq<bv32>)
    ensures Value(r, [0] + w) == Value(r, w)
  {
    hide Power, Xor, Value;
    if w == [] {
      ValueNext(r, [], 0);
      ValueEmpty(r);
      PowerZero(r);
      XorLaws(0, 0, 0);
      assert [] + [0] == [0] + w;
    } else {
      var n := |w| - 1;
      ValueLeading(r, w[..n]);
      ValueNext(r, w[..n], w[n]);
      ValueNext(r, [0] + w[..n], w[n]);
      assert w[..n] + [w[n]] == w && [0] + w[..n] + [w[n]] == [0] + w;
    }
  }

  /** A step of the remainder is a step of its value at a root. */
  lemma ValueStep(r: nat, c: bv32, s: bv32)
    requires Root(r) && c < 0x4000_0000 && s < 32
    ensures Value(r, Unpack(Step(c, s))) == Xor(Power(r, Value(r, Unpack(c))), s)
  {
    hide Power, Xor, Value, Scale, Unpack, Step, Root;
    var before, after := Unpack(c) + [s], [0] + Unpack(Step(c, s));
    StepTakesGenerator(c, s);
    ValueXor(r, before, after);
    ValueScale(r, High(c), Generator());
    GeneratorVanishes(r);
    ScaleZero(High(c));
    XorCancel(Value(r, before), Value(r, after));
    ValueLeading(r, Unpack(Step(c, s)));
    ValueNext(r, Unpack(c), s);
  }

  lemma ValueOfZero(r: nat)
    ensures Value(r, Unpack(0)) == 0
  {
    hide Power, Xor, Value;
    assert Unpack(0) == [] + SixZeros();
    ValueZeros(r, [], SixZeros());
    ValueEmpty(r);
    PowerZero(Times(r, 6));
  }

  /** A message and its remainder have the same value at the roots. */
  lemma {:induction false} ValueOfResidue(r: nat, w: seq<bv32>)
    requires Root(r) && Symbols(w)
    ensures Value(r, w) == Value(r, Unpack(Residue(0, w)))
  {
    hide Power, Xor, Value, Residue, Unpack, Step, Root;
    if w == [] {
      ResidueEmpty(0, w);
      ValueOfZero(r);
      ValueEmpty(r);
    } else {
      var n := |w| - 1;
      ValueOfResidue(r, w[..n]);
      ResidueBound(0, w[..n]);
      LastSymbol(0, w);
      ValueStep(r, Residue(0, w[..n]), w[n]);
      ValueNext(r, w[..n], w[n]);
      assert w[..n] + [w[n]] == w;
    }
  }

  /** A message whose remainder is zero vanishes at the roots. */
  lemma Codeword(r: nat, w: seq<bv32>)
    requires Root(r) && Symbols(w) && Residue(0, w) == 0
    ensures Value(r, w) == 0
  {
    hide Power, Xor, Value, Residue, Unpack, Root;
    ValueOfResidue(r, w);
    ValueOfZero(r);
  }

  // ---------- up to three errors ----------

  /** The value once some zeroes and one more symbol have followed. */
  lemma ValueAfter(r: nat, w: seq<bv32>, z: seq<bv32>, s: bv32)
    requires Zeros(z)
    ensures Value(r, w + z + [s]) == Xor(Power(Times(r, |z| + 1), Value(r, w)), s)
  {
    hide Power, Xor, Value, Times;
    ValueZeros(r, w, z);
    ValueNext(r, w + z, s);
    TimesLaws(r, 1, |z|);
    PowerAdd(r, Times(r, |z|), Value(r, w));
  }

  /** The next symbol that is not zero. */
  lemma ValueAt(r: nat, e: seq<bv32>, i: nat, j: nat)
    requires i < j < |e| && Zeros(e[i + 1..j])
    ensures Value(r, e[..j + 1]) == Xor(Power(Times(r, j - i), Value(r, e[..i + 1])), e[j])
  {
    hide Power, Xor, Value, Times;
    ValueAfter(r, e[..i + 1], e[i + 1..j], e[j]);
    assert e[..i + 1] + e[i + 1..j] + [e[j]] == e[..j + 1];
  }

  lemma ValueFirst(r: nat, e: seq<bv32>, i: nat)
    requires i < |e| && Zeros(e[..i])
    ensures Value(r, e[..i + 1]) == e[i]
  {
    hide Power, Xor, Value, Times;
    ValueZeros(r, [], e[..i]);
    assert [] + e[..i] == e[..i] && e[..i] + [e[i]] == e[..i + 1];
    ValueEmpty(r);
    PowerZero(Times(r, i));
    ValueNext(r, e[..i], e[i]);
    PowerZero(r);
    XorLaws(0, e[i], 0);
    XorLaws(e[i], 0, 0);
  }

  /** Zeroes after the last wrong symbol change nothing. */
  lemma Vanishes(r: nat, e: seq<bv32>, k: nat)
    requires Root(r) && Symbols(e) && Residue(0, e) == 0 && k < |e| && Zeros(e[k + 1..])
    ensures Value(r, e[..k + 1]) == 0
  {
    hide Power, Xor, Value, Residue, Root, Times;
    Codeword(r, e);
    ValueZeros(r, e[..k + 1], e[k + 1..]);
    assert e[..k + 1] + e[k + 1..] == e;
    ValueInField(r, e[..k + 1]);
    PowerNonZero(Times(r, |e[k + 1..]|), Value(r, e[..k + 1]));
  }

  /** Two terms that cancel at two consecutive powers are zero. */
  lemma TwoTerms(a: nat, x: bv32, z: bv32)
    requires 0 < a < 1023 && x < 1024 && z < 1024
    requires Xor(Power(997 * a, x), z) == 0 && Xor(Power(998 * a, x), z) == 0
    ensures x == 0 && z == 0
  {
    hide Power, Xor;
    XorCancel(Power(997 * a, x), z);
    XorCancel(Power(998 * a, x), z);
    PowerAdd(a, 997 * a, x);
    NoFixedPoint(a, z);
    PowerNonZero(997 * a, x);
  }

  /** Three terms that cancel at three consecutive powers are zero. */
  lemma ThreeTerms(a: nat, b: nat, x: bv32, y: bv32, z: bv32)
    requires 0 < b < a < 1023 && x < 1024 && y < 1024
    requires Xor(Xor(Power(997 * a, x), Power(997 * b, y)), z) == 0
    requires Xor(Xor(Power(998 * a, x), Power(998 * b, y)), z) == 0
    requires Xor(Xor(Power(999 * a, x), Power(999 * b, y)), z) == 0
    ensures x == 0 && y == 0 && z == 0
  {
    hide Power, Xor;
    var x0, y0 := Power(997 * a, x), Power(997 * b, y);
    var x1, y1 := Power(a, x0), Power(b, y0);
    var x2, y2 := Power(a, x1), Power(b, y1);
    PowerAdd(a, 997 * a, x);
    PowerAdd(a, 998 * a, x);
    PowerAdd(b, 997 * b, y);
    PowerAdd(b, 998 * b, y);
    PowerNonZero(997 * a, x);
    PowerNonZero(997 * b, y);
    XorCancel(Xor(x0, y0), z);
    XorCancel(Xor(x1, y1), z);
    XorCancel(Xor(x2, y2), z);
    // At the differences of consecutive powers the constant term is gone.
    SameDifference(x0, y0, x1, y1);
    SameDifference(x1, y1, x2, y2);
    var w := Xor(x0, x1);
    PowerXor(a, x0, x1);
    PowerXor(b, y0, y1);
    PowerNonZero(a, x0);
    SmallSum(x0, x1);
    PowerAdd(a - b, b, w);
    PowerNonZero(b, w);
    NoFixedPoint(a - b, Power(b, w));
    XorCancel(x0, x1);
    XorCancel(y0, y1);
    NoFixedPoint(a, x0);
    NoFixedPoint(b, y0);
    XorLaws(0, 0, 0);
  }

  lemma SameDifference(a: bv32, b: bv32, c: bv32, d: bv32)
    requires Xor(a, b) == Xor(c, d)
    ensures Xor(a, c) == Xor(b, d)
  {
    hide Xor;
    XorSwap(a, b, c, d);
    XorCancel(Xor(a, b), Xor(c, d));
    XorCancel(Xor(a, c), Xor(b, d));
  }

  /** Two wrong symbols less than 1023 apart are noticed, whatever surrounds them. */
  lemma DoubleError(v: seq<bv32>, w: seq<bv32>, i: nat, k: nat)
    requires |v| == |w| && Symbols(v) && Symbols(w) && i < k < |v| && k - i < 1023
    requires v != w && forall m :: 0 <= m < |v| && m != i && m != k ==> v[m] == w[m]
    ensures Residue(1, v) != Residue(1, w)
  {
    hide Residue, Xor, XorAll, Power, Value;
    var e := XorAll(v, w);
    Difference(v, w);
    SameResidue(1, v, w);
    if Residue(0, e) == 0 {
      PairValue(997, e, i, k);
      PairValue(998, e, i, k);
      TwoTerms(k - i, e[i], e[k]);
    }
  }

  lemma PairValue(r: nat, e: seq<bv32>, i: nat, k: nat)
    requires Root(r) && Symbols(e) && Residue(0, e) == 0 && i < k < |e|
    requires Zeros(e[..i]) && Zeros(e[i + 1..k]) && Zeros(e[k + 1..])
    ensures Xor(Power(Times(r, k - i), e[i]), e[k]) == 0
  {
    hide Residue, Xor, Power, Value, Root, Times;
    Vanishes(r, e, k);
    ValueAt(r, e, i, k);
    ValueFirst(r, e, i);
  }

  lemma PowerNested(m: nat, n: nat, x: bv32, y: bv32)
    ensures Power(m, Xor(Power(n, x), y)) == Xor(Power(m + n, x), Power(m, y))
  {
    hide Power, Xor;
    PowerXor(m, Power(n, x), y);
    PowerAdd(m, n, x);
  }

  lemma TripleValue(r: nat, e: seq<bv32>, i: nat, j: nat, k: nat)
    requires Root(r) && Symbols(e) && Residue(0, e) == 0 && i < j < k < |e|
    requires Zeros(e[..i]) && Zeros(e[i + 1..j]) && Zeros(e[j + 1..k]) && Zeros(e[k + 1..])
    ensures Xor(Xor(Power(Times(r, k - i), e[i]), Power(Times(r, k - j), e[j])), e[k]) == 0
  {
    hide Residue, Xor, Power, Value, Root, Times;
    Vanishes(r, e, k);
    ValueAt(r, e, j, k);
    ValueAt(r, e, i, j);
    ValueFirst(r, e, i);
    TimesLaws(r, k - j, j - i);
    PowerNested(Times(r, k - j), Times(r, j - i), e[i], e[j]);
  }

  /** One to three wrong symbols within a window of 1023 are noticed, at any length and whatever surrounds them. */
  lemma TripleError(v: seq<bv32>, w: seq<bv32>, i: nat, j: nat, k: nat)
    requires |v| == |w| && Symbols(v) && Symbols(w) && i <= j <= k < |v| && k - i < 1023
    requires v != w && forall m :: 0 <= m < |v| && m != i && m != j && m != k ==> v[m] == w[m]
    ensures Residue(1, v) != Residue(1, w)
  {
    hide Residue, Xor, XorAll, Power, Value;
    if i == k {
      SingleError(v, w, i);
    } else if i == j || j == k {
      DoubleError(v, w, i, k);
    } else {
      var e := XorAll(v, w);
      Difference(v, w);
      SameResidue(1, v, w);
      if Residue(0, e) == 0 {
        TripleValue(997, e, i, j, k);
        TripleValue(998, e, i, j, k);
        TripleValue(999, e, i, j, k);
        ThreeTerms(k - i, k - j, e[i], e[j], e[k]);
      }
    }
  }
}
