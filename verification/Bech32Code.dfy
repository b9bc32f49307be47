/** The BCH code under Bech32 and Bech32m (BIP 173, BIP 350): linearity, checksums, error detection. */
module Bech32Code {

  /** Exclusive or, the addition of the code; folded so that proofs use only its group laws. */
  function Xor(a: bv32, b: bv32): bv32 {
    a ^ b
  }

  function High(c: bv32): bv32 {
    c >> 25
  }

  function Low(c: bv32): bv32 {
    (c & 0x1ffffff) << 5
  }

  function Term(c: bv32, mask: bv32, k: bv32): bv32 {
    if c & mask != 0 then k else 0
  }

  /** The multiple of the generator's remainder selected by the five bits shifted out. */
  function Reduction(c0: bv32): bv32 {
    Xor(Xor(Xor(Xor(Term(c0, 1, 0x3b6a57b2), Term(c0, 2, 0x26508e6d)), Term(c0, 4, 0x1ea119fa)), Term(c0, 8, 0x3d4233dd)), Term(c0, 16, 0x2a1462b3))
  }

  /** One symbol: multiply the remainder by x, add the symbol, reduce. */
  function Step(c: bv32, v: bv32): bv32 {
    Xor(Xor(Low(c), v), Reduction(High(c)))
  }

  /** The remainder after a list of symbols, from a given start. */
  function Residue(c: bv32, v: seq<bv32>): bv32 {
    if v == [] then c else Step(Residue(c, v[..|v| - 1]), v[|v| - 1])
  }

  /** PolyMod, as the loop computes it. */
  method PolyMod(v: seq<bv32>) returns (c: bv32)
    ensures c == Residue(1, v)
  {
    c := 1;
    for i := 0 to |v|
      invariant c == Residue(1, v[..i])
    {
      assert v[..i + 1][..i] == v[..i];
      ghost var before := c;
      var c0 := High(c);
      c := Xor(Low(c), v[i]);
      StepByStep(c, c0);
      if c0 & 1 != 0 { c := Xor(c, 0x3b6a57b2); }
      if c0 & 2 != 0 { c := Xor(c, 0x26508e6d); }
      if c0 & 4 != 0 { c := Xor(c, 0x1ea119fa); }
      if c0 & 8 != 0 { c := Xor(c, 0x3d4233dd); }
      if c0 & 16 != 0 { c := Xor(c, 0x2a1462b3); }
      assert c == Step(before, v[i]);
    }
    assert v[..|v|] == v;
  }

  // ---------- group laws ----------

  lemma XorLaws(a: bv32, b: bv32, c: bv32)
    ensures Xor(Xor(a, b), c) == Xor(a, Xor(b, c)) && Xor(a, b) == Xor(b, a) && Xor(a, a) == 0 && Xor(a, 0) == a
  {
    assert (a ^ b) ^ c == a ^ (b ^ c);
  }

  lemma XorSwap(a: bv32, b: bv32, c: bv32, d: bv32)
    ensures Xor(Xor(a, b), Xor(c, d)) == Xor(Xor(a, c), Xor(b, d))
  {
    hide Xor;
    XorLaws(a, b, Xor(c, d));
    XorLaws(b, c, d);
    XorLaws(c, b, d);
    XorLaws(a, c, Xor(b, d));
  }

  lemma XorCancel(a: bv32, b: bv32)
    ensures Xor(a, b) == 0 <==> a == b
    ensures Xor(a, Xor(a, b)) == b
  {
    hide Xor;
    XorLaws(a, a, b);
    XorLaws(a, b, b);
    XorLaws(b, 0, 0);
    XorLaws(0, b, b);
    XorLaws(b, b, b);
  }

  /** Adding the selected multiples one at a time or all at once. */
  lemma StepByStep(c: bv32, c0: bv32)
    ensures Xor(c, Reduction(c0)) ==
            Xor(Xor(Xor(Xor(Xor(c, Term(c0, 1, 0x3b6a57b2)), Term(c0, 2, 0x26508e6d)), Term(c0, 4, 0x1ea119fa)), Term(c0, 8, 0x3d4233dd)), Term(c0, 16, 0x2a1462b3))
    ensures forall d :: Xor(d, 0) == d
  {
    hide Xor, Term;
    var t1, t2, t3, t4, t5 := Term(c0, 1, 0x3b6a57b2), Term(c0, 2, 0x26508e6d), Term(c0, 4, 0x1ea119fa), Term(c0, 8, 0x3d4233dd), Term(c0, 16, 0x2a1462b3);
    XorLaws(c, t1, t2);
    XorLaws(c, Xor(t1, t2), t3);
    XorLaws(c, Xor(Xor(t1, t2), t3), t4);
    XorLaws(c, Xor(Xor(Xor(t1, t2), t3), t4), t5);
    forall d ensures Xor(d, 0) == d {
      XorLaws(d, 0, 0);
    }
  }

  // ---------- linearity ----------

  lemma TestXor(a: bv32, b: bv32, mask: bv32)
    requires mask == 1 || mask == 2 || mask == 4 || mask == 8 || mask == 16
    ensures Xor(a, b) & mask != 0 <==> ((a & mask != 0) != (b & mask != 0))
  {
  }

  lemma TermXor(a: bv32, b: bv32, mask: bv32, k: bv32)
    requires mask == 1 || mask == 2 || mask == 4 || mask == 8 || mask == 16
    ensures Term(Xor(a, b), mask, k) == Xor(Term(a, mask, k), Term(b, mask, k))
  {
    hide Xor;
    TestXor(a, b, mask);
    XorLaws(k, 0, 0);
    XorLaws(0, k, 0);
  }

  lemma FiveSwaps(a1: bv32, a2: bv32, a3: bv32, a4: bv32, a5: bv32, b1: bv32, b2: bv32, b3: bv32, b4: bv32, b5: bv32)
    ensures Xor(Xor(Xor(Xor(Xor(a1, b1), Xor(a2, b2)), Xor(a3, b3)), Xor(a4, b4)), Xor(a5, b5))
            == Xor(Xor(Xor(Xor(Xor(a1, a2), a3), a4), a5), Xor(Xor(Xor(Xor(b1, b2), b3), b4), b5))
  {
    hide Xor;
    XorSwap(a1, b1, a2, b2);
    XorSwap(Xor(a1, a2), Xor(b1, b2), a3, b3);
    XorSwap(Xor(Xor(a1, a2), a3), Xor(Xor(b1, b2), b3), a4, b4);
    XorSwap(Xor(Xor(Xor(a1, a2), a3), a4), Xor(Xor(Xor(b1, b2), b3), b4), a5, b5);
  }

  lemma ReductionXor(a: bv32, b: bv32)
    ensures Reduction(Xor(a, b)) == Xor(Reduction(a), Reduction(b))
  {
    hide Term, Xor;
    var a1, a2, a3, a4, a5 := Term(a, 1, 0x3b6a57b2), Term(a, 2, 0x26508e6d), Term(a, 4, 0x1ea119fa), Term(a, 8, 0x3d4233dd), Term(a, 16, 0x2a1462b3);
    var b1, b2, b3, b4, b5 := Term(b, 1, 0x3b6a57b2), Term(b, 2, 0x26508e6d), Term(b, 4, 0x1ea119fa), Term(b, 8, 0x3d4233dd), Term(b, 16, 0x2a1462b3);
    TermXor(a, b, 1, 0x3b6a57b2);
    TermXor(a, b, 2, 0x26508e6d);
    TermXor(a, b, 4, 0x1ea119fa);
    TermXor(a, b, 8, 0x3d4233dd);
    TermXor(a, b, 16, 0x2a1462b3);
    FiveSwaps(a1, a2, a3, a4, a5, b1, b2, b3, b4, b5);
  }

  lemma ShiftXor(c: bv32, d: bv32)
    ensures High(Xor(c, d)) == Xor(High(c), High(d)) && Low(Xor(c, d)) == Xor(Low(c), Low(d))
  {
    assert (c ^ d) >> 25 == (c >> 25) ^ (d >> 25);
    assert ((c ^ d) & 0x1ffffff) << 5 == ((c & 0x1ffffff) << 5) ^ ((d & 0x1ffffff) << 5);
  }

  lemma StepXor(c: bv32, d: bv32, v: bv32, w: bv32)
    ensures Step(Xor(c, d), Xor(v, w)) == Xor(Step(c, v), Step(d, w))
  {
    hide Reduction, Xor, High, Low;
    ShiftXor(c, d);
    ReductionXor(High(c), High(d));
    XorSwap(Low(c), Low(d), v, w);
    XorSwap(Xor(Low(c), v), Xor(Low(d), w), Reduction(High(c)), Reduction(High(d)));
  }

  function XorAll(v: seq<bv32>, w: seq<bv32>): (r: seq<bv32>)
    requires |v| == |w|
    ensures |r| == |v|
  {
    seq(|v|, i requires 0 <= i < |v| => Xor(v[i], w[i]))
  }

  /** The remainder is linear in start and symbols. */
  lemma {:induction false} ResidueXor(c: bv32, d: bv32, v: seq<bv32>, w: seq<bv32>)
    requires |v| == |w|
    ensures Residue(Xor(c, d), XorAll(v, w)) == Xor(Residue(c, v), Residue(d, w))
  {
    hide Step, Xor;
    if v != [] {
      var n := |v| - 1;
      ResidueXor(c, d, v[..n], w[..n]);
      assert XorAll(v, w)[..n] == XorAll(v[..n], w[..n]);
      StepXor(Residue(c, v[..n]), Residue(d, w[..n]), v[n], w[n]);
    }
  }

  lemma {:induction false} ResidueConcat(c: bv32, v: seq<bv32>, w: seq<bv32>)
    ensures Residue(c, v + w) == Residue(Residue(c, v), w)
  {
    hide Step;
    if w == [] {
      assert v + w == v;
    } else {
      var n := |w| - 1;
      ResidueConcat(c, v, w[..n]);
      assert (v + w)[..|v| + n] == v + w[..n];
    }
  }

  // ---------- remainders stay small and do not vanish ----------

  predicate Symbols(v: seq<bv32>) {
    forall i :: 0 <= i < |v| ==> v[i] < 32
  }

  lemma StepBound(c: bv32, v: bv32)
    requires c < 0x4000_0000 && v < 32
    ensures Step(c, v) < 0x4000_0000
  {
  }

  /** The generator has a non-zero constant term, so multiplying by x loses nothing. */
  lemma StepNonZero(c: bv32)
    requires c < 0x4000_0000 && c != 0
    ensures Step(c, 0) != 0
  {
  }

  lemma {:induction false} ResidueBound(c: bv32, v: seq<bv32>)
    requires c < 0x4000_0000 && Symbols(v)
    ensures Residue(c, v) < 0x4000_0000
  {
    hide Step;
    if v != [] {
      ResidueBound(c, v[..|v| - 1]);
      StepBound(Residue(c, v[..|v| - 1]), v[|v| - 1]);
    }
  }

  predicate Zeros(v: seq<bv32>) {
    forall i :: 0 <= i < |v| ==> v[i] == 0
  }

  lemma {:induction false} ZerosKeep(c: bv32, z: seq<bv32>)
    requires c < 0x4000_0000 && Zeros(z)
    ensures Residue(c, z) < 0x4000_0000 && (c != 0 ==> Residue(c, z) != 0) && (c == 0 ==> Residue(c, z) == 0)
  {
    hide Step;
    if z != [] {
      var n := |z| - 1;
      ZerosKeep(c, z[..n]);
      StepBound(Residue(c, z[..n]), 0);
      if c != 0 { StepNonZero(Residue(c, z[..n])); } else { StepZero(); }
    }
  }

  lemma StepZero()
    ensures Step(0, 0) == 0
  {
  }

  /** A first symbol on a zero remainder. */
  lemma StepFirst(v: bv32)
    requires v < 32
    ensures Step(0, v) == v
  {
  }

  /** Two lists have the same remainder exactly when the remainder of their difference is zero. */
  lemma SameResidue(c: bv32, v: seq<bv32>, w: seq<bv32>)
    requires |v| == |w|
    ensures Residue(c, v) == Residue(c, w) <==> Residue(0, XorAll(v, w)) == 0
  {
    hide Residue, Xor;
    ResidueXor(c, c, v, w);
    XorLaws(c, c, 0);
    XorCancel(Residue(c, v), Residue(c, w));
  }

  /** The symbols in which two lists differ. */
  lemma Difference(v: seq<bv32>, w: seq<bv32>)
    requires |v| == |w| && Symbols(v) && Symbols(w)
    ensures Symbols(XorAll(v, w)) && forall i :: 0 <= i < |v| ==> (XorAll(v, w)[i] == 0 <==> v[i] == w[i])
  {
    hide Xor;
    forall i | 0 <= i < |v| ensures XorAll(v, w)[i] < 32 && (XorAll(v, w)[i] == 0 <==> v[i] == w[i]) {
      XorCancel(v[i], w[i]);
      XorSmall(v[i], w[i]);
    }
  }

  lemma XorSmall(a: bv32, b: bv32)
    requires a < 32 && b < 32
    ensures Xor(a, b) < 32
  {
  }

  // ---------- error detection ----------

  /** A single wrong symbol is noticed, at any length and whatever surrounds it. */
  lemma SingleError(v: seq<bv32>, w: seq<bv32>, i: nat)
    requires |v| == |w| && Symbols(v) && Symbols(w) && i < |v| && v[i] != w[i]
    requires forall k :: 0 <= k < |v| && k != i ==> v[k] == w[k]
    ensures Residue(1, v) != Residue(1, w)
  {
    hide Residue, Step, Xor, XorAll;
    Difference(v, w);
    var e := XorAll(v, w);
    FirstError(e, i);
    ResidueConcat(0, e[..i + 1], e[i + 1..]);
    assert e[..i + 1] + e[i + 1..] == e;
    ZerosKeep(e[i], e[i + 1..]);
    SameResidue(1, v, w);
  }

  lemma FirstError(e: seq<bv32>, i: nat)
    requires i < |e| && Symbols(e) && Zeros(e[..i])
    ensures Residue(0, e[..i + 1]) == e[i]
  {
    hide Step;
    assert e[..i + 1][..i] == e[..i];
    ZerosKeep(0, e[..i]);
    StepFirst(e[i]);
  }

  // Multiplication of all six coefficients by the generator of GF(32)'s multiplicative group.

  function DoubleUp(c: bv32): bv32 {
    (c & 0x1ef7bdef) << 1
  }

  function DoubleCarry(c: bv32): bv32 {
    (c >> 4) & 0x2108421
  }

  function DoubleWrap(c: bv32): bv32 {
    ((c >> 4) & 0x2108421) << 3
  }

  function Double(c: bv32): bv32 {
    Xor(Xor(DoubleUp(c), DoubleCarry(c)), DoubleWrap(c))
  }

  lemma DoubleUpXor(c: bv32, d: bv32)
    ensures DoubleUp(Xor(c, d)) == Xor(DoubleUp(c), DoubleUp(d))
  {
    assert ((c ^ d) & 0x1ef7bdef) << 1 == ((c & 0x1ef7bdef) << 1) ^ ((d & 0x1ef7bdef) << 1);
  }

  lemma DoubleCarryXor(c: bv32, d: bv32)
    ensures DoubleCarry(Xor(c, d)) == Xor(DoubleCarry(c), DoubleCarry(d))
  {
    assert ((c ^ d) >> 4) & 0x2108421 == ((c >> 4) & 0x2108421) ^ ((d >> 4) & 0x2108421);
  }

  lemma DoubleWrapXor(c: bv32, d: bv32)
    ensures DoubleWrap(Xor(c, d)) == Xor(DoubleWrap(c), DoubleWrap(d))
  {
    assert (((c ^ d) >> 4) & 0x2108421) << 3 == (((c >> 4) & 0x2108421) << 3) ^ (((d >> 4) & 0x2108421) << 3);
  }

  lemma DoubleXor(c: bv32, d: bv32)
    ensures Double(Xor(c, d)) == Xor(Double(c), Double(d))
  {
    hide Xor, DoubleUp, DoubleCarry, DoubleWrap;
    DoubleUpXor(c, d);
    DoubleCarryXor(c, d);
    DoubleWrapXor(c, d);
    XorSwap(DoubleUp(c), DoubleUp(d), DoubleCarry(c), DoubleCarry(d));
    XorSwap(Xor(DoubleUp(c), DoubleCarry(c)), Xor(DoubleUp(d), DoubleCarry(d)), DoubleWrap(c), DoubleWrap(d));
  }

  lemma DoubleFields(c: bv32)
    requires c < 0x4000_0000
    ensures Double(Low(c)) == Low(Double(c)) && High(Double(c)) == Double(High(c)) && High(c) < 32
    ensures Double(c) < 0x4000_0000 && (Double(c) < 32 <==> c < 32)
  {
    assert ((((c & 0x1ffffff) << 5) & 0x1ef7bdef) << 1) ^ ((((c & 0x1ffffff) << 5) >> 4) & 0x2108421) ^ (((((c & 0x1ffffff) << 5) >> 4) & 0x2108421) << 3)
        == ((((c & 0x1ef7bdef) << 1) ^ ((c >> 4) & 0x2108421) ^ (((c >> 4) & 0x2108421) << 3)) & 0x1ffffff) << 5;
  }

  lemma DoubleReduction(t: bv32)
    requires t < 32
    ensures Double(Reduction(t)) == Reduction(Double(t))
  {
  }

  /** The code is linear over GF(32): scaling commutes with multiplying by x. */
  lemma DoubleStep(c: bv32)
    requires c < 0x4000_0000
    ensures Step(Double(c), 0) == Double(Step(c, 0))
  {
    hide Xor, Reduction, Double, High, Low;
    DoubleFields(c);
    DoubleReduction(High(c));
    XorLaws(Low(c), 0, 0);
    XorLaws(Low(Double(c)), 0, 0);
    DoubleXor(Low(c), Reduction(High(c)));
  }

  lemma ResidueEmpty(c: bv32, z: seq<bv32>)
    requires z == []
    ensures Residue(c, z) == c
  {
  }

  lemma LastSymbol(c: bv32, v: seq<bv32>)
    requires v != []
    ensures Residue(c, v) == Step(Residue(c, v[..|v| - 1]), v[|v| - 1])
  {
  }

  // ---------- checksums ----------

  /** Six symbols from a 30-bit word. */
  function Unpack(word: bv32): (r: seq<bv32>)
    ensures |r| == 6
  {
    [(word >> 25) & 31, (word >> 20) & 31, (word >> 15) & 31, (word >> 10) & 31, (word >> 5) & 31, word & 31]
  }

  lemma UnpackSymbols(word: bv32)
    ensures Symbols(Unpack(word))
  {
  }

  lemma {:induction false} ResidueSix(c: bv32, s: seq<bv32>)
    requires |s| == 6
    ensures Residue(c, s) == Step(Step(Step(Step(Step(Step(c, s[0]), s[1]), s[2]), s[3]), s[4]), s[5])
  {
    hide Step;
    assert s[..5][..4] == s[..4] && s[..4][..3] == s[..3] && s[..3][..2] == s[..2] && s[..2][..1] == s[..1] && s[..1][..0] == [];
    LastSymbol(c, s);
    LastSymbol(c, s[..5]);
    LastSymbol(c, s[..4]);
    LastSymbol(c, s[..3]);
    LastSymbol(c, s[..2]);
    LastSymbol(c, s[..1]);
    ResidueEmpty(c, []);
  }

  lemma PackUnpack(word: bv32)
    requires word < 0x4000_0000
    ensures Residue(0, Unpack(word)) == word
  {
    ResidueSix(0, Unpack(word));
    PackedWord(word);
  }

  lemma PackedWord(word: bv32)
    requires word < 0x4000_0000
    ensures Step(Step(Step(Step(Step(Step(0, (word >> 25) & 31), (word >> 20) & 31), (word >> 15) & 31), (word >> 10) & 31), (word >> 5) & 31), word & 31) == word
  {
  }

  lemma UnpackPack(s: seq<bv32>)
    requires |s| == 6 && Symbols(s)
    ensures Unpack(Residue(0, s)) == s
  {
    hide Step, Residue;
    ResidueSix(0, s);
    PackedSymbols(s[0], s[1], s[2], s[3], s[4], s[5]);
  }

  lemma PackedSymbols(a: bv32, b: bv32, c: bv32, d: bv32, e: bv32, f: bv32)
    requires a < 32 && b < 32 && c < 32 && d < 32 && e < 32 && f < 32
    ensures Unpack(Step(Step(Step(Step(Step(Step(0, a), b), c), d), e), f)) == [a, b, c, d, e, f]
  {
  }

  function SixZeros(): (z: seq<bv32>)
    ensures |z| == 6 && Zeros(z) && Symbols(z)
  {
    [0, 0, 0, 0, 0, 0]
  }

  /**
   * Six symbols complete a message to a given remainder exactly when they are what is to be added
   * to six zeroes.
   */
  lemma ChecksumExact(c: bv32, s: seq<bv32>, target: bv32)
    requires c < 0x4000_0000 && target < 0x4000_0000 && |s| == 6 && Symbols(s)
    ensures Residue(c, s) == target <==> s == Unpack(Xor(Residue(c, SixZeros()), target))
  {
    hide Residue, Xor, Unpack, Step;
    var p, z := Residue(c, SixZeros()), SixZeros();
    ZerosKeep(c, z);
    XorBound(p, target);
    assert XorAll(z, s) == s by { XorAllZeros(z, s); }
    ResidueXor(c, 0, z, s);
    XorLaws(c, 0, 0);
    XorCancel(p, target);
    XorCancel(p, Residue(0, s));
    UnpackPack(s);
    PackUnpack(Xor(p, target));
  }

  lemma XorAllZeros(z: seq<bv32>, s: seq<bv32>)
    requires |z| == |s| && Zeros(z)
    ensures XorAll(z, s) == s
  {
    hide Xor;
    forall i | 0 <= i < |s| ensures XorAll(z, s)[i] == s[i] {
      XorLaws(0, s[i], 0);
      XorLaws(s[i], 0, 0);
    }
  }

  lemma XorBound(a: bv32, b: bv32)
    requires a < 0x4000_0000 && b < 0x4000_0000
    ensures Xor(a, b) < 0x4000_0000
  {
  }
}
