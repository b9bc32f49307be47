/**
 * The compact format of 256-bit targets: an exponent byte, a sign bit and a 23-bit mantissa in
 * one 32-bit word, and the chain trust computed from it.
 */
module Compact {
  import opened Arithmetic
  import opened Bits
  import opened Limbs
  import opened LimbShifts
  import opened BaseUint

  const EXPONENT: nat := 0x100_0000
  const SIGN: nat := 0x80_0000

  function Pow256(n: nat): (r: nat)
    ensures r > 0
  {
    Pow2(8 * n)
  }

  // ---------- what a compact word denotes ----------

  function Size(c: nat): nat {
    c / EXPONENT
  }

  function Word(c: nat): nat {
    c % SIGN
  }

  predicate Signed(c: nat) {
    (c / SIGN) % 2 == 1
  }

  /** The magnitude: mantissa * 256**(exponent - 3), rounded down. */
  function Number(c: nat): nat {
    if Size(c) <= 3 then Shrunk(Word(c), 3 - Size(c)) else Product(Word(c), Pow256(Size(c) - 3))
  }

  function Shrunk(v: nat, n: nat): nat {
    DivBounds(v, Pow256(n));
    v / Pow256(n)
  }

  // ---------- the canonical compact word of a number ----------

  function CompactSize(v: nat): nat {
    if v == 0 then 0 else BitLength(v) / 8 + 1
  }

  function Mantissa(v: nat): nat {
    if CompactSize(v) <= 3 then Product(v, Pow256(3 - CompactSize(v))) else Shrunk(v, CompactSize(v) - 3)
  }

  function Encoded(v: nat, negative: bool): nat {
    CompactSize(v) * EXPONENT + Mantissa(v) + if negative && Mantissa(v) != 0 then SIGN else 0
  }

  // ---------- decoding ----------

  lemma Small256()
    ensures Pow256(0) == 1 && Pow256(1) == 0x100 && Pow256(2) == 0x1_0000 && Pow256(3) == 0x100_0000 && Pow2(23) == SIGN && Pow2(24) == EXPONENT
  {
    Pow2Limb();
    Pow2Add(8, 16);
    assert Pow2(24) == 2 * Pow2(23);
  }

  /** The overflow test is exactly that the number does not fit in 256 bits. */
  lemma OverflowTest(w: nat, size: nat)
    requires w < SIGN && size > 3
    ensures w != 0 && (size > 34 || (w > 0xff && size > 33) || (w > 0xffff && size > 32)) <==> Product(w, Pow256(size - 3)) >= Pow256(32)
  {
    hide Pow256, Product;
    Small256();
    if size <= 35 {
      var q := Pow256(35 - size);
      Pow256Add(35 - size, size - 3);
      ProductOrder(w, q, Pow256(size - 3));
      if size <= 32 { Pow256Monotone(3, 35 - size); }
    } else {
      Pow256Monotone(32, size - 3);
      ProductOrder(w, 1, Pow256(size - 3));
    }
  }

  lemma Pow256Add(m: nat, n: nat)
    ensures Pow256(m + n) == Product(Pow256(m), Pow256(n))
  {
    Pow2Add(8 * m, 8 * n);
  }

  lemma Pow256Monotone(m: nat, n: nat)
    requires m <= n
    ensures Pow256(m) <= Pow256(n)
  {
    Pow2Monotone(8 * m, 8 * n);
  }

  lemma ProductOrder(w: nat, q: nat, p: nat)
    requires p > 0
    ensures w >= q <==> Product(w, p) >= Product(q, p)
    ensures Product(0, p) == 0 && Product(1, p) == p && (w > 0 ==> Product(w, p) >= p)
  {
    if w >= q {
      MulMonotone(q, w, p);
    } else {
      MulMonotone(w + 1, q, p);
      assert (w + 1) * p == w * p + p;
    }
    if w > 0 { MulMonotone(1, w, p); }
  }

  /**
   * SetCompact: the value is the number the word denotes, wrapped to 256 bits; the overflow flag
   * says exactly whether it wrapped, the negative flag whether a non-zero number has the sign bit.
   */
  method SetCompact(u: Uint, c: nat) returns (negative: bool, overflow: bool)
    requires u.Valid() && u.pn.Length == 8 && c < LIMB
    modifies u.pn
    ensures u.Valid() && u.Value() == Number(c) % Pow256(32)
    ensures negative <==> Number(c) != 0 && Signed(c)
    ensures overflow <==> Number(c) >= Pow256(32)
  {
    hide Pow2, Product, Val;
    var size, w := Size(c), Word(c);
    Small256();
    if size <= 3 {
      w := Shrunk(w, 3 - size);
      DivBounds(Word(c), Pow256(3 - size));
      u.Assign(w);
      Pow256Monotone(3, 32);
      SmallModulus(w, Pow256(32));
    } else {
      u.Assign(w);
      u.ShiftLeft(8 * (size - 3));
      OverflowTest(w, size);
      ProductOrder(w, 1, Pow256(size - 3));
      assert u.Value() == Product(w, Pow256(size - 3)) % Pow256(32) by { Folded(w, Pow256(size - 3)); }
    }
    negative := w != 0 && Signed(c);
    overflow := w != 0 && (size > 34 || (w > 0xff && size > 33) || (w > 0xffff && size > 32));
  }

  lemma Folded(a: nat, b: nat)
    ensures Product(a, b) == a * b
  {
  }

  // ---------- encoding ----------

  /** Dividing by powers of 256 in two steps. */
  lemma ShrunkTwice(v: nat, m: nat, n: nat)
    ensures Shrunk(Shrunk(v, m), n) == Shrunk(v, m + n)
  {
    hide Pow256;
    var a, b := Pow256(m), Pow256(n);
    var x, y := v / a, v % a;
    var q, r := x / b, x % b;
    DivMod(v, a);
    DivBounds(v, a);
    DivMod(x, b);
    assert Pow256(m + n) == b * a by { Pow256Add(n, m); }
    NestedFloor(v, a, b, q, r, y);
  }

  lemma NestedFloor(v: nat, a: nat, b: nat, q: int, r: nat, y: nat)
    requires v == (q * b + r) * a + y && y < a && r < b
    ensures v / (b * a) == q
  {
    assert (q * b + r) * a == q * (b * a) + r * a by {
      assert (q * b + r) * a == (q * b) * a + r * a;
      assert (q * b) * a == q * (b * a);
    }
    MulMonotone(r + 1, b, a);
    assert (r + 1) * a == r * a + a;
    MulNonNegative(r, a);
    DivModUnique(v, b * a, q, r * a + y);
  }

  /** Scaling up by a power of 256 and dropping a byte again. */
  lemma ShrunkScaled(v: nat, n: nat)
    requires n > 0
    ensures Shrunk(Product(v, Pow256(n)), 1) == Product(v, Pow256(n - 1))
  {
    Small256();
    var q := Pow256(n - 1);
    assert Pow256(n) == 256 * q by { Pow256Add(1, n - 1); }
    assert v * (256 * q) == (v * q) * 256;
    DivModUnique(v * Pow256(n), 256, v * q, 0);
  }

  /** The first attempt at a mantissa, from the number of bytes. */
  function RawMantissa(v: nat, size: nat): nat {
    if size <= 3 then Product(v, Pow256(3 - size)) else Shrunk(v, size - 3)
  }

  lemma RawBounds(v: nat, bits: nat, size: nat)
    requires bits > 0 && Pow2(bits - 1) <= v < Pow2(bits) && size == (bits + 7) / 8
    ensures RawMantissa(v, size) < EXPONENT
    ensures RawMantissa(v, size) >= SIGN <==> bits % 8 == 0
  {
    hide Pow256, Pow2, Product, Shrunk;
    if size <= 3 {
      ScaledBounds(v, bits, 3 - size);
    } else {
      ShrunkBounds(v, bits, size - 3);
    }
  }

  lemma ThreeBytes(x: nat, k: nat)
    requires k > 0 && Pow2(k - 1) <= x < Pow2(k) && 16 < k <= 24
    ensures x < EXPONENT && (x >= SIGN <==> k == 24)
  {
    hide Pow2;
    Small256();
    Pow2Monotone(k, 24);
    if k < 24 { Pow2Monotone(k, 23); }
  }

  lemma ScaledBounds(v: nat, bits: nat, n: nat)
    requires bits > 0 && Pow2(bits - 1) <= v < Pow2(bits) && 16 < bits + 8 * n <= 24
    ensures Product(v, Pow256(n)) < EXPONENT && (Product(v, Pow256(n)) >= SIGN <==> bits + 8 * n == 24)
  {
    hide Pow256, Pow2, Product;
    Shift256(bits, n);
    Shift256(bits - 1, n);
    Folded(v, Pow256(n));
    ScaleUp(v, Pow2(bits - 1), Pow2(bits), Pow256(n), Pow256(n));
    ThreeBytes(Product(v, Pow256(n)), bits + 8 * n);
  }

  lemma ShrunkBounds(v: nat, bits: nat, n: nat)
    requires Pow2(bits) > v && bits > 0 && Pow2(bits - 1) <= v && 16 < bits - 8 * n <= 24
    ensures Shrunk(v, n) < EXPONENT && (Shrunk(v, n) >= SIGN <==> bits - 8 * n == 24)
  {
    hide Pow256, Pow2;
    Shift256(bits - 8 * n, n);
    Shift256(bits - 8 * n - 1, n);
    FloorBounds(v, Pow256(n), Pow2(bits - 8 * n - 1), Pow2(bits - 8 * n));
    ThreeBytes(Shrunk(v, n), bits - 8 * n);
  }

  lemma Shift256(k: nat, n: nat)
    ensures Pow2(k + 8 * n) == Pow2(k) * Pow256(n)
  {
    Pow2Add(k, 8 * n);
  }

  lemma FloorBounds(v: nat, p: nat, lo: nat, hi: nat)
    requires p > 0 && lo * p <= v < hi * p
    ensures lo <= v / p < hi
  {
    var q, r := v / p, v % p;
    DivMod(v, p);
    StrictScale(q, lo, p);
    if hi <= q { MulMonotone(hi, q, p); }
  }

  /** Dropping a byte when the sign bit is taken gives the canonical size and mantissa. */
  lemma RawToCanonical(v: nat)
    ensures var size := (BitLength(v) + 7) / 8;
            var raw := RawMantissa(v, size);
            && raw < EXPONENT && size <= CompactSize(v) <= size + 1
            && (raw >= SIGN ==> CompactSize(v) == size + 1 && Mantissa(v) == Shrunk(raw, 1) < SIGN)
            && (raw < SIGN ==> CompactSize(v) == size && Mantissa(v) == raw)
  {
    hide Pow256, Pow2, Product, Shrunk, BitLength;
    var bits := BitLength(v);
    if v == 0 {
      assert bits == 0 by { BitLengthZero(); }
      Small256();
      ProductOrder(0, 0, Pow256(3));
    } else {
      BitLengthBounds(v);
      var size := (bits + 7) / 8;
      RawBounds(v, bits, size);
      if bits % 8 == 0 {
        if size < 3 {
          ShrunkScaled(v, 3 - size);
        } else if size == 3 {
          Small256();
          ProductOrder(v, 1, Pow256(0));
          assert Product(v, Pow256(0)) == v by { Folded(v, 1); }
        } else {
          ShrunkTwice(v, size - 3, 1);
        }
        ShrunkByte(RawMantissa(v, size));
      }
    }
  }

  lemma BitLengthZero()
    ensures BitLength(0) == 0
  {
  }

  lemma ShrunkByte(raw: nat)
    ensures Shrunk(raw, 1) == raw / 256
  {
    Small256();
  }

  /** The leading three bytes of a number, by shifting it left or right. */
  method LeadingBytes(u: Uint, size: nat) returns (c: nat)
    requires u.Valid() && u.pn.Length == 8 && size == (BitLength(u.Value()) + 7) / 8
    ensures c == RawMantissa(u.Value(), size)
  {
    hide Pow2, Pow256, Product, Val, Shrunk, BitLength;
    ghost var v := u.Value();
    RawToCanonical(v);
    if size <= 3 {
      var low := u.GetLow64();
      LowWord(v, size);
      c := Product(low, Pow256(3 - size)) % LIMB;
      SmallModulus(RawMantissa(v, size), LIMB);
    } else {
      var bn := new Uint.Copy(u);
      bn.ShiftRight(8 * (size - 3));
      ShrunkIs(v, size - 3);
      var low := bn.GetLow64();
      SmallModulus(RawMantissa(v, size), LIMB * LIMB);
      c := low % LIMB;
    }
  }

  /** GetCompact: the canonical word; both assertions of the code hold. */
  method GetCompact(u: Uint, negative: bool) returns (c: nat)
    requires u.Valid() && u.pn.Length == 8
    ensures c == Encoded(u.Value(), negative) < LIMB
  {
    hide Pow2, Pow256, Product, Val, Shrunk, BitLength, Or, And, CompactSize, Mantissa, RawMantissa;
    ghost var v := u.Value();
    var bits := u.NumBits();
    var size := (bits + 7) / 8;
    c := LeadingBytes(u, size);
    RawToCanonical(v);
    SignBit(c);
    if And(c, SIGN) != 0 {
      c := c / 256;
      size := size + 1;
    }
    assert c < SIGN;
    assert size < 256;
    WordParts(c, size);
    c := Or(c, size * EXPONENT);
    if negative && c % SIGN != 0 {
      c := Or(c, SIGN);
    }
  }

  lemma SignBit(c: nat)
    requires c < EXPONENT
    ensures And(c, SIGN) != 0 <==> c >= SIGN
    ensures Shrunk(c, 1) == c / 256
  {
    hide And;
    Small256();
    AndBit(c, 23);
    ShrunkByte(c);
  }

  lemma ShrunkIs(v: nat, n: nat)
    ensures Shrunk(v, n) == v / Pow2(8 * n)
  {
  }

  lemma LowWord(v: nat, size: nat)
    requires size == (BitLength(v) + 7) / 8 && size <= 3
    ensures v % (LIMB * LIMB) == v
  {
    if v > 0 {
      BitLengthBounds(v);
      Pow2Monotone(BitLength(v), 24);
      Small256();
    }
    SmallModulus(v, LIMB * LIMB);
  }

  /** Exponent, sign and mantissa do not overlap. */
  lemma WordParts(m: nat, size: nat)
    requires m < SIGN && size < 256
    ensures Or(m, size * EXPONENT) == size * EXPONENT + m && (size * EXPONENT + m) % SIGN == m
    ensures Or(size * EXPONENT + m, SIGN) == size * EXPONENT + m + SIGN
    ensures size * EXPONENT + m + SIGN < LIMB
  {
    hide Or, Pow2;
    Small256();
    OrCommutes(m, size * EXPONENT);
    OrDisjoint(size, m, 24);
    OrBit(size, m, 23);
  }

  // ---------- the format as a rounding ----------

  /** The number a canonical word stands for. */
  function Rounded(v: nat): nat {
    if CompactSize(v) <= 3 then v else Product(Shrunk(v, CompactSize(v) - 3), Pow256(CompactSize(v) - 3))
  }

  lemma RoundedDown(v: nat)
    ensures Rounded(v) <= v
    ensures CompactSize(v) > 3 ==> Rounded(v) == v - v % Pow256(CompactSize(v) - 3)
  {
    hide Pow256;
    if CompactSize(v) > 3 { DivMod(v, Pow256(CompactSize(v) - 3)); }
  }

  /** Decoding what was encoded rounds down to the mantissa's precision and keeps the sign. */
  lemma DecodeEncode(v: nat, negative: bool)
    requires v < Pow256(32)
    ensures var c := Encoded(v, negative);
            c < LIMB && Number(c) == Rounded(v) <= v && (Signed(c) <==> negative && v != 0)
  {
    hide Pow2, Pow256, Product, Shrunk, Mantissa, CompactSize, Size, Word, Signed, Rounded, Encoded, RawMantissa, BitLength;
    RoundedDown(v);
    MantissaFits(v);
    EncodedFields(v, negative);
    ExactSmall(v);
    MantissaPositive(v);
  }

  lemma MantissaFits(v: nat)
    requires v < Pow256(32)
    ensures Mantissa(v) < SIGN && CompactSize(v) <= 33
  {
    hide Pow2, Product, Shrunk, Mantissa, RawMantissa, BitLength;
    RawToCanonical(v);
    SizeBound(v);
  }

  lemma EncodedFields(v: nat, negative: bool)
    requires Mantissa(v) < SIGN && CompactSize(v) < 256
    ensures var c := Encoded(v, negative);
            c < LIMB && Size(c) == CompactSize(v) && Word(c) == Mantissa(v) && (Signed(c) <==> negative && Mantissa(v) != 0)
  {
    hide Mantissa, CompactSize;
  }

  /** A bound on a number bounds its length. */
  lemma BitLengthAtMost(v: nat, n: nat)
    requires v < Pow2(n)
    ensures BitLength(v) <= n
  {
    hide Pow2;
    if v > 0 {
      BitLengthBounds(v);
      if BitLength(v) > n { Pow2Monotone(n, BitLength(v) - 1); }
    }
  }

  lemma SizeBound(v: nat)
    requires v < Pow256(32)
    ensures CompactSize(v) <= 33
  {
    BitLengthAtMost(v, 256);
  }

  /** The mantissa at its size is the rounded number; with at most three bytes nothing is lost. */
  lemma ExactSmall(v: nat)
    ensures (if CompactSize(v) <= 3 then Shrunk(Mantissa(v), 3 - CompactSize(v)) else Product(Mantissa(v), Pow256(CompactSize(v) - 3))) == Rounded(v)
  {
    hide Pow256;
    if CompactSize(v) <= 3 {
      var p := Pow256(3 - CompactSize(v));
      DivModUnique(v * p, p, v, 0);
    }
  }

  lemma MantissaPositive(v: nat)
    ensures Mantissa(v) != 0 <==> v != 0
  {
    hide Pow2, Pow256, Product, Shrunk;
    if v == 0 {
      ProductOrder(0, 0, Pow256(3));
    } else if CompactSize(v) <= 3 {
      ProductOrder(v, 1, Pow256(3 - CompactSize(v)));
    } else {
      TopBitKept(v);
      ProductOrder(0, 0, Pow256(CompactSize(v) - 3));
      ExactSmall(v);
    }
  }

  /** Rounding keeps the highest bit. */
  lemma TopBitKept(v: nat)
    requires v > 0
    ensures BitLength(v) > 0 && Pow2(BitLength(v) - 1) <= Rounded(v)
  {
    hide Pow2, Pow256, Product, Shrunk, BitLength;
    BitLengthBounds(v);
    var s := CompactSize(v);
    if s > 3 {
      var k := BitLength(v) - 1 - 8 * (s - 3);
      Shift256(k, s - 3);
      FloorKeeps(v, s - 3, Pow2(k));
    }
  }

  lemma FloorKeeps(v: nat, n: nat, x: nat)
    requires x * Pow256(n) <= v
    ensures x * Pow256(n) <= Product(Shrunk(v, n), Pow256(n))
  {
    hide Pow256;
    var p := Pow256(n);
    DivMod(v, p);
    StrictScale(v / p, x, p);
    MulMonotone(x, v / p, p);
  }

  lemma RoundedMonotone(v: nat, w: nat)
    requires v <= w
    ensures Rounded(v) <= Rounded(w) && CompactSize(v) <= CompactSize(w)
  {
    hide Pow2, Pow256, Product, Shrunk, BitLength;
    RoundedDown(v);
    if v > 0 {
      BitLengthBounds(v);
      BitLengthBounds(w);
      BitLengthAtMost(v, BitLength(w));
      if CompactSize(v) < CompactSize(w) {
        TopBitKept(w);
        Pow2Monotone(BitLength(v), BitLength(w) - 1);
      } else if CompactSize(v) > 3 {
        FloorMonotone(v, w, CompactSize(v) - 3);
      }
    }
  }

  lemma FloorMonotone(v: nat, w: nat, n: nat)
    requires v <= w
    ensures Shrunk(v, n) <= Shrunk(w, n) && Product(Shrunk(v, n), Pow256(n)) <= Product(Shrunk(w, n), Pow256(n))
  {
    hide Pow256;
    var p := Pow256(n);
    DivMod(v, p);
    DivMod(w, p);
    StrictScale(w / p, v / p, p);
    MulMonotone(v / p, w / p, p);
  }

  /** Whatever a compact word can denote survives encoding unchanged. */
  lemma RepresentableFixed(c: nat)
    requires c < LIMB
    ensures Rounded(Number(c)) == Number(c)
  {
    hide Pow2, Pow256, Product, Shrunk, BitLength;
    var v, e := Number(c), Size(c);
    Small256();
    if e <= 3 {
      assert v < SIGN by { ShrunkBelow(Word(c), 3 - e); }
      BitLengthAtMost(v, 23);
    } else {
      assert v < Pow2(23 + 8 * (e - 3)) by {
        Shift256(23, e - 3);
        Folded(Word(c), Pow256(e - 3));
        ScaleUp(Word(c), 0, SIGN, Pow256(e - 3), 0);
      }
      BitLengthAtMost(v, 23 + 8 * (e - 3));
      if CompactSize(v) > 3 {
        WholeBytes(Word(c), e - 3, CompactSize(v) - 3);
      }
    }
  }

  lemma ShrunkBelow(v: nat, n: nat)
    ensures Shrunk(v, n) <= v
  {
    DivBounds(v, Pow256(n));
  }

  lemma WholeBytes(m: nat, n: nat, k: nat)
    requires k <= n
    ensures Product(Shrunk(Product(m, Pow256(n)), k), Pow256(k)) == Product(m, Pow256(n))
  {
    hide Pow256;
    var p, r := Pow256(k), Pow256(n - k);
    Pow256Add(n - k, k);
    assert m * (r * p) == (m * r) * p;
    DivModUnique(m * Pow256(n), p, m * r, 0);
  }

  /** GetCompact then SetCompact: the largest number the format can denote that is not above v. */
  lemma LargestRepresentable(v: nat, c: nat)
    requires v < Pow256(32) && c < LIMB && Number(c) <= v
    ensures Number(c) <= Number(Encoded(v, false)) <= v
  {
    hide Encoded, Number, Rounded;
    DecodeEncode(v, false);
    RepresentableFixed(c);
    RoundedMonotone(Number(c), v);
  }

  /** Compact words order like the numbers they encode. */
  lemma CompactMonotone(v: nat, w: nat)
    requires v <= w
    ensures Encoded(v, false) <= Encoded(w, false)
  {
    hide Pow2, Pow256, Product, Shrunk, BitLength, CompactSize;
    RoundedMonotone(v, w);
    RawToCanonical(v);
    RawToCanonical(w);
    if CompactSize(v) == CompactSize(w) {
      if CompactSize(v) > 3 {
        FloorMonotone(v, w, CompactSize(v) - 3);
      } else {
        ProductOrder(w, v, Pow256(3 - CompactSize(v)));
      }
    }
  }

  // ---------- chain trust ----------

  /** The trust of a block: 2**256 / (target + 1) for proof of stake, 1 for proof of work, 0 for a bad target. */
  function Trust(bits: nat, proofOfStake: bool): nat {
    var target := Number(bits);
    if target == 0 || Signed(bits) || target >= Pow256(32) then 0
    else if proofOfStake then
      (DivBounds(Pow256(32), target + 1); Pow256(32) / (target + 1))
    else 1
  }

  /** Every usable target is worth something, and for proof of stake a lower one never less. */
  lemma TrustOrder(low: nat, high: nat)
    requires 0 < Number(low) <= Number(high) < Pow256(32) && !Signed(low) && !Signed(high)
    ensures Trust(low, true) >= Trust(high, true) >= 1 && Trust(low, false) == Trust(high, false) == 1
  {
    hide Number, Signed, Pow256;
    var p, a, b := Pow256(32), Number(low) + 1, Number(high) + 1;
    TargetBelowMax(high);
    DivMod(p, a);
    DivMod(p, b);
    DivBounds(p, a);
    DivBounds(p, b);
    QuotientOrder(p, a, b);
  }

  lemma QuotientOrder(p: nat, a: nat, b: nat)
    requires 0 < a <= b <= p
    ensures p / a >= p / b >= 1
  {
    DivMod(p, a);
    DivMod(p, b);
    DivBounds(p, b);
    MulMonotone(a, b, p / b);
    StrictScale(p / a, p / b, a);
    StrictScale(p / b, 1, b);
  }

  /** No target is all ones, so adding one to it does not wrap. */
  lemma TargetBelowMax(c: nat)
    requires Number(c) < Pow256(32)
    ensures Number(c) + 1 < Pow256(32)
  {
    hide Pow2, Pow256, Product, Shrunk;
    Small256();
    Pow256Add(31, 1);
    Folded(Pow256(31), Pow256(1));
    if Size(c) <= 3 {
      ShrunkBelow(Word(c), 3 - Size(c));
      Pow256Monotone(3, 32);
    } else {
      Pow256Add(Size(c) - 4, 1);
      EvenProduct(Word(c), Pow256(Size(c) - 4));
    }
  }

  lemma EvenProduct(w: nat, p: nat)
    ensures Product(w, Product(p, 256)) % 256 == 0
  {
    assert w * (p * 256) == (w * p) * 256;
    DivModUnique(w * (p * 256), 256, w * p, 0);
  }

  /** (2**256 - 1 - t) / (t + 1) + 1 is 2**256 / (t + 1). */
  lemma TrustQuotient(m: nat, t: nat)
    requires 0 < t && t + 1 < m
    ensures 0 <= (m - 1 - t) / (t + 1) && (m - 1 - t) / (t + 1) + 1 == m / (t + 1) < m
  {
    var d := t + 1;
    var q, r := (m - d) / d, (m - d) % d;
    DivMod(m - d, d);
    DivBounds(m - d, d);
    assert (q + 1) * d == q * d + d;
    DivModUnique(m, d, q + 1, r);
  }

  /** GetBlockTrust. */
  method GetBlockTrust(bits: nat, proofOfStake: bool) returns (r: Uint)
    requires bits < LIMB
    ensures fresh(r) && r.Valid() && r.pn.Length == 8 && r.Value() == Trust(bits, proofOfStake)
  {
    hide Pow2, Product, Val, Number, Signed;
    var target := new Uint(8);
    var negative, overflow := SetCompact(target, bits);
    r := new Uint(8);
    var zero := target.EqualTo(0);
    if !overflow { SmallModulus(Number(bits), Pow256(32)); }
    if negative || overflow || zero {
      return;
    }
    if !proofOfStake {
      r.Assign(1);
      return;
    }
    TargetBelowMax(bits);
    r := StakeTrust(target);
  }

  lemma Width256()
    ensures Base(8) == Pow256(32)
  {
  }

  /** ~target / (target + 1) + 1, computed in 256 bits. */
  method StakeTrust(target: Uint) returns (r: Uint)
    requires target.Valid() && target.pn.Length == 8 && 0 < target.Value() && target.Value() + 1 < Pow256(32)
    ensures fresh(r) && r.Valid() && r.pn.Length == 8 && r.Value() == Pow256(32) / (target.Value() + 1)
  {
    hide Pow2, Val, Base, Pow256;
    ghost var t, m := target.Value(), Pow256(32);
    Width256();
    TrustQuotient(m, t);
    SmallModulus(t + 1, m);
    SmallModulus(m / (t + 1), m);
    r := target.Complement();
    var one := new Uint(8);
    one.Assign(1);
    var next := new Uint.Copy(target);
    next.Add(one);
    var ok := r.Divide(next);
    r.Add(one);
  }
}
