/**
 * Fixed-width unsigned integers over an array of 32-bit limbs (base_uint), of any width.
 * Every operation is the operation on integers modulo 2**(32 * width).
 */
module BaseUint {
  import opened Arithmetic
  import opened Bits
  import opened Limbs
  import opened LimbShifts

  class Uint {
    const pn: array<nat>

    ghost predicate Valid()
      reads this, pn
    {
      pn.Length >= 2 && Limbed(pn[..])
    }

    ghost function Value(): nat
      reads this, pn
    {
      Val(pn[..])
    }

    /** The number of values of this width. */
    ghost function Modulus(): (m: nat)
      ensures m > 0
    {
      Base(pn.Length)
    }

    constructor (width: nat)
      requires width >= 2
      ensures Valid() && fresh(pn) && pn.Length == width && Value() == 0
    {
      pn := new nat[width](_ => 0);
      new;
      ValZeros(pn[..]);
    }

    constructor Copy(b: Uint)
      requires b.Valid()
      ensures Valid() && fresh(pn) && pn.Length == b.pn.Length && pn[..] == b.pn[..]
    {
      var limbs := b.pn[..];
      pn := new nat[|limbs|](i requires 0 <= i < |limbs| => limbs[i]);
      new;
      assert pn[..] == limbs;
    }

    /** Assignment of a 64-bit number. */
    method Assign(b: nat)
      requires Valid() && b < LIMB * LIMB
      modifies pn
      ensures Valid() && Value() == b
    {
      pn[0] := b % LIMB;
      pn[1] := b / LIMB;
      for i := 2 to pn.Length
        invariant pn[0] == b % LIMB && pn[1] == b / LIMB
        invariant forall j :: 2 <= j < i ==> pn[j] == 0
      {
        pn[i] := 0;
      }
      TwoLimbs(pn[..]);
    }

    /** GetLow64. */
    method GetLow64() returns (r: nat)
      requires Valid()
      ensures r == Value() % (LIMB * LIMB)
    {
      r := Or(pn[0], pn[1] * LIMB);
      LowLimbs(pn[..]);
    }

    // ---------- addition and its relatives ----------

    /** operator+=; b may be this number itself. */
    method Add(b: Uint)
      requires Valid() && b.Valid() && b.pn.Length == pn.Length
      modifies pn
      ensures Valid() && Value() == (old(Value()) + old(b.Value())) % Modulus()
    {
      hide Val, Base;
      ghost var u, w := pn[..], b.pn[..];
      var carry: nat := 0;
      assert Val(u[..0]) == 0 && Val(w[..0]) == 0 by { ValZeros(u[..0]); ValZeros(w[..0]); }
      assert pn[..0] == u[..0];
      for i := 0 to pn.Length
        invariant carry <= 1 && Limbed(pn[..]) && pn[i..] == u[i..] && b.pn[i..] == w[i..]
        invariant Val(pn[..i]) + carry * Base(i) == Val(u[..i]) + Val(w[..i])
      {
        ghost var prefix := pn[..i];
        assert pn[i] == pn[i..][0] == u[i] && b.pn[i] == b.pn[i..][0] == w[i];
        var n := carry + pn[i] + b.pn[i];
        AddStep(Val(prefix), Val(u[..i]), Val(w[..i]), u[i], w[i], carry, Base(i));
        assert pn[i..][1..] == pn[i + 1..] == u[i + 1..] && b.pn[i..][1..] == b.pn[i + 1..] == w[i + 1..];
        pn[i] := n % LIMB;
        carry := n / LIMB;
        assert pn[..i + 1] == prefix + [pn[i]] && u[..i + 1] == u[..i] + [u[i]] && w[..i + 1] == w[..i] + [w[i]];
        ValAppend(prefix, pn[i]);
        ValAppend(u[..i], u[i]);
        ValAppend(w[..i], w[i]);
        BaseStep(i);
      }
      assert pn[..pn.Length] == pn[..] && u[..pn.Length] == u && w[..pn.Length] == w;
      ValBound(pn[..]);
      Wrap(Val(pn[..]), carry, Val(u) + Val(w), Base(pn.Length));
    }

    /** operator++: carry on while limbs wrap to zero. */
    method Increment()
      requires Valid()
      modifies pn
      ensures Valid() && Value() == (old(Value()) + 1) % Modulus()
    {
      hide Val, Base, Carried;
      ghost var u := pn[..];
      var i := 0;
      CarriedNone(u);
      while i < pn.Length
        invariant 0 <= i <= pn.Length && Limbed(pn[..]) && Carried(u, pn[..], i, 1)
        decreases pn.Length - i
      {
        ghost var before := pn[..];
        pn[i] := (pn[i] + 1) % LIMB;
        assert pn[..] == before[i := pn[i]];
        IncrementStep(u, before, i);
        if pn[i] != 0 {
          return;
        }
        i := i + 1;
      }
      CarriedAll(u, pn[..], 1);
    }

    /** operator--: borrow on while limbs wrap to all ones. */
    method Decrement()
      requires Valid()
      modifies pn
      ensures Valid() && Value() == (old(Value()) - 1) % Modulus()
    {
      hide Val, Base, Carried;
      ghost var u := pn[..];
      var i := 0;
      CarriedNone(u);
      while i < pn.Length
        invariant 0 <= i <= pn.Length && Limbed(pn[..]) && Carried(u, pn[..], i, -1)
        decreases pn.Length - i
      {
        ghost var before := pn[..];
        pn[i] := if pn[i] == 0 then LIMB - 1 else pn[i] - 1;
        assert pn[..] == before[i := pn[i]];
        DecrementStep(u, before, i);
        if pn[i] != LIMB - 1 {
          return;
        }
        i := i + 1;
      }
      CarriedAll(u, pn[..], -1);
    }

    /** operator~. */
    method Complement() returns (r: Uint)
      requires Valid()
      ensures fresh(r) && fresh(r.pn) && r.Valid() && r.pn.Length == pn.Length
      ensures r.Value() == Modulus() - 1 - Value()
    {
      r := new Uint(pn.Length);
      for i := 0 to pn.Length
        invariant forall j :: 0 <= j < i ==> r.pn[j] == LIMB - 1 - pn[j]
      {
        r.pn[i] := LIMB - 1 - pn[i];
      }
      ValComplement(pn[..], r.pn[..]);
    }

    /** Unary operator-. */
    method Negated() returns (r: Uint)
      requires Valid()
      ensures fresh(r) && fresh(r.pn) && r.Valid() && r.pn.Length == pn.Length
      ensures r.Value() == (Modulus() - Value()) % Modulus()
    {
      r := Complement();
      r.Increment();
    }

    /** operator-=, by adding the negation. */
    method Subtract(b: Uint)
      requires Valid() && b.Valid() && b.pn.Length == pn.Length
      modifies pn
      ensures Valid() && Value() == (old(Value()) - old(b.Value())) % Modulus()
    {
      hide Val, Base;
      var n := b.Negated();
      ValBound(b.pn[..]);
      ValBound(pn[..]);
      AddNegated(Value(), b.Value(), Modulus());
      Add(n);
    }

    // ---------- comparison ----------

    method CompareTo(b: Uint) returns (r: int)
      requires Valid() && b.Valid() && b.pn.Length == pn.Length
      ensures r == if Value() < b.Value() then -1 else if Value() > b.Value() then 1 else 0
    {
      hide Val, Base;
      var i := pn.Length - 1;
      while i >= 0
        invariant -1 <= i < pn.Length && forall j :: i < j < pn.Length ==> pn[j] == b.pn[j]
        decreases i
      {
        if pn[i] < b.pn[i] {
          ValOrder(pn[..], b.pn[..], i);
          return -1;
        }
        if pn[i] > b.pn[i] {
          ValOrder(b.pn[..], pn[..], i);
          return 1;
        }
        i := i - 1;
      }
      assert pn[..] == b.pn[..];
      return 0;
    }

    /** EqualTo a 64-bit number. */
    method EqualTo(b: nat) returns (r: bool)
      requires Valid() && b < LIMB * LIMB
      ensures r == (Value() == b)
    {
      hide Val, Base;
      HighLimbs(pn[..]);
      var i := pn.Length - 1;
      while i >= 2
        invariant 1 <= i < pn.Length && forall j :: i < j < pn.Length ==> pn[j] == 0
        decreases i
      {
        if pn[i] != 0 {
          return false;
        }
        i := i - 1;
      }
      return pn[1] == b / LIMB && pn[0] == b % LIMB;
    }

    /** bits: the position of the highest set bit plus one, or zero. */
    method NumBits() returns (r: nat)
      requires Valid()
      ensures r == BitLength(Value()) <= 32 * pn.Length
    {
      hide Val, Base, And;
      var pos := pn.Length - 1;
      while pos >= 0
        invariant -1 <= pos < pn.Length && forall j :: pos < j < pn.Length ==> pn[j] == 0
        decreases pos
      {
        if pn[pos] != 0 {
          var nbits := 31;
          assert pn[pos] < Pow2(32) by { Pow2Limb(); }
          while nbits > 0
            invariant 0 <= nbits <= 31 && pn[pos] < Pow2(nbits + 1)
          {
            AndBit(pn[pos], nbits);
            if And(pn[pos], Pow2(nbits)) != 0 {
              TopLimb(pn[..], pos, nbits);
              return 32 * pos + nbits + 1;
            }
            nbits := nbits - 1;
          }
          TopLimb(pn[..], pos, 0);
          return 32 * pos + 1;
        }
        pos := pos - 1;
      }
      ValZeros(pn[..]);
      return 0;
    }

    // ---------- shifts ----------

    /** operator<<=. */
    method ShiftLeft(shift: nat)
      requires Valid()
      modifies pn
      ensures Valid() && Value() == (old(Value()) * Pow2(shift)) % Modulus()
    {
      hide Val, Base, Pow2, Or, Stay, Move;
      var a := pn[..];
      for i := 0 to pn.Length
        invariant forall j :: 0 <= j < i ==> pn[j] == 0
      {
        pn[i] := 0;
      }
      var k, s := shift / 32, shift % 32;
      for i := 0 to pn.Length
        invariant forall t :: 0 <= t < pn.Length ==> pn[t] == LeftLimb(a, k, s, i, t)
      {
        LeftParts(a, k, s, i);
        if i + k + 1 < pn.Length && s != 0 {
          pn[i + k + 1] := Or(pn[i + k + 1], Move(a[i], s));
        }
        if i + k < pn.Length {
          pn[i + k] := Or(pn[i + k], Stay(a[i], s));
        }
      }
      LeftLimbed(a, pn[..], k, s);
      LeftValue(a, pn[..], k, s);
    }

    /** operator>>=. */
    method ShiftRight(shift: nat)
      requires Valid()
      modifies pn
      ensures Valid() && Value() == old(Value()) / Pow2(shift)
    {
      hide Val, Base, Pow2, Or, Stay, Move;
      var a := pn[..];
      for i := 0 to pn.Length
        invariant forall j :: 0 <= j < i ==> pn[j] == 0
      {
        pn[i] := 0;
      }
      var k, s := shift / 32, shift % 32;
      for i := 0 to pn.Length
        invariant forall t :: 0 <= t < pn.Length ==> pn[t] == RightLimb(a, k, s, i, t)
      {
        RightParts(a, k, s, i);
        if i - k - 1 >= 0 && s != 0 {
          pn[i - k - 1] := Or(pn[i - k - 1], Stay(a[i], 32 - s));
        }
        if i - k >= 0 {
          pn[i - k] := Or(pn[i - k], Move(a[i], 32 - s));
        }
      }
      RightLimbed(a, pn[..], k, s);
      RightValue(a, pn[..], k, s);
    }

    // ---------- multiplication and division ----------

    /** operator*= with a 32-bit word. */
    method MultiplyWord(b: nat)
      requires Valid() && b < LIMB
      modifies pn
      ensures Valid() && Value() == (old(Value()) * b) % Modulus()
    {
      hide Val, Base, Product;
      ghost var u := pn[..];
      var carry: nat := 0;
      assert Val(u[..0]) == 0 by { ValZeros(u[..0]); }
      ProductZero(b, 0);
      assert pn[..0] == u[..0];
      for i := 0 to pn.Length
        invariant carry < LIMB && Limbed(pn[..]) && pn[i..] == u[i..]
        invariant Val(pn[..i]) + carry * Base(i) == Product(b * 1, Val(u[..i]))
      {
        ghost var prefix := pn[..i];
        assert pn[i] == pn[i..][0] == u[i] && pn[i..][1..] == pn[i + 1..] == u[i + 1..];
        WordProduct(b, u[i], 0, carry);
        MulStep(Val(prefix), 0, Val(u[..i]), b, u[i], 0, carry, Base(i), 1, Base(i));
        var n := carry + Product(b, pn[i]);
        pn[i] := n % LIMB;
        carry := n / LIMB;
        assert pn[..i + 1] == prefix + [pn[i]] && u[..i + 1] == u[..i] + [u[i]];
        ValAppend(prefix, pn[i]);
        ValAppend(u[..i], u[i]);
        BaseStep(i);
      }
      assert pn[..pn.Length] == pn[..] && u[..pn.Length] == u;
      ValBound(pn[..]);
      ProductZero(b, Val(u));
      Wrap(Val(pn[..]), carry, Val(u) * b, Base(pn.Length));
    }

    /** The inner loop of operator*=: add x * b, shifted by j limbs, and drop what falls off. */
    method AddScaled(x: nat, b: Uint, j: nat) returns (ghost lost: nat)
      requires Valid() && b.Valid() && b.pn.Length == pn.Length && b.pn != pn && x < LIMB && j < pn.Length
      modifies pn
      ensures Valid() && Value() + lost * Modulus() == old(Value()) + Product(x * Base(j), b.Value())
    {
      hide Val, Base, Product;
      ghost var u, w := pn[..], b.pn[..];
      var carry: nat := 0;
      var i := 0;
      assert Val(w[..0]) == 0 by { ValZeros(w[..0]); }
      ProductZero(x * Base(j), 0);
      assert pn[..j] == u[..j];
      while i + j < pn.Length
        invariant 0 <= i && i + j <= pn.Length && carry < LIMB && Limbed(pn[..])
        invariant pn[i + j..] == u[i + j..]
        invariant Val(pn[..i + j]) + carry * Base(i + j) == Val(u[..i + j]) + Product(x * Base(j), Val(w[..i]))
      {
        ghost var t := i + j;
        ghost var prefix := pn[..t];
        assert pn[t] == pn[t..][0] == u[t] && pn[t..][1..] == pn[t + 1..] == u[t + 1..];
        WordProduct(x, w[i], u[t], carry);
        BaseAdd(j, i);
        MulStep(Val(prefix), Val(u[..t]), Val(w[..i]), x, w[i], u[t], carry, Base(t), Base(j), Base(i));
        var n := carry + pn[i + j] + Product(x, b.pn[i]);
        pn[i + j] := n % LIMB;
        carry := n / LIMB;
        assert pn[..t + 1] == prefix + [pn[t]] && u[..t + 1] == u[..t] + [u[t]] && w[..i + 1] == w[..i] + [w[i]];
        ValAppend(prefix, pn[t]);
        ValAppend(u[..t], u[t]);
        ValAppend(w[..i], w[i]);
        BaseStep(t);
        i := i + 1;
      }
      assert pn[..pn.Length] == pn[..] && u[..pn.Length] == u;
      ValSplit(w, i);
      BaseAdd(j, i);
      lost := carry + Product(x, Val(w[i..]));
      ScaledTail(Val(pn[..]), carry, Val(u), x, Base(j), Val(w[..i]), Base(i), Val(w[i..]));
    }

    /** operator*=; b may be this number itself. */
    method Multiply(b: Uint)
      requires Valid() && b.Valid() && b.pn.Length == pn.Length
      modifies pn
      ensures Valid() && Value() == (old(Value()) * old(b.Value())) % Modulus()
    {
      hide Val, Base, Product;
      var a := new Uint(pn.Length);
      ghost var u, v, q := pn[..], b.Value(), 0;
      assert Val(u[..0]) == 0 by { ValZeros(u[..0]); }
      ProductZero(0, v);
      for j := 0 to pn.Length
        invariant a.Valid() && pn[..] == u && b.Valid() && b.Value() == v && q >= 0
        invariant a.Value() + q * Modulus() == Product(Val(u[..j]), v)
      {
        ghost var before := a.Value();
        assert pn[j] == pn[..][j] == u[j];
        ghost var lost := a.AddScaled(pn[j], b, j);
        assert u[..j + 1] == u[..j] + [u[j]];
        ValAppend(u[..j], u[j]);
        RowSum(before, a.Value(), q, lost, Modulus(), Val(u[..j]), u[j], Base(j), v);
        q := q + lost;
      }
      assert u[..pn.Length] == u;
      ValBound(a.pn[..]);
      ProductZero(Val(u), v);
      Wrap(a.Value(), q, Val(u) * v, Modulus());
      Become(a);
    }

    /** Assignment from another number of the same width. */
    method Become(b: Uint)
      requires Valid() && b.Valid() && b.pn.Length == pn.Length && b.pn != pn
      modifies pn
      ensures Valid() && pn[..] == b.pn[..] && Value() == b.Value()
    {
      for i := 0 to pn.Length
        invariant forall j :: 0 <= j < i ==> pn[j] == b.pn[j]
      {
        pn[i] := b.pn[i];
      }
      assert pn[..] == b.pn[..];
    }

    /**
     * operator/=: shift and subtract. A zero divisor is an error that leaves zero behind; else
     * the result is the exact quotient rounded down. b may be this number itself.
     */
    method Divide(b: Uint) returns (ok: bool)
      requires Valid() && b.Valid() && b.pn.Length == pn.Length
      modifies pn
      ensures Valid() && ok == (old(b.Value()) != 0)
      ensures Value() == if ok then old(Value()) / old(b.Value()) else 0
    {
      hide Val, Base, Pow2, BitLength, Divided, Scaled, ClearBelow;
      var div := new Uint.Copy(b);
      var num := new Uint.Copy(this);
      ghost var N, D := Value(), b.Value();
      Assign(0);
      var numBits := num.NumBits();
      var divBits := div.NumBits();
      DivideStart(N, D, pn.Length);
      if divBits == 0 {
        return false;
      }
      if divBits > numBits {
        return true;
      }
      var shift := numBits - divBits;
      div.ShiftLeft(shift);
      AllClear(pn[..], shift + 1);
      DivideBits(num, div, shift, N, D);
      return true;
    }

    /** The rounds of the division, from the highest quotient bit down. */
    method DivideBits(num: Uint, div: Uint, top: nat, ghost N: nat, ghost D: nat)
      requires Valid() && num.Valid() && div.Valid() && num.pn.Length == div.pn.Length == pn.Length
      requires pn != num.pn && pn != div.pn && num.pn != div.pn && top < 32 * pn.Length && D > 0
      requires Divided(N, D, Value(), num.Value(), top + 1) && div.Value() == Scaled(D, top) && ClearBelow(pn[..], top + 1)
      modifies pn, num.pn, div.pn
      ensures Valid() && Value() == N / D
    {
      hide Val, Base, Pow2, Divided, Scaled, ClearBelow;
      var shift: int := top;
      while shift >= 0
        invariant -1 <= shift < 32 * pn.Length && Valid() && num.Valid() && div.Valid()
        invariant Divided(N, D, Value(), num.Value(), shift + 1)
        invariant shift >= 0 ==> div.Value() == Scaled(D, shift)
        invariant ClearBelow(pn[..], shift + 1)
      {
        QuotientBit(num, div, shift, N, D);
        if shift > 0 { ScaledHalf(D, shift); }
        div.ShiftRight(1);
        shift := shift - 1;
      }
      DivideEnd(N, D, Value(), num.Value());
    }

    /** One round of the division: subtract the shifted divisor if it fits and set the bit. */
    method QuotientBit(num: Uint, div: Uint, shift: nat, ghost N: nat, ghost D: nat)
      requires Valid() && num.Valid() && div.Valid() && num.pn.Length == div.pn.Length == pn.Length
      requires pn != num.pn && pn != div.pn && num.pn != div.pn && shift < 32 * pn.Length && D > 0
      requires Divided(N, D, Value(), num.Value(), shift + 1) && div.Value() == Scaled(D, shift) && ClearBelow(pn[..], shift + 1)
      modifies pn, num.pn
      ensures Valid() && num.Valid() && Divided(N, D, Value(), num.Value(), shift) && ClearBelow(pn[..], shift)
    {
      hide Val, Base, Pow2, Or, Divided, Scaled, ClearBelow;
      DivideStep(N, D, Value(), num.Value(), shift);
      ClearLess(pn[..], shift);
      ValBound(num.pn[..]);
      var c := num.CompareTo(div);
      if c >= 0 {
        SmallModulus(num.Value() - div.Value(), Modulus());
        num.Subtract(div);
        SetBit(pn[..], shift);
        ghost var limbs := pn[..];
        pn[shift / 32] := Or(pn[shift / 32], Pow2(shift % 32));
        assert pn[..] == limbs[shift / 32 := pn[shift / 32]];
      }
    }
  }

  /** The limbs below i have taken the change d and pass it on as a carry; the others are as they were. */
  ghost predicate Carried(u: seq<nat>, w: seq<nat>, i: nat, d: int) {
    && i <= |u| == |w| && Limbed(u) && w[i..] == u[i..]
    && Val(w[..i]) + d * Base(i) == Val(u[..i]) + d
  }

  lemma CarriedNone(u: seq<nat>)
    requires Limbed(u)
    ensures Carried(u, u, 0, 1) && Carried(u, u, 0, -1)
  {
    hide Val;
    ValZeros(u[..0]);
    Pow2Zero();
  }

  lemma CarriedAll(u: seq<nat>, w: seq<nat>, d: int)
    requires Limbed(w) && Carried(u, w, |u|, d)
    ensures Val(w) == (Val(u) + d) % Base(|u|)
  {
    hide Val, Base;
    assert w[..|u|] == w && u[..|u|] == u;
    ValBound(w);
    Wrap(Val(w), d, Val(u) + d, Base(|u|));
  }

  /** A limb that takes the change without wrapping ends it. */
  lemma Settled(u: seq<nat>, w: seq<nat>, n: nat, d: int)
    requires n <= |u| == |w| && Limbed(w) && w[n..] == u[n..] && Val(w[..n]) == Val(u[..n]) + d
    ensures Val(w) == (Val(u) + d) % Base(|u|)
  {
    hide Val, Base;
    ValSplit(w, n);
    ValSplit(u, n);
    ValBound(w);
    Wrap(Val(w), 0, Val(u) + d, Base(|u|));
  }

  lemma IncrementStep(u: seq<nat>, before: seq<nat>, i: nat)
    requires i < |u| && Limbed(before) && Carried(u, before, i, 1)
    ensures var w := before[i := (before[i] + 1) % LIMB];
            Limbed(w) && (w[i] == 0 ==> Carried(u, w, i + 1, 1)) && (w[i] != 0 ==> Val(w) == (Val(u) + 1) % Base(|u|))
  {
    hide Val, Base;
    var w := before[i := (before[i] + 1) % LIMB];
    NextLimb(u, before, w, i);
    AddStep(Val(w[..i]), Val(u[..i]), 1, u[i], 0, 1, Base(i));
    if w[i] != 0 { Settled(u, w, i + 1, 1); }
  }

  lemma DecrementStep(u: seq<nat>, before: seq<nat>, i: nat)
    requires i < |u| && Limbed(before) && Carried(u, before, i, -1)
    ensures var w := before[i := if before[i] == 0 then LIMB - 1 else before[i] - 1];
            Limbed(w) && (w[i] == LIMB - 1 ==> Carried(u, w, i + 1, -1)) && (w[i] != LIMB - 1 ==> Val(w) == (Val(u) - 1) % Base(|u|))
  {
    hide Val, Base;
    var w := before[i := if before[i] == 0 then LIMB - 1 else before[i] - 1];
    NextLimb(u, before, w, i);
    BorrowStep(w[i], u[i], Base(i));
    if w[i] != LIMB - 1 { Settled(u, w, i + 1, -1); }
  }

  lemma NextLimb(u: seq<nat>, before: seq<nat>, w: seq<nat>, i: nat)
    requires i < |u| == |w| == |before| && before[i..] == u[i..] && w == before[i := w[i]]
    ensures before[i] == u[i] && w[..i] == before[..i] && w[i + 1..] == u[i + 1..] && Base(i + 1) == LIMB * Base(i)
    ensures Val(w[..i + 1]) == Val(w[..i]) + w[i] * Base(i) && Val(u[..i + 1]) == Val(u[..i]) + u[i] * Base(i)
  {
    hide Val, Base;
    assert before[i..][0] == u[i..][0] && before[i..][1..] == before[i + 1..] && u[i..][1..] == u[i + 1..];
    assert w[..i + 1] == w[..i] + [w[i]] && u[..i + 1] == u[..i] + [u[i]];
    ValAppend(w[..i], w[i]);
    ValAppend(u[..i], u[i]);
    BaseStep(i);
  }

  function BitLength(v: nat): (r: nat) {
    if v == 0 then 0 else 1 + BitLength(v / 2)
  }

  /** BitLength is the position of the highest set bit plus one. */
  lemma {:induction false} BitLengthBounds(v: nat)
    requires v > 0
    ensures BitLength(v) > 0 && Pow2(BitLength(v) - 1) <= v < Pow2(BitLength(v))
  {
    if v > 1 { BitLengthBounds(v / 2); }
  }

  lemma {:induction false} BitLengthUnique(v: nat, n: nat)
    requires Pow2(n) <= v < Pow2(n + 1)
    ensures BitLength(v) == n + 1
    decreases n
  {
    if n > 0 { BitLengthUnique(v / 2, n - 1); }
  }

  lemma BorrowStep(x: nat, y: nat, p: nat)
    requires x == if y == 0 then LIMB - 1 else y - 1
    ensures x * p == if y == 0 then LIMB * p - p else y * p - p
  {
  }

  lemma AddNegated(a: nat, b: nat, m: nat)
    requires a < m && b < m
    ensures (a + (m - b) % m) % m == (a - b) % m
  {
    if b == 0 {
      DivModUnique(m, m, 1, 0);
    } else {
      DivModUnique(m - b, m, 0, m - b);
      var q, r := (a - b) / m, (a - b) % m;
      assert a - b == q * m + r;
      DivModUnique(a + (m - b), m, q + 1, r);
    }
  }

  /** A number below 2**64 occupies the two lowest limbs. */
  lemma TwoLimbs(s: seq<nat>)
    requires |s| >= 2 && forall i :: 2 <= i < |s| ==> s[i] == 0
    ensures Val(s) == s[0] + LIMB * s[1]
  {
    hide Val, Base;
    SmallBases();
    ValSplit(s, 2);
    ValZeros(s[2..]);
    assert s[..2] == [s[0]] + [s[1]];
    ValAppend([s[0]], s[1]);
    assert [s[0]] == [] + [s[0]];
    ValAppend([], s[0]);
    ValZeros([]);
  }

  lemma LowLimbs(s: seq<nat>)
    requires |s| >= 2 && Limbed(s)
    ensures Or(s[0], s[1] * LIMB) == Val(s) % (LIMB * LIMB)
  {
    hide Val, Base, Or, Pow2;
    ValSplit(s, 2);
    TwoLimbs(s[..2]);
    SmallBases();
    Pow2Limb();
    OrCommutes(s[0], s[1] * LIMB);
    OrDisjoint(s[1], s[0], 32);
    DivModUnique(Val(s), LIMB * LIMB, Val(s[2..]), s[0] + LIMB * s[1]);
  }

  /** A number equals a 64-bit number exactly when its upper limbs are zero and the lower ones agree. */
  lemma HighLimbs(s: seq<nat>)
    requires |s| >= 2 && Limbed(s)
    ensures forall j :: 2 <= j < |s| && s[j] != 0 ==> Val(s) >= LIMB * LIMB
    ensures (forall j :: 2 <= j < |s| ==> s[j] == 0) ==> Val(s) == s[0] + LIMB * s[1]
  {
    hide Val, Base;
    SmallBases();
    forall j | 2 <= j < |s| && s[j] != 0 ensures Val(s) >= LIMB * LIMB {
      PlaceBound(s, j);
      BaseMonotone(2, j);
    }
    if forall j :: 2 <= j < |s| ==> s[j] == 0 { TwoLimbs(s); }
  }

  lemma BaseMonotone(m: nat, n: nat)
    requires m <= n
    ensures Base(m) <= Base(n)
  {
    Pow2Monotone(32 * m, 32 * n);
  }

  lemma PlaceBound(s: seq<nat>, j: nat)
    requires j < |s|
    ensures s[j] * Base(j) <= Val(s)
    ensures s[j] > 0 ==> Base(j) <= Val(s)
  {
    hide Val, Base;
    ValSplit(s, j + 1);
    MulNonNegative(Base(j + 1), Val(s[j + 1..]));
    assert s[..j + 1] == s[..j] + [s[j]];
    ValAppend(s[..j], s[j]);
    if s[j] > 0 { MulMonotone(1, s[j], Base(j)); }
  }

  /** The highest non-zero limb and its highest bit give the bit length. */
  lemma TopLimb(s: seq<nat>, pos: nat, n: nat)
    requires pos < |s| && Limbed(s) && forall j :: pos < j < |s| ==> s[j] == 0
    requires Pow2(n) <= s[pos] < Pow2(n + 1)
    ensures BitLength(Val(s)) == 32 * pos + n + 1
  {
    hide Val;
    ValSplit(s, pos + 1);
    ValZeros(s[pos + 1..]);
    assert s[..pos + 1] == s[..pos] + [s[pos]];
    ValAppend(s[..pos], s[pos]);
    ValBound(s[..pos]);
    var p := Base(pos);
    MulMonotone(Pow2(n), s[pos], p);
    MulMonotone(s[pos] + 1, Pow2(n + 1), p);
    assert (s[pos] + 1) * p == s[pos] * p + p;
    Pow2Add(n, 32 * pos);
    Pow2Add(n + 1, 32 * pos);
    BitLengthUnique(Val(s), 32 * pos + n);
  }

  lemma {:induction false} ValComplement(s: seq<nat>, t: seq<nat>)
    requires |s| == |t| && forall i :: 0 <= i < |s| ==> t[i] == LIMB - 1 - s[i]
    ensures Val(s) + Val(t) == Base(|s|) - 1
  {
    hide Base;
    Pow2Zero();
    if s != [] {
      var n := |s| - 1;
      ValComplement(s[..n], t[..n]);
      BaseStep(n);
      assert (s[n] + t[n]) * Base(n) == s[n] * Base(n) + t[n] * Base(n);
      assert (LIMB - 1) * Base(n) == LIMB * Base(n) - Base(n);
    }
  }

  // ---------- shifts, limb by limb ----------

  lemma LeftParts(a: seq<nat>, k: nat, s: nat, i: nat)
    requires Limbed(a) && s < 32 && i < |a|
    ensures s == 0 ==> Move(a[i], s) == 0
    ensures i + k + 1 < |a| ==> LeftLimb(a, k, s, i, i + k + 1) == 0 && LeftLimb(a, k, s, i + 1, i + k + 1) == Move(a[i], s) == Or(0, Move(a[i], s))
    ensures i + k < |a| ==> LeftLimb(a, k, s, i + 1, i + k) == Or(LeftLimb(a, k, s, i, i + k), Stay(a[i], s))
    ensures forall t :: 0 <= t < |a| && t != i + k && t != i + k + 1 ==> LeftLimb(a, k, s, i + 1, t) == LeftLimb(a, k, s, i, t)
  {
    hide Stay, Move, Or;
    ShiftWord(a[i], s);
    Pow2Zero();
    OrZero(Move(a[i], s));
    OrZero(Stay(a[i], s));
    if i > 0 { OrParts(a[i], a[i - 1], s); }
  }

  lemma LeftLimbed(a: seq<nat>, r: seq<nat>, k: nat, s: nat)
    requires Limbed(a) && s < 32 && IsLeftShift(a, r, k, s)
    ensures Limbed(r)
  {
    hide Stay, Move, Or;
    forall t | 0 <= t < |r| ensures r[t] < LIMB {
      if t >= k {
        OrParts(a[t - k], if t > k then a[t - k - 1] else 0, s);
      }
    }
  }

  lemma RightParts(a: seq<nat>, k: nat, s: nat, i: nat)
    requires Limbed(a) && s < 32 && i < |a|
    ensures s == 0 ==> Stay(a[i], 32 - s) == 0
    ensures i - k - 1 >= 0 ==> RightLimb(a, k, s, i + 1, i - k - 1) == Or(RightLimb(a, k, s, i, i - k - 1), Stay(a[i], 32 - s))
    ensures i - k >= 0 ==> RightLimb(a, k, s, i, i - k) == 0 && RightLimb(a, k, s, i + 1, i - k) == Move(a[i], 32 - s) == Or(0, Move(a[i], 32 - s))
    ensures forall t :: 0 <= t < |a| && t != i - k && t != i - k - 1 ==> RightLimb(a, k, s, i + 1, t) == RightLimb(a, k, s, i, t)
  {
    hide Stay, Move, Or;
    ShiftWord(a[i], 32 - s);
    Pow2Zero();
    Pow2Limb();
    OrZero(Move(a[i], 32 - s));
    if i > 0 { OrParts(a[i], a[i - 1], 32 - s); }
  }

  lemma RightLimbed(a: seq<nat>, r: seq<nat>, k: nat, s: nat)
    requires Limbed(a) && s < 32 && IsRightShift(a, r, k, s)
    ensures Limbed(r)
  {
    hide Stay, Move, Or;
    forall t | 0 <= t < |r| ensures r[t] < LIMB {
      if t + k < |a| {
        OrParts(if t + k + 1 < |a| then a[t + k + 1] else 0, a[t + k], 32 - s);
      }
    }
  }

  // ---------- multiplication ----------

  lemma ScaledTail(v: nat, carry: nat, u: nat, x: nat, pj: nat, lo: nat, pi: nat, hi: nat)
    requires v + carry * (pj * pi) == u + Product(x * pj, lo)
    ensures v + (carry + Product(x, hi)) * (pj * pi) == u + Product(x * pj, lo + pi * hi)
  {
    assert (carry + x * hi) * (pj * pi) == carry * (pj * pi) + (x * hi) * (pj * pi);
    assert (x * hi) * (pj * pi) == (x * pj) * (hi * pi) by { Rearrange(x, hi, pj, pi); }
    assert x * pj * (lo + pi * hi) == x * pj * lo + x * pj * (pi * hi);
    assert pi * hi == hi * pi;
  }

  lemma RowSum(before: nat, after: nat, q: int, lost: nat, m: nat, w: nat, x: nat, p: nat, v: nat)
    requires before + q * m == Product(w, v) && after + lost * m == before + Product(x * p, v)
    ensures after + (q + lost) * m == Product(w + x * p, v)
  {
    assert (q + lost) * m == q * m + lost * m;
    assert (w + x * p) * v == w * v + x * p * v;
  }

  // ---------- division ----------

  /** The lowest n bits are zero. */
  ghost predicate ClearBelow(s: seq<nat>, n: nat) {
    forall i :: 0 <= i < |s| ==> (i < n / 32 ==> s[i] == 0) && (i == n / 32 ==> s[i] % Pow2(n % 32) == 0)
  }

  lemma AllClear(s: seq<nat>, n: nat)
    requires Val(s) == 0
    ensures ClearBelow(s, n)
  {
    hide Val, Base, Pow2;
    forall i | 0 <= i < |s| ensures s[i] == 0 {
      PlaceBound(s, i);
    }
  }

  /** The limb that holds bit n, when the bits up to n are clear, is a multiple of the next power. */
  lemma ClearLimb(s: seq<nat>, n: nat) returns (c: nat)
    requires ClearBelow(s, n + 1) && n < 32 * |s|
    ensures s[n / 32] == c * Pow2(n % 32 + 1)
  {
    var j, m := n / 32, n % 32;
    if m == 31 {
      assert j < (n + 1) / 32;
      c := 0;
    } else {
      assert (n + 1) / 32 == j && (n + 1) % 32 == m + 1;
      assert s[j] % Pow2(m + 1) == 0;
      DivBounds(s[j], Pow2(m + 1));
      c := s[j] / Pow2(m + 1);
      DivMod(s[j], Pow2(m + 1));
    }
  }

  lemma ClearLess(s: seq<nat>, n: nat)
    requires ClearBelow(s, n + 1)
    ensures ClearBelow(s, n)
  {
    var j, m := n / 32, n % 32;
    if j < |s| {
      var c := ClearLimb(s, n);
      MultipleOf(c, m);
    }
  }

  lemma MultipleOf(c: nat, m: nat)
    ensures (c * Pow2(m + 1)) % Pow2(m) == 0 && (c * Pow2(m + 1) + Pow2(m)) % Pow2(m) == 0
  {
    var p := Pow2(m);
    assert c * (2 * p) == (2 * c) * p;
    assert (2 * c) * p + p == (2 * c + 1) * p;
    DivModUnique(c * (2 * p), p, 2 * c, 0);
    DivModUnique(c * (2 * p) + p, p, 2 * c + 1, 0);
  }

  /** Setting bit n of a number whose bits up to n are clear adds 2**n. */
  lemma SetBit(s: seq<nat>, n: nat)
    requires Limbed(s) && ClearBelow(s, n + 1) && n < 32 * |s|
    ensures var j := n / 32;
            var x := Or(s[j], Pow2(n % 32));
            x < LIMB && Val(s[j := x]) == Val(s) + Pow2(n) && ClearBelow(s[j := x], n)
  {
    hide Val, Base, Or, Pow2;
    var j, m := n / 32, n % 32;
    var c := ClearLimb(s, n);
    var x := Or(s[j], Pow2(m));
    BitFits(c, m);
    ClearLess(s, n);
    MultipleOf(c, m);
    ValUpdate(s, j, x);
    PlaceOfBit(s[j], m, j);
  }

  lemma BitFits(c: nat, m: nat)
    requires m < 32 && c * Pow2(m + 1) < LIMB
    ensures Or(c * Pow2(m + 1), Pow2(m)) == c * Pow2(m + 1) + Pow2(m) < LIMB
  {
    assert Pow2(m + 1) == 2 * Pow2(m);
    OrDisjoint(c, Pow2(m), m + 1);
    HalfWords(m + 1);
    BelowWord(c, Pow2(m + 1), Pow2(32 - (m + 1)));
  }

  lemma BelowWord(c: nat, p: nat, q: nat)
    requires p * q == LIMB && c * p < LIMB && p > 0
    ensures c * p + p <= LIMB
  {
    if c >= q { MulMonotone(q, c, p); }
    MulMonotone(c + 1, q, p);
    assert (c + 1) * p == c * p + p;
  }

  lemma PlaceOfBit(x: nat, m: nat, j: nat)
    ensures (x + Pow2(m)) * Base(j) == x * Base(j) + Pow2(32 * j + m)
  {
    Pow2Add(m, 32 * j);
    assert (x + Pow2(m)) * Base(j) == x * Base(j) + Pow2(m) * Base(j);
  }

  lemma DivideStart(N: nat, D: nat, width: nat)
    requires BitLength(N) <= 32 * width
    ensures BitLength(D) == 0 <==> D == 0
    ensures D > 0 && BitLength(D) > BitLength(N) ==> N / D == 0
    ensures D > 0 && BitLength(D) <= BitLength(N) ==>
              var shift := BitLength(N) - BitLength(D);
              shift < 32 * width && (D * Pow2(shift)) % Base(width) == Scaled(D, shift) && Divided(N, D, 0, N, shift + 1)
  {
    hide Pow2;
    if D > 0 {
      BitLengthBounds(D);
      var d := BitLength(D);
      if N > 0 { BitLengthBounds(N); }
      if d > BitLength(N) {
        if N > 0 { Pow2Monotone(BitLength(N), d - 1); }
        DivModUnique(N, D, 0, N);
      } else {
        var shift := BitLength(N) - d;
        Pow2Add(d, shift);
        Pow2Add(d - 1, shift + 1);
        ScaleUp(D, Pow2(d - 1), Pow2(d), Pow2(shift), Pow2(shift + 1));
        Pow2Monotone(BitLength(N), 32 * width);
        DivModUnique(D * Pow2(shift), Base(width), 0, D * Pow2(shift));
      }
    }
  }

  lemma ScaleUp(D: nat, lo: nat, hi: nat, p: nat, q: nat)
    requires lo <= D < hi && p > 0
    ensures 0 <= D * p < hi * p && D * q >= lo * q
  {
    MulMonotone(D + 1, hi, p);
    assert (D + 1) * p == D * p + p;
    MulNonNegative(D, p);
    MulMonotone(lo, D, q);
  }

  /** The divisor shifted left. */
  ghost function Scaled(D: nat, shift: nat): nat {
    D * Pow2(shift)
  }

  /** q is the part of the quotient above bit n, num what is left of the dividend. */
  ghost predicate Divided(N: nat, D: nat, q: nat, num: nat, n: nat) {
    num == N - q * D && num < Scaled(D, n)
  }

  /** One round: whether or not the divisor fits, the remainder drops below its current multiple. */
  lemma DivideStep(N: nat, D: nat, q: nat, num: nat, shift: nat)
    requires Divided(N, D, q, num, shift + 1)
    ensures if num >= Scaled(D, shift) then Divided(N, D, q + Pow2(shift), num - Scaled(D, shift), shift)
            else Divided(N, D, q, num, shift)
  {
    var p := Pow2(shift);
    assert D * (2 * p) == 2 * (D * p);
    assert (q + p) * D == q * D + D * p;
  }

  lemma ScaledHalf(D: nat, shift: nat)
    requires shift > 0
    ensures Scaled(D, shift) / Pow2(1) == Scaled(D, shift - 1)
  {
    var h := Pow2(shift - 1);
    assert D * (2 * h) == (D * h) * 2;
    DivModUnique(D * Pow2(shift), 2, D * h, 0);
    assert Pow2(1) == 2;
  }

  lemma SmallModulus(x: int, m: nat)
    requires 0 <= x < m
    ensures x % m == x
  {
    DivModUnique(x, m, 0, x);
  }

  lemma DivideEnd(N: nat, D: nat, q: nat, num: nat)
    requires D > 0 && Divided(N, D, q, num, 0)
    ensures N / D == q
  {
    Pow2Zero();
    DivModUnique(N, D, q, num);
  }
}
