/** GF(32) and its extension GF(1024), encoded as the decoder's tables encode them. */
module Bech32Field {
  import opened Bech32Code

  // ---------- scaling by symbols ----------

  /** A symbol times a number, coefficient by coefficient in GF(32). */
  function Scale(s: bv32, b: bv32): bv32 {
    Xor(Xor(Xor(Xor(Term(s, 1, b), Term(s, 2, Double(b))), Term(s, 4, Double(Double(b)))), Term(s, 8, Double(Double(Double(b))))),
        Term(s, 16, Double(Double(Double(Double(b))))))
  }

  lemma ScaleXor(s: bv32, t: bv32, b: bv32)
    ensures Scale(Xor(s, t), b) == Xor(Scale(s, b), Scale(t, b))
  {
    hide Term, Xor, Double;
    var b2, b4, b8, b16 := Double(b), Double(Double(b)), Double(Double(Double(b))), Double(Double(Double(Double(b))));
    TermXor(s, t, 1, b);
    TermXor(s, t, 2, b2);
    TermXor(s, t, 4, b4);
    TermXor(s, t, 8, b8);
    TermXor(s, t, 16, b16);
    FiveSwaps(Term(s, 1, b), Term(s, 2, b2), Term(s, 4, b4), Term(s, 8, b8), Term(s, 16, b16),
              Term(t, 1, b), Term(t, 2, b2), Term(t, 4, b4), Term(t, 8, b8), Term(t, 16, b16));
  }

  lemma TermXorRight(s: bv32, mask: bv32, k: bv32, l: bv32)
    ensures Term(s, mask, Xor(k, l)) == Xor(Term(s, mask, k), Term(s, mask, l))
  {
    hide Xor;
    XorLaws(0, 0, 0);
  }

  lemma ScaleXorRight(s: bv32, b: bv32, c: bv32)
    ensures Scale(s, Xor(b, c)) == Xor(Scale(s, b), Scale(s, c))
  {
    hide Term, Xor, Double;
    var b2, b4, b8, b16 := Double(b), Double(Double(b)), Double(Double(Double(b))), Double(Double(Double(Double(b))));
    var c2, c4, c8, c16 := Double(c), Double(Double(c)), Double(Double(Double(c))), Double(Double(Double(Double(c))));
    DoubleXor(b, c);
    DoubleXor(b2, c2);
    DoubleXor(b4, c4);
    DoubleXor(b8, c8);
    TermXorRight(s, 1, b, c);
    TermXorRight(s, 2, b2, c2);
    TermXorRight(s, 4, b4, c4);
    TermXorRight(s, 8, b8, c8);
    TermXorRight(s, 16, b16, c16);
    FiveSwaps(Term(s, 1, b), Term(s, 2, b2), Term(s, 4, b4), Term(s, 8, b8), Term(s, 16, b16),
              Term(s, 1, c), Term(s, 2, c2), Term(s, 4, c4), Term(s, 8, c8), Term(s, 16, c16));
  }

  /** The bits of a doubled symbol. */
  lemma DoubledBits(s: bv32, k: bv32)
    requires s < 32
    ensures Term(Double(s), 1, k) == Term(s, 16, k) && Term(Double(s), 2, k) == Term(s, 1, k) && Term(Double(s), 4, k) == Term(s, 2, k)
    ensures Term(Double(s), 8, k) == Xor(Term(s, 4, k), Term(s, 16, k)) && Term(Double(s), 16, k) == Term(s, 8, k)
  {
  }

  lemma FifthDouble(b: bv32)
    requires b < 1024
    ensures Double(Double(Double(Double(Double(b))))) == Xor(b, Double(Double(Double(b))))
  {
  }

  /** It does not matter which factor is doubled. */
  lemma ScaleDouble(s: bv32, b: bv32)
    requires s < 32 && b < 1024
    ensures Scale(Double(s), b) == Scale(s, Double(b))
  {
    hide Term, Xor, Double;
    var b2, b4, b8, b16 := Double(b), Double(Double(b)), Double(Double(Double(b))), Double(Double(Double(Double(b))));
    DoubledBits(s, b);
    DoubledBits(s, b2);
    DoubledBits(s, b4);
    DoubledBits(s, b8);
    DoubledBits(s, b16);
    FifthDouble(b);
    TermXorRight(s, 16, b, b8);
    Rotate(Term(s, 16, b), Term(s, 1, b2), Term(s, 2, b4), Term(s, 4, b8), Term(s, 16, b8), Term(s, 8, b16));
  }

  lemma Rotate(a: bv32, b: bv32, c: bv32, d: bv32, e: bv32, f: bv32)
    ensures Xor(Xor(Xor(Xor(a, b), c), Xor(d, e)), f) == Xor(Xor(Xor(Xor(b, c), d), f), Xor(a, e))
  {
    hide Xor;
    XorLaws(a, b, c);
    XorLaws(d, e, 0);
    XorSwap(a, Xor(b, c), e, d);
    XorLaws(Xor(a, e), Xor(Xor(b, c), d), f);
    XorLaws(Xor(a, e), Xor(Xor(Xor(b, c), d), f), 0);
  }

  lemma TermDouble(s: bv32, mask: bv32, b: bv32)
    ensures Double(Term(s, mask, b)) == Term(s, mask, Double(b))
  {
  }

  lemma ScaleOfDouble(s: bv32, b: bv32)
    ensures Scale(s, Double(b)) == Double(Scale(s, b))
  {
    hide Term, Xor, Double;
    var b2, b4, b8, b16 := Double(b), Double(Double(b)), Double(Double(Double(b))), Double(Double(Double(Double(b))));
    var t1, t2, t4, t8, t16 := Term(s, 1, b), Term(s, 2, b2), Term(s, 4, b4), Term(s, 8, b8), Term(s, 16, b16);
    TermDouble(s, 1, b);
    TermDouble(s, 2, b2);
    TermDouble(s, 4, b4);
    TermDouble(s, 8, b8);
    TermDouble(s, 16, b16);
    DoubleXor(t1, t2);
    DoubleXor(Xor(t1, t2), t4);
    DoubleXor(Xor(Xor(t1, t2), t4), t8);
    DoubleXor(Xor(Xor(Xor(t1, t2), t4), t8), t16);
  }

  lemma ScaleZero(b: bv32)
    ensures Scale(0, b) == 0 && Scale(b, 0) == 0 && Scale(1, b) == b
  {
    hide Xor, Double;
    DoubleZero();
    XorLaws(0, 0, 0);
    XorLaws(b, 0, 0);
  }

  lemma DoubleZero()
    ensures Double(0) == 0
  {
  }

  lemma ScaleTerm(s: bv32, t: bv32, mask: bv32, b: bv32)
    ensures Scale(s, Term(t, mask, b)) == Term(t, mask, Scale(s, b)) && Scale(Term(t, mask, b), s) == Term(t, mask, Scale(b, s))
  {
    hide Scale;
    ScaleZero(s);
  }

  lemma ScaleXors(s: bv32, t1: bv32, t2: bv32, t4: bv32, t8: bv32, t16: bv32)
    ensures Scale(s, Xor(Xor(Xor(Xor(t1, t2), t4), t8), t16)) == Xor(Xor(Xor(Xor(Scale(s, t1), Scale(s, t2)), Scale(s, t4)), Scale(s, t8)), Scale(s, t16))
    ensures Scale(Xor(Xor(Xor(Xor(t1, t2), t4), t8), t16), s) == Xor(Xor(Xor(Xor(Scale(t1, s), Scale(t2, s)), Scale(t4, s)), Scale(t8, s)), Scale(t16, s))
  {
    hide Scale, Xor;
    ScaleXorRight(s, t1, t2);
    ScaleXorRight(s, Xor(t1, t2), t4);
    ScaleXorRight(s, Xor(Xor(t1, t2), t4), t8);
    ScaleXorRight(s, Xor(Xor(Xor(t1, t2), t4), t8), t16);
    ScaleXor(t1, t2, s);
    ScaleXor(Xor(t1, t2), t4, s);
    ScaleXor(Xor(Xor(t1, t2), t4), t8, s);
    ScaleXor(Xor(Xor(Xor(t1, t2), t4), t8), t16, s);
  }

  lemma Unscaled(s: bv32, b: bv32)
    ensures Scale(s, b) == Xor(Xor(Xor(Xor(Term(s, 1, b), Term(s, 2, Double(b))), Term(s, 4, Double(Double(b)))), Term(s, 8, Double(Double(Double(b))))),
                               Term(s, 16, Double(Double(Double(Double(b))))))
  {
  }

  /** Scaling by two symbols, in either order. */
  lemma ScaleSwap(s: bv32, t: bv32, b: bv32)
    ensures Scale(s, Scale(t, b)) == Scale(t, Scale(s, b))
  {
    hide Scale, Xor, Term, Double;
    var b2, b4, b8, b16 := Double(b), Double(Double(b)), Double(Double(Double(b))), Double(Double(Double(Double(b))));
    Unscaled(t, b);
    Unscaled(t, Scale(s, b));
    ScaleXors(s, Term(t, 1, b), Term(t, 2, b2), Term(t, 4, b4), Term(t, 8, b8), Term(t, 16, b16));
    ScaleTerm(s, t, 1, b);
    ScaleTerm(s, t, 2, b2);
    ScaleTerm(s, t, 4, b4);
    ScaleTerm(s, t, 8, b8);
    ScaleTerm(s, t, 16, b16);
    ScaleOfDouble(s, b);
    ScaleOfDouble(s, b2);
    ScaleOfDouble(s, b4);
    ScaleOfDouble(s, b8);
  }

  lemma DoubleSmall(s: bv32)
    requires s < 32
    ensures Double(s) < 32
  {
  }

  lemma DoubledFactor(s: bv32, b: bv32)
    requires s < 32 && b < 1024
    ensures Scale(Double(s), b) == Double(Scale(s, b)) && Double(s) < 32
  {
    hide Scale, Double;
    DoubleSmall(s);
    ScaleDouble(s, b);
    ScaleOfDouble(s, b);
  }

  /** The product of two symbols scales as they do one after the other. */
  lemma ScaleScale(s: bv32, t: bv32, b: bv32)
    requires t < 32 && b < 1024
    ensures Scale(Scale(s, t), b) == Scale(s, Scale(t, b))
  {
    hide Scale, Xor, Term, Double;
    var t2, t4, t8, t16 := Double(t), Double(Double(t)), Double(Double(Double(t))), Double(Double(Double(Double(t))));
    Unscaled(s, t);
    Unscaled(s, Scale(t, b));
    ScaleXors(b, Term(s, 1, t), Term(s, 2, t2), Term(s, 4, t4), Term(s, 8, t8), Term(s, 16, t16));
    ScaleTerm(b, s, 1, t);
    ScaleTerm(b, s, 2, t2);
    ScaleTerm(b, s, 4, t4);
    ScaleTerm(b, s, 8, t8);
    ScaleTerm(b, s, 16, t16);
    DoubledFactor(t, b);
    DoubledFactor(t2, b);
    DoubledFactor(t4, b);
    DoubledFactor(t8, b);
  }

  // ---------- GF(1024) ----------

  function Upper(v: bv32): bv32 {
    v >> 5
  }

  function Lower(v: bv32): bv32 {
    v & 31
  }

  function Raise(s: bv32): bv32 {
    s << 5
  }

  /** An element v1 * e + v0, written v1 || v0, times the root e of x**2 + 9x + 23. */
  function TimesE(v: bv32): bv32 {
    Xor(Raise(Xor(Scale(9, Upper(v)), Lower(v))), Scale(23, Upper(v)))
  }

  lemma UpperXor(u: bv32, v: bv32)
    ensures Upper(Xor(u, v)) == Xor(Upper(u), Upper(v))
  {
    assert (u ^ v) >> 5 == (u >> 5) ^ (v >> 5);
  }

  lemma LowerXor(u: bv32, v: bv32)
    ensures Lower(Xor(u, v)) == Xor(Lower(u), Lower(v))
  {
    assert (u ^ v) & 31 == (u & 31) ^ (v & 31);
  }

  lemma RaiseXor(u: bv32, v: bv32)
    ensures Raise(Xor(u, v)) == Xor(Raise(u), Raise(v))
  {
    assert (u ^ v) << 5 == (u << 5) ^ (v << 5);
  }

  lemma Halves(v: bv32)
    requires v < 1024
    ensures Upper(v) < 32 && Lower(v) < 32 && v == Xor(Raise(Upper(v)), Lower(v))
  {
  }

  lemma Join(a: bv32, b: bv32)
    requires a < 32 && b < 32
    ensures Upper(Xor(Raise(a), b)) == a && Lower(Xor(Raise(a), b)) == b && Xor(Raise(a), b) < 1024
  {
  }

  lemma TimesEXor(u: bv32, v: bv32)
    ensures TimesE(Xor(u, v)) == Xor(TimesE(u), TimesE(v))
  {
    hide Xor, Upper, Lower, Raise, Scale;
    UpperXor(u, v);
    LowerXor(u, v);
    ScaleXorRight(9, Upper(u), Upper(v));
    ScaleXorRight(23, Upper(u), Upper(v));
    var a, b := Xor(Scale(9, Upper(u)), Lower(u)), Xor(Scale(9, Upper(v)), Lower(v));
    XorSwap(Scale(9, Upper(u)), Scale(9, Upper(v)), Lower(u), Lower(v));
    RaiseXor(a, b);
    XorSwap(Raise(a), Raise(b), Scale(23, Upper(u)), Scale(23, Upper(v)));
  }

  lemma DoubleHalves(v: bv32)
    requires v < 1024
    ensures Upper(Double(v)) == Double(Upper(v)) && Lower(Double(v)) == Double(Lower(v)) && Double(v) < 1024
  {
  }

  /** Both halves of an element are scaled alike. */
  lemma ScaleHalves(s: bv32, v: bv32)
    requires v < 1024
    ensures Upper(Scale(s, v)) == Scale(s, Upper(v)) && Lower(Scale(s, v)) == Scale(s, Lower(v)) && Scale(s, v) < 1024
  {
    hide Xor, Term, Upper, Lower, Double;
    var v2, v4, v8, v16 := Double(v), Double(Double(v)), Double(Double(Double(v))), Double(Double(Double(Double(v))));
    DoubleHalves(v);
    DoubleHalves(v2);
    DoubleHalves(v4);
    DoubleHalves(v8);
    TermHalves(s, 1, v);
    TermHalves(s, 2, v2);
    TermHalves(s, 4, v4);
    TermHalves(s, 8, v8);
    TermHalves(s, 16, v16);
    var t1, t2, t4, t8, t16 := Term(s, 1, v), Term(s, 2, v2), Term(s, 4, v4), Term(s, 8, v8), Term(s, 16, v16);
    XorHalves(t1, t2);
    XorHalves(Xor(t1, t2), t4);
    XorHalves(Xor(Xor(t1, t2), t4), t8);
    XorHalves(Xor(Xor(Xor(t1, t2), t4), t8), t16);
  }

  lemma TermHalves(s: bv32, mask: bv32, v: bv32)
    ensures Upper(Term(s, mask, v)) == Term(s, mask, Upper(v)) && Lower(Term(s, mask, v)) == Term(s, mask, Lower(v))
    ensures v < 1024 ==> Term(s, mask, v) < 1024
  {
  }

  lemma XorHalves(u: bv32, v: bv32)
    requires u < 1024 && v < 1024
    ensures Upper(Xor(u, v)) == Xor(Upper(u), Upper(v)) && Lower(Xor(u, v)) == Xor(Lower(u), Lower(v)) && Xor(u, v) < 1024
  {
  }

  lemma ScaleRaise(s: bv32, b: bv32)
    requires b < 32
    ensures Scale(s, Raise(b)) == Raise(Scale(s, b)) && Scale(s, b) < 32
  {
    hide Scale, Upper, Lower, Xor, Raise;
    RaiseSmall(b);
    ScaleHalves(s, Raise(b));
    ScaleSmall(s, b);
    ScaleZero(s);
    Halves(Scale(s, Raise(b)));
    XorLaws(Raise(Upper(Scale(s, Raise(b)))), 0, 0);
  }

  lemma RaiseSmall(b: bv32)
    requires b < 32
    ensures Raise(b) < 1024 && Upper(Raise(b)) == b && Lower(Raise(b)) == 0
  {
  }

  lemma ScaleSmall(s: bv32, b: bv32)
    requires b < 32
    ensures Scale(s, b) < 32
  {
    hide Scale, Upper, Lower;
    ScaleHalves(s, b);
    ScaleZero(s);
    SmallHalves(b);
    SmallHalves(Scale(s, b));
  }

  lemma SmallHalves(v: bv32)
    ensures v < 32 <==> Upper(v) == 0
  {
  }

  lemma TimesEHalves(v: bv32)
    requires v < 1024
    ensures TimesE(v) < 1024 && Upper(TimesE(v)) == Xor(Scale(9, Upper(v)), Lower(v)) && Lower(TimesE(v)) == Scale(23, Upper(v))
  {
    hide Scale, Upper, Lower, Xor, Raise;
    Halves(v);
    ScaleSmall(9, Upper(v));
    ScaleSmall(23, Upper(v));
    XorSmall(Scale(9, Upper(v)), Lower(v));
    Join(Xor(Scale(9, Upper(v)), Lower(v)), Scale(23, Upper(v)));
  }

  /** Multiplying by e loses nothing. */
  lemma TimesENonZero(v: bv32)
    requires v < 1024
    ensures TimesE(v) == 0 <==> v == 0
  {
  }

  /** Multiplying by e commutes with scaling. */
  lemma TimesEScale(s: bv32, v: bv32)
    requires v < 1024
    ensures TimesE(Scale(s, v)) == Scale(s, TimesE(v))
  {
    hide Scale, Upper, Lower, Xor, Raise;
    var a, b := Upper(v), Lower(v);
    Halves(v);
    ScaleHalves(s, v);
    ScaleSwap(s, 9, a);
    ScaleSwap(s, 23, a);
    ScaleXorRight(s, Scale(9, a), b);
    ScaleSmall(9, a);
    XorSmall(Scale(9, a), b);
    ScaleRaise(s, Xor(Scale(9, a), b));
    ScaleXorRight(s, Raise(Xor(Scale(9, a), b)), Scale(23, a));
  }

  /** e is a root of x**2 + 9x + 23. */
  lemma TimesETwice(v: bv32)
    requires v < 1024
    ensures TimesE(TimesE(v)) == Xor(Scale(9, TimesE(v)), Scale(23, v))
  {
    hide Scale, Upper, Lower, Xor, Raise;
    var a, b := Upper(v), Lower(v);
    Halves(v);
    TimesEHalves(v);
    var x, y := Xor(Scale(9, a), b), Scale(23, a);
    ScaleSmall(9, a);
    ScaleSmall(23, a);
    XorSmall(Scale(9, a), b);
    ScaleRaise(9, x);
    ScaleRaise(23, a);
    ScaleXorRight(9, Raise(x), y);
    ScaleXorRight(23, Raise(a), b);
    ScaleSwap(9, 23, a);
    ScaleXorRight(23, Scale(9, a), b);
    RaiseXor(Scale(9, x), y);
    XorSwap(Raise(Scale(9, x)), Raise(y), Scale(9, y), Scale(23, b));
  }

  /** The product of two elements. */
  function Mul(a: bv32, b: bv32): bv32 {
    Xor(Scale(Lower(a), b), Scale(Upper(a), TimesE(b)))
  }

  /** The product is associative where one factor is e. */
  lemma MulE(a: bv32, b: bv32)
    requires a < 1024 && b < 1024
    ensures Mul(TimesE(a), b) == TimesE(Mul(a, b))
  {
    hide Scale, Upper, Lower, Xor, TimesE;
    var u, l, c := Upper(a), Lower(a), TimesE(b);
    Halves(a);
    TimesEHalves(a);
    TimesEHalves(b);
    ScaleScale(23, u, b);
    ScaleScale(9, u, c);
    ScaleSwap(23, u, b);
    ScaleSwap(9, u, c);
    ScaleXor(Scale(9, u), l, c);
    TimesETwice(b);
    ScaleXorRight(u, Scale(9, c), Scale(23, b));
    TimesEScale(u, c);
    TimesEScale(l, b);
    TimesEXor(Scale(l, b), Scale(u, c));
    var p, q, r := Scale(u, Scale(23, b)), Scale(u, Scale(9, c)), Scale(l, c);
    XorLaws(p, q, r);
    XorLaws(q, p, 0);
    XorLaws(Xor(q, p), r, 0);
  }
}
