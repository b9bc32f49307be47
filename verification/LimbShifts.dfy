/** What shifting limb by limb does to the value. */
module LimbShifts {
  import opened Arithmetic
  import opened Bits
  import opened Limbs

  /** The bits of a word that stay in its limb when shifted left, and those that move to the next. */
  function Stay(x: nat, s: nat): nat {
    (x * Pow2(s)) % LIMB
  }

  function Move(x: nat, s: nat): nat
    requires s <= 32
  {
    DivBounds(x, Pow2(32 - s));
    x / Pow2(32 - s)
  }

  /** A word shifted left, as 64 bits, consists of the two parts; the parts share no bit. */
  lemma ShiftWord(x: nat, s: nat)
    requires x < LIMB && s <= 32
    ensures x * Pow2(s) == Stay(x, s) + LIMB * Move(x, s)
    ensures Stay(x, s) == (x % Pow2(32 - s)) * Pow2(s) <= LIMB - Pow2(s) && Move(x, s) < Pow2(s)
  {
    hide Pow2;
    var p, q := Pow2(s), Pow2(32 - s);
    HalfWords(s);
    DivBounds(x, q);
    var h, r := x / q, x % q;
    assert x == h * q + r by { DivMod(x, q); }
    SplitShift(x, h, r, p, q);
    DivMod(x * p, LIMB);
  }

  lemma HalfWords(s: nat)
    requires s <= 32
    ensures Pow2(s) * Pow2(32 - s) == LIMB
  {
    Pow2Add(s, 32 - s);
    Pow2Limb();
  }

  lemma DivMod(x: nat, q: nat)
    requires q > 0
    ensures x == (x / q) * q + x % q
  {
  }

  lemma SplitShift(x: nat, h: nat, r: nat, p: nat, q: nat)
    requires x == h * q + r && r < q && p * q == LIMB && x < LIMB && p > 0
    ensures (x * p) / LIMB == h < p && (x * p) % LIMB == r * p <= LIMB - p
  {
    Distribute(h, q, r, p);
    MulMonotone(r, q - 1, p);
    assert (q - 1) * p == q * p - p;
    MulNonNegative(r, p);
    DivModUnique(x * p, LIMB, h, r * p);
    if h >= p { MulMonotone(p, h, q); }
  }

  lemma Distribute(h: nat, q: nat, r: nat, p: nat)
    ensures (h * q + r) * p == h * (p * q) + r * p
  {
    assert (h * q + r) * p == (h * q) * p + r * p;
    assert (h * q) * p == h * (p * q);
  }

  lemma OrParts(x: nat, y: nat, s: nat)
    requires x < LIMB && y < LIMB && s <= 32
    ensures Or(Move(y, s), Stay(x, s)) == Stay(x, s) + Move(y, s) < LIMB
    ensures Or(Stay(x, s), Move(y, s)) == Stay(x, s) + Move(y, s)
  {
    hide Stay, Move, Or, Pow2;
    ShiftWord(x, s);
    ShiftWord(y, s);
    OrDisjoint(x % Pow2(32 - s), Move(y, s), s);
    OrCommutes(Stay(x, s), Move(y, s));
  }

  lemma OrZero(y: nat)
    ensures Or(0, y) == y && Or(y, 0) == y
  {
  }

  // ---------- left ----------

  /** Limb t after the first i source limbs have been placed. */
  function LeftLimb(a: seq<nat>, k: nat, s: nat, i: nat, t: nat): nat
    requires s < 32 && t < |a|
  {
    (if k <= t < i + k then Stay(a[t - k], s) else 0) + (if k < t < i + k + 1 then Move(a[t - k - 1], s) else 0)
  }

  ghost predicate IsLeftShift(a: seq<nat>, r: seq<nat>, k: nat, s: nat)
    requires s < 32
  {
    |r| == |a| && forall t :: 0 <= t < |a| ==> r[t] == LeftLimb(a, k, s, |a|, t)
  }

  lemma {:induction false} LeftPrefix(a: seq<nat>, r: seq<nat>, k: nat, s: nat, t: nat)
    requires Limbed(a) && s < 32 && IsLeftShift(a, r, k, s) && k <= t <= |a|
    ensures Val(r[..t]) + (if t > k then Move(a[t - k - 1], s) else 0) * Base(t) == Val(a[..t - k]) * Pow2(32 * k + s)
    decreases t
  {
    hide Val, Base, Stay, Move, Pow2;
    if t == k {
      ValZeros(r[..k]);
      ValZeros(a[..0]);
    } else {
      var u := t - 1;
      LeftPrefix(a, r, k, s, u);
      var x, carry := a[u - k], if u > k then Move(a[u - k - 1], s) else 0;
      assert r[u] == Stay(x, s) + carry;
      assert r[..t] == r[..u] + [r[u]] && a[..t - k] == a[..u - k] + [x];
      ValAppend(r[..u], r[u]);
      ValAppend(a[..u - k], x);
      BaseStep(u);
      ShiftWord(x, s);
      PlaceShift(k, s, u - k);
      LeftStep(Val(r[..u]), Val(a[..u - k]), x, Stay(x, s), Move(x, s), carry, Base(u), Base(u - k), Pow2(s), Pow2(32 * k + s));
    }
  }

  lemma PlaceShift(k: nat, s: nat, j: nat)
    ensures Pow2(s) * Base(j + k) == Base(j) * Pow2(32 * k + s)
  {
    Pow2Add(s, 32 * (j + k));
    Pow2Add(32 * j, 32 * k + s);
  }

  lemma LeftStep(v: nat, w: nat, x: nat, stay: nat, move: nat, carry: nat, p: nat, pj: nat, ps: nat, m: nat)
    requires v + carry * p == w * m && x * ps == stay + LIMB * move && ps * p == pj * m
    ensures v + (stay + carry) * p + move * (LIMB * p) == (w + x * pj) * m
  {
    assert (stay + carry) * p == stay * p + carry * p;
    assert move * (LIMB * p) == (LIMB * move) * p;
    assert (stay + LIMB * move) * p == stay * p + (LIMB * move) * p;
    assert (x * ps) * p == x * (ps * p);
    assert x * (pj * m) == (x * pj) * m;
    assert (w + x * pj) * m == w * m + (x * pj) * m;
  }

  /** Shifting left multiplies, modulo the width. */
  lemma LeftValue(a: seq<nat>, r: seq<nat>, k: nat, s: nat)
    requires Limbed(a) && Limbed(r) && s < 32 && IsLeftShift(a, r, k, s)
    ensures Val(r) == (Val(a) * Pow2(32 * k + s)) % Base(|a|)
  {
    hide Val, Base, Stay, Move, Pow2;
    var w := |a|;
    ValBound(r);
    if k >= w {
      ValZeros(r);
      PlaceShift(k - w, s, w);
      WholeShift(k, s, w);
      LeftAway(Val(a), Pow2(32 * (k - w) + s), Base(w));
    } else {
      LeftPrefix(a, r, k, s, w);
      assert r[..w] == r;
      ValSplit(a, w - k);
      PlaceShift(k, s, w - k);
      LeftWrap(Val(r), Move(a[w - k - 1], s), Base(w), Val(a[..w - k]), Val(a[w - k..]), Base(w - k), Pow2(s), Pow2(32 * k + s));
    }
  }

  lemma WholeShift(k: nat, s: nat, w: nat)
    requires k >= w
    ensures Pow2(32 * k + s) == Pow2(32 * (k - w) + s) * Base(w)
  {
    Pow2Add(32 * (k - w) + s, 32 * w);
  }

  lemma LeftAway(v: nat, x: nat, b: nat)
    requires b > 0
    ensures (v * (x * b)) % b == 0
  {
    assert v * (x * b) == (v * x) * b;
    DivModUnique(v * (x * b), b, v * x, 0);
  }

  lemma LeftWrap(r: nat, carry: nat, b: nat, lo: nat, hi: nat, bl: nat, ps: nat, m: nat)
    requires r < b && r + carry * b == lo * m && ps * b == bl * m
    ensures r == ((lo + bl * hi) * m) % b
  {
    assert (lo + bl * hi) * m == lo * m + (bl * hi) * m;
    assert (bl * hi) * m == hi * (bl * m);
    assert hi * (ps * b) == (hi * ps) * b;
    assert (carry + hi * ps) * b == carry * b + (hi * ps) * b;
    Wrap(r, carry + hi * ps, (lo + bl * hi) * m, b);
  }

  // ---------- right ----------

  /** Limb t after the first i source limbs have been placed. */
  function RightLimb(a: seq<nat>, k: nat, s: nat, i: nat, t: nat): nat
    requires s < 32 && t < |a| && i <= |a|
  {
    (if t + k < i then Move(a[t + k], 32 - s) else 0) + (if t + k + 1 < i then Stay(a[t + k + 1], 32 - s) else 0)
  }

  ghost predicate IsRightShift(a: seq<nat>, r: seq<nat>, k: nat, s: nat)
    requires s < 32
  {
    |r| == |a| && forall t :: 0 <= t < |a| ==> r[t] == RightLimb(a, k, s, |a|, t)
  }

  /** The bits shifted out of limb j. */
  function Dropped(a: seq<nat>, j: nat, s: nat): nat {
    if j < |a| then a[j] % Pow2(s) else 0
  }

  lemma {:induction false} RightPrefix(a: seq<nat>, r: seq<nat>, k: nat, s: nat, t: nat)
    requires Limbed(a) && s < 32 && IsRightShift(a, r, k, s) && k + t <= |a|
    ensures Val(r[..t]) * Pow2(s) + Dropped(a, k, s) == Val(a[k..k + t]) + Dropped(a, k + t, s) * Base(t)
    decreases t
  {
    hide Val, Base, Stay, Move, Pow2;
    if t == 0 {
      ValZeros(r[..0]);
      ValZeros(a[k..k]);
      Pow2Zero();
    } else {
      var u := t - 1;
      RightPrefix(a, r, k, s, u);
      assert r[..t] == r[..u] + [r[u]] && a[k..k + t] == a[k..k + u] + [a[k + u]];
      ValAppend(r[..u], r[u]);
      ValAppend(a[k..k + u], a[k + u]);
      BaseStep(u);
      RightWord(a, r, k, s, u);
      RightStep(Val(r[..u]), Val(a[k..k + u]), r[u], a[k + u], Dropped(a, k, s), Dropped(a, k + u, s), Dropped(a, k + t, s), Pow2(s), Base(u));
    }
  }

  lemma RightWord(a: seq<nat>, r: seq<nat>, k: nat, s: nat, u: nat)
    requires Limbed(a) && s < 32 && IsRightShift(a, r, k, s) && k + u < |a|
    ensures r[u] * Pow2(s) + Dropped(a, k + u, s) == a[k + u] + Dropped(a, k + u + 1, s) * LIMB
  {
    hide Pow2, Stay;
    var p, q := Pow2(s), Pow2(32 - s);
    HalfWords(s);
    var x, next := a[k + u], Dropped(a, k + u + 1, s);
    DivMod(x, p);
    assert r[u] == x / p + next * q by {
      if k + u + 1 < |a| { ShiftWord(a[k + u + 1], 32 - s); }
    }
    RightScale(x / p, next, p, q);
  }

  lemma RightScale(h: int, next: nat, p: nat, q: nat)
    ensures (h + next * q) * p == h * p + next * (p * q)
  {
    assert (h + next * q) * p == h * p + (next * q) * p;
    assert (next * q) * p == next * (p * q);
  }

  lemma RightStep(v: nat, w: nat, r: nat, x: nat, first: nat, drop: nat, next: nat, ps: nat, p: nat)
    requires v * ps + first == w + drop * p && r * ps + drop == x + next * LIMB
    ensures (v + r * p) * ps + first == (w + x * p) + next * (LIMB * p)
  {
    assert (v + r * p) * ps == v * ps + (r * p) * ps;
    assert (r * p) * ps == (r * ps) * p;
    assert (r * ps + drop) * p == (r * ps) * p + drop * p;
    assert (x + next * LIMB) * p == x * p + (next * LIMB) * p;
    assert (next * LIMB) * p == next * (LIMB * p);
  }

  /** Shifting right divides, rounding down. */
  lemma RightValue(a: seq<nat>, r: seq<nat>, k: nat, s: nat)
    requires Limbed(a) && s < 32 && IsRightShift(a, r, k, s)
    ensures Val(r) == Val(a) / Pow2(32 * k + s)
  {
    hide Val, Base, Stay, Move, Pow2;
    var w := |a|;
    if k >= w {
      ValZeros(r);
      ValBound(a);
      LongShift(w, k, s);
      DivModUnique(Val(a), Pow2(32 * k + s), 0, Val(a));
    } else {
      RightPrefix(a, r, k, s, w - k);
      ValSplit(r, w - k);
      ValZeros(r[w - k..]);
      assert a[k..w] == a[k..];
      ValSplit(a, k);
      ValBound(a[..k]);
      PlaceShift(k, s, 0);
      Pow2Zero();
      RightFloor(Val(a[..k]), Base(k), Val(a[k..]), Val(r), Pow2(s), a[k] % Pow2(s));
    }
  }

  lemma LongShift(w: nat, k: nat, s: nat)
    requires w <= k
    ensures Base(w) <= Pow2(32 * k + s)
  {
    Pow2Monotone(32 * w, 32 * k + s);
  }

  lemma RightFloor(lo: nat, b: nat, hi: nat, r: nat, p: nat, d: nat)
    requires lo < b && d < p && hi == r * p + d
    ensures (lo + b * hi) / (p * b) == r
  {
    assert b * (r * p + d) == r * (p * b) + d * b by {
      assert b * (r * p + d) == b * (r * p) + b * d;
      assert b * (r * p) == r * (p * b);
    }
    MulMonotone(d, p - 1, b);
    assert (p - 1) * b == p * b - b;
    MulNonNegative(d, b);
    DivModUnique(lo + b * hi, p * b, r, lo + d * b);
  }
}
