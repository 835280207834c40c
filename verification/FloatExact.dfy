/** Rounding the truncated sum with its sticky bit is rounding the exact sum. */
module FloatExact {
  import opened Arith
  import opened RoundSpec
  import opened LimbBits
  import opened BigFloats

  /** s = q * 2^w + low is kept as r = Sticky(q, low), which is normalized to v = r * 2^shift of n bits. */
  ghost predicate Truncated(s: nat, q: nat, low: nat, w: nat, v: nat, n: nat, shift: nat) {
    low < Pow2(w) && s == q * Pow2(w) + low && v == Sticky(q, low) * Pow2(shift) && n > shift &&
    Pow2(n - 1) <= v < Pow2(n)
  }

  /** The rounding y of v is the rounding of s, and it changes v exactly when it changes s. */
  ghost predicate Agrees(mode: Mode, neg: bool, p: nat, s: nat, w: nat, v: nat, shift: nat, y: nat, g: int)
    requires p >= 1
  {
    IsRounding(mode, neg, p, Float(s, g - w), Float(y, g - shift)) &&
    (y == v <==> Float(y, g - shift) == Float(s, g - w))
  }

  lemma {:induction false} ExactRounds(mode: Mode, neg: bool, p: nat, s: nat, q: nat, w: nat, v: nat, n: nat, shift: nat, g: int)
    requires p >= 1 && Truncated(s, q, 0, w, v, n, shift)
    ensures Agrees(mode, neg, p, s, w, v, shift, RoundedAt(mode, neg, v, n - p), g)
  {
    hide Pow2, Float, RoundedAt, IsRounding;
    var y := RoundedAt(mode, neg, v, n - p);
    FloatShift(q, g - w, w);
    FloatShift(q, g - shift, shift);
    RoundedIsRounding(mode, neg, v, n, p, g - shift);
    SameFloat(y, v, g - shift);
  }

  /** The bits of the truncated number and of the exact one. */
  lemma {:induction false} StickyBits(q: nat, low: nat, w: nat, nb: nat)
    requires 0 < low < Pow2(w) && nb >= 2 && Pow2(nb - 1) <= Sticky(q, low) < Pow2(nb)
    ensures Pow2(nb + w - 1) <= q * Pow2(w) + low < Pow2(nb + w)
  {
    assert Pow2(nb - 1) == 2 * Pow2(nb - 2) && Pow2(nb) == 2 * Pow2(nb - 1);
    hide Pow2;
    assert Pow2(nb - 1) <= q < Pow2(nb);
    Pow2Add(nb - 1, w);
    Pow2Add(nb, w);
    MulMono(Pow2(nb - 1), q, Pow2(w));
    MulMono(q + 1, Pow2(nb), Pow2(w));
    MulDist(q, 1, Pow2(w));
  }

  lemma {:induction false} Unscale(x: nat, nb: nat, shift: nat)
    requires nb >= 1 && Pow2(nb + shift - 1) <= x * Pow2(shift) < Pow2(nb + shift)
    ensures Pow2(nb - 1) <= x < Pow2(nb)
  {
    hide Pow2;
    Pow2Add(nb - 1, shift);
    Pow2Add(nb, shift);
    if x < Pow2(nb - 1) {
      MulStrict(x, Pow2(nb - 1), Pow2(shift));
    }
    if x >= Pow2(nb) {
      MulMono(Pow2(nb), x, Pow2(shift));
    }
  }

  /** The same number of units in all three scales. */
  lemma {:induction false} SameUnits(mode: Mode, neg: bool, p: int, s: nat, q: nat, low: nat, w: nat, v: nat, n: nat, shift: nat)
    requires Truncated(s, q, low, w, v, n, shift) && n - shift >= p + 2
    ensures RoundUnits(mode, neg, s, Pow2(n - shift - p + w)) == RoundUnits(mode, neg, v, Pow2(n - p))
  {
    hide Pow2, RoundUnits, Sticky;
    var k := n - shift - p;
    StickyRounds(mode, neg, q, Pow2(w), low, k);
    Pow2Add(k, w);
    RoundScale(mode, neg, Sticky(q, low), Pow2(k), Pow2(shift));
    Pow2Add(k, shift);
  }

  /** With bits lost below the sticky bit, neither number is a multiple of the unit. */
  lemma {:induction false} NeitherExact(u: nat, q: nat, low: nat, w: nat, k: nat, shift: nat)
    requires 0 < low < Pow2(w) && k >= 1
    ensures u * Pow2(k + w) != q * Pow2(w) + low
    ensures u * Pow2(k + shift) != Sticky(q, low) * Pow2(shift)
  {
    hide Pow2, Sticky;
    Pow2Add(k, w);
    MulAssoc(u, Pow2(k), Pow2(w));
    if u * Pow2(k + w) == q * Pow2(w) + low {
      DivUnique(u * Pow2(k), 0, q, low, Pow2(w));
    }
    EvenUnit(u, k);
    StickyOdd(q, low);
    Pow2Add(k, shift);
    MulAssoc(u, Pow2(k), Pow2(shift));
    if u * Pow2(k + shift) == Sticky(q, low) * Pow2(shift) {
      DivUnique(u * Pow2(k), 0, Sticky(q, low), 0, Pow2(shift));
    }
  }

  lemma {:induction false} EvenUnit(u: nat, k: nat)
    requires k >= 1
    ensures (u * Pow2(k)) % 2 == 0
  {
    assert Pow2(k) == 2 * Pow2(k - 1);
    EvenTimes(u, Pow2(k - 1));
  }

  lemma {:induction false} EvenTimes(u: nat, h: nat)
    ensures (u * (2 * h)) % 2 == 0
  {
    MulAssoc(u, h, 2);
  }

  lemma {:induction false} StickyOdd(q: nat, low: nat)
    requires low != 0
    ensures Sticky(q, low) % 2 == 1
  {
  }

  lemma {:induction false} InexactRounds(mode: Mode, neg: bool, p: nat, s: nat, q: nat, low: nat, w: nat, v: nat, n: nat, shift: nat, g: int)
    requires p >= 1 && Truncated(s, q, low, w, v, n, shift) && low > 0 && n - shift >= p + 2
    ensures Agrees(mode, neg, p, s, w, v, shift, RoundedAt(mode, neg, v, n - p), g)
  {
    hide Pow2, Float, RoundUnits, Sticky, Correct;
    var nb := n - shift;
    var k, ns := nb - p, nb + w;
    Unscale(Sticky(q, low), nb, shift);
    StickyBits(q, low, w, nb);
    SameUnits(mode, neg, p, s, q, low, w, v, n, shift);
    var u := RoundUnits(mode, neg, v, Pow2(n - p));
    RoundIsCorrect(mode, neg, s, ns, p, g - w);
    FloatShift(u, g - shift, n - p);
    FloatShift(u, g - w, k + w);
    assert Correct(mode, neg, p, Float(s, g - w), u, g - w + (ns - p));
    NeitherExact(u, q, low, w, k, shift);
    SameFloat(u * Pow2(k + w), s, g - w);
  }

  /** Any sum: exact, or truncated with at least two bits to spare. */
  lemma {:induction false} SumRounds(mode: Mode, neg: bool, p: nat, s: nat, q: nat, low: nat, w: nat, v: nat, n: nat, shift: nat, g: int)
    requires p >= 1 && Truncated(s, q, low, w, v, n, shift) && (low == 0 || n - shift >= p + 2)
    ensures Agrees(mode, neg, p, s, w, v, shift, RoundedAt(mode, neg, v, n - p), g)
  {
    hide Truncated, RoundedAt, Agrees;
    if low == 0 {
      ExactRounds(mode, neg, p, s, q, w, v, n, shift, g);
    } else {
      InexactRounds(mode, neg, p, s, q, low, w, v, n, shift, g);
    }
  }

  /** The rounding of v, as a function of the exact value alone: at any precision, also none or a negative one. */
  lemma {:induction false} RoundedExact(mode: Mode, neg: bool, p: int, s: nat, q: nat, low: nat, w: nat, v: nat, n: nat, shift: nat, g: int)
    requires Truncated(s, q, low, w, v, n, shift) && (low == 0 || n - shift >= p + 2)
    ensures RoundReal(mode, neg, Float(s, g - w), P2(g - shift + n - p)) == Float(RoundedAt(mode, neg, v, n - p), g - shift)
  {
    hide Pow2, P2, Float, RoundUnits, RoundReal;
    var f := g - shift;
    if low == 0 {
      FloatShift(q, g - w, w);
      FloatShift(q, f, shift);
      assert Float(s, g - w) == Float(v, f);
      if n - p <= 0 {
        RoundRealDown(mode, neg, v, f, p - n);
      } else {
        RoundRealUp(mode, neg, v, f, n - p);
        FloatShift(RoundUnits(mode, neg, v, Pow2(n - p)), f, n - p);
      }
    } else {
      var k := n - shift - p;
      SameUnits(mode, neg, p, s, q, low, w, v, n, shift);
      RoundRealUp(mode, neg, s, g - w, k + w);
      FloatShift(RoundUnits(mode, neg, v, Pow2(n - p)), f, n - p);
    }
  }
}
