/**
The estimate of the quotient in bf_integer_to_radix_rec, by a rounded inverse of the divisor and a
rounded product: it is off by at most one, so that one correction is enough.
*/
module RadixEstimates {
  import opened Arith
  import opened RoundSpec
  import opened BigFloats
  import opened RadixConversion

  lemma {:induction false} P2Inverse(s: int)
    ensures P2(s) * P2(-s) == 1.0
  {
    if s >= 0 {
      Reciprocal(Pow2(s) as real);
    } else {
      Reciprocal(Pow2(-s) as real);
    }
  }

  lemma {:induction false} Reciprocal(x: real)
    requires x > 0.0
    ensures x * (1.0 / x) == 1.0 && (1.0 / x) * x == 1.0
  {
  }

  /** A nearest rounding to p bits is within half of 2^-s, if p bits are enough for the number in units of 2^-s. */
  lemma {:induction false} NearestGap(p: nat, x: real, s: int, y: real)
    requires p >= 1 && x >= 0.0 && IsRounding(RNDN, false, p, x, y) && x * P2(s) < Pow2(p) as real + 0.5
    ensures 2.0 * Gap(x, y) * P2(s) <= 1.0
  {
    hide P2, Pow2, IsRounding, Float;
    var v, k := x * P2(s), P2(-s);
    NonNegative(x, P2(s));
    var m: nat := (v + 0.5).Floor;
    P2Inverse(s);
    assert x == v * k by { RealAssoc(x, P2(s), k); }
    var c, f := Candidate(m, p, s);
    NearestOf(p, x, y, c, f);
    GapOf(v, m as real, k);
    assert Gap(v, m as real) <= 0.5;
    Bounded(Gap(x, y), Gap(v, m as real), k, P2(s));
  }

  lemma {:induction false} NearestOf(p: nat, x: real, y: real, c: nat, f: int)
    requires p >= 1 && IsRounding(RNDN, false, p, x, y) && c < Pow2(p)
    ensures Gap(x, y) <= Gap(x, Float(c, f))
  {
    hide P2, Pow2, Float, Gap, Best;
    var u: nat, e: int :| Correct(RNDN, false, p, x, u, e) && y == Float(u, e);
    assert Best(RNDN, false, x, Float(u, e), Float(c, f), u);
    NearestBest(x, y, Float(c, f), u);
  }

  lemma {:induction false} NearestBest(x: real, y: real, z: real, u: nat)
    requires Best(RNDN, false, x, y, z, u)
    ensures Gap(x, y) <= Gap(x, z)
  {
    hide Gap;
  }

  lemma {:induction false} NonNegative(x: real, p: real)
    requires x >= 0.0 && p > 0.0
    ensures x * p >= 0.0
  {
  }

  /** m * 2^-s as a float of p bits. */
  lemma {:induction false} Candidate(m: nat, p: nat, s: int) returns (c: nat, f: int)
    requires p >= 1 && m <= Pow2(p)
    ensures c < Pow2(p) && Float(c, f) == m as real * P2(-s)
  {
    hide P2, Pow2;
    if m < Pow2(p) {
      c, f := m, -s;
    } else {
      c, f := Pow2(p - 1), -s + 1;
      Doubling(p);
      P2Succ(-s);
      RealAssoc(c as real, 2.0, P2(-s));
      assert m as real == c as real * 2.0;
    }
  }

  lemma {:induction false} GapOf(v: real, m: real, k: real)
    requires k > 0.0
    ensures Gap(v * k, m * k) == Gap(v, m) * k
  {
    RealCancel(m, v, k);
    RealDist(v, m, k);
  }

  lemma {:induction false} Bounded(g: real, h: real, k: real, w: real)
    requires w > 0.0 && k > 0.0 && g <= h * k && h <= 0.5 && k * w == 1.0
    ensures 2.0 * g * w <= 1.0
  {
    RealCancel(g, h * k, w);
    assert g * w <= h * k * w;
    assert h * k * w == h by { RealAssoc(h, k, w); }
  }

  /** The rounded inverse, times a: within a quarter of a / b. */
  lemma {:induction false} InverseError(a: nat, b: nat, t: nat, nb: nat, p: nat, inv: real)
    requires Pow2(t) <= b < Pow2(t + 1) && a < b * Pow2(nb) && p >= nb + 2 && IsRounding(RNDN, false, p, 1.0 / b as real, inv)
    ensures Gap(a as real / b as real, a as real * inv) <= 0.25
  {
    hide Pow2, P2, IsRounding;
    var s := p + t;
    InverseFits(b, t, p);
    NearestGap(p, 1.0 / b as real, s, inv);
    // a * gap <= a / 2^(p + t + 1) and a < 2^(t + 1 + nb) <= 2^(t + p - 1)
    DividendBelow(a, b, t, nb, s);
    P2Nat(s);
    Doubling(s);
    ScaledGap(a, b as real, inv, Pow2(s), Pow2(s - 1));
  }

  lemma {:induction false} DividendBelow(a: nat, b: nat, t: nat, nb: nat, s: nat)
    requires b < Pow2(t + 1) && a < b * Pow2(nb) && s >= t + nb + 2
    ensures a < Pow2(s - 1)
  {
    hide Pow2;
    MulMono(b, Pow2(t + 1), Pow2(nb));
    Pow2Add(t + 1, nb);
    Pow2Mono(t + 1 + nb, s - 1);
  }

  lemma {:induction false} ScaledGap(a: nat, b: real, inv: real, w: nat, h: nat)
    requires b > 0.0 && 2.0 * Gap(1.0 / b, inv) * w as real <= 1.0 && w == 2 * h && a < h
    ensures Gap(a as real / b, a as real * inv) <= 0.25
  {
    GapTimes(a as real, 1.0 / b, inv);
    TimesInverse(a as real, b);
    GapNonNegative(1.0 / b, inv);
    SmallProduct(a, Gap(1.0 / b, inv), w, h);
  }

  lemma {:induction false} TimesInverse(a: real, b: real)
    requires b > 0.0
    ensures a * (1.0 / b) == a / b
  {
  }

  lemma {:induction false} GapNonNegative(x: real, y: real)
    ensures Gap(x, y) >= 0.0
  {
  }

  lemma {:induction false} P2Nat(s: nat)
    ensures P2(s) == Pow2(s) as real
  {
  }

  lemma {:induction false} Doubling(s: nat)
    requires s >= 1
    ensures Pow2(s) == 2 * Pow2(s - 1)
  {
  }

  lemma {:induction false} InverseFits(b: nat, t: nat, p: nat)
    requires b >= Pow2(t)
    ensures 1.0 / b as real >= 0.0 && 1.0 / b as real * P2(p + t) < Pow2(p) as real + 0.5
  {
    hide Pow2;
    Pow2Add(p, t);
    P2Nat(p + t);
    hide P2;
    MulMono(Pow2(t), b, Pow2(p));
    QuotientAtMost(Pow2(p + t) as real, b as real, Pow2(p) as real);
  }

  lemma {:induction false} QuotientAtMost(w: real, b: real, c: real)
    requires b > 0.0 && w <= c * b
    ensures 1.0 / b * w <= c
  {
    var q := 1.0 / b * w;
    assert q * b == w by { RealAssoc(1.0 / b, w, b); assert 1.0 / b * b == 1.0; }
    RealCancel(q, c, b);
  }

  lemma {:induction false} GapTimes(a: real, x: real, y: real)
    requires a >= 0.0
    ensures Gap(a * x, a * y) == a * Gap(x, y)
  {
    if a > 0.0 {
      RealCancel(y, x, a);
      RealDist(x, y, a);
    }
  }

  lemma {:induction false} SmallProduct(a: nat, g: real, w: nat, h: nat)
    requires g >= 0.0 && 2.0 * g * w as real <= 1.0 && w == 2 * h && a < h
    ensures a as real * g <= 0.25
  {
    RealCancel(a as real, h as real, if g > 0.0 then g else 1.0);
    assert h as real * g * 4.0 == 2.0 * g * w as real;
  }

  /** Truncating a number within 3/4 of a / b: the quotient, or one off. */
  lemma {:induction false} TruncatedNear(a: nat, b: nat, q: nat, r: nat, y: real)
    requires b >= 1 && a == q * b + r && r < b && Gap(a as real / b as real, y) <= 0.75 && y >= 0.0
    ensures q - 1 <= y.Floor <= q + 1
  {
    hide Gap;
    QuotientBetween(a, b, q, r);
    FloorNear(a as real / b as real, q, y);
  }

  lemma {:induction false} QuotientBetween(a: nat, b: nat, q: nat, r: nat)
    requires b >= 1 && a == q * b + r && r < b
    ensures q as real <= a as real / b as real < q as real + 1.0
  {
    Fraction(a, q, r, b, r as real / b as real);
  }

  lemma {:induction false} FloorNear(x: real, q: nat, y: real)
    requires q as real <= x < q as real + 1.0 && Gap(x, y) <= 0.75 && y >= 0.0
    ensures q - 1 <= y.Floor <= q + 1
  {
  }

  /**
  With the precisions of the source, nb bits for the quotient and at least nb + 2 bits for the inverse, the
  truncated product of a and the inverse of b is the quotient or one off.
  */
  lemma {:induction false} EstimateNear(a: nat, b: nat, t: nat, nb: nat, p: nat, inv: real, y: real, q: nat, r: nat)
    requires nb >= 1 && Pow2(t) <= b < Pow2(t + 1) && a < b * Pow2(nb) && p >= nb + 2 && a == q * b + r && r < b
    requires IsRounding(RNDN, false, p, 1.0 / b as real, inv) && Nearest(nb, a as real * inv, y)
    ensures q - 1 <= y.Floor <= q + 1
  {
    hide Pow2, P2, IsRounding;
    RoundingNonNegative(p, 1.0 / b as real, inv);
    InverseError(a, b, t, nb, p, inv);
    var x, v := a as real / b as real, a as real * inv;
    BelowPower(a, b, nb);
    if v != 0.0 {
      P2Nat(0);
      OnePow();
      RoundingNonNegative(nb, v, y);
      NonNegativeProduct(a as real, inv);
      NearestGap(nb, v, 0, y);
    }
    TruncatedNear(a, b, q, r, y);
  }

  lemma {:induction false} RoundingNonNegative(p: nat, x: real, y: real)
    requires p >= 1 && IsRounding(RNDN, false, p, x, y)
    ensures y >= 0.0
  {
    hide P2, Pow2, Best;
    var u: nat, e: int :| Correct(RNDN, false, p, x, u, e) && y == Float(u, e);
    NonNegative(u as real, P2(e));
  }

  lemma {:induction false} NonNegativeProduct(x: real, y: real)
    requires x >= 0.0 && y >= 0.0
    ensures x * y >= 0.0
  {
  }

  /** bf_mul to nearest, an exact zero included. */
  ghost predicate Nearest(p: nat, x: real, y: real)
    requires p >= 1
  {
    if x == 0.0 then y == 0.0 else IsRounding(RNDN, false, p, x, y)
  }

  /** The upper part of a node is at most one digit longer than the lower one. */
  lemma {:induction false} SplitSizes(n: nat, n0: nat, level: nat)
    requires Node(n, n0, level) && n >= 2
    ensures n - LowerLength(n0, level) <= LowerLength(n0, level) + 1
  {
    assert Shr(n0 * 2, level + 1) == Shr(n0, level);
  }

  lemma {:induction false} PowLBits(l: nat, bits: nat, k: nat)
    requires 1 <= l <= Pow2(bits)
    ensures PowL(l, k) <= Pow2(k * bits)
  {
    if k > 0 {
      PowLBits(l, bits, k - 1);
      MulDist(k - 1, 1, bits);
      Pow2Add((k - 1) * bits, bits);
      MulMono(PowL(l, k - 1), Pow2((k - 1) * bits), l);
      MulMono(l, Pow2(bits), Pow2((k - 1) * bits));
    }
  }

  lemma {:induction false} BitLength(b: nat) returns (t: nat)
    requires b >= 1
    ensures Pow2(t) <= b < Pow2(t + 1)
  {
    if b == 1 {
      t := 0;
      assert Pow2(1) == 2 * Pow2(0);
    } else {
      t := BitLength(b / 2);
      t := t + 1;
      Doubling(t);
      Doubling(t + 1);
    }
  }

  /** At every node of the recursion the estimate is the quotient or one off: at most one correction. */
  lemma {:induction false} OneCorrection(a: nat, l: nat, bits: nat, n: nat, n0: nat, level: nat, inv: real, y: real, q: nat, r: nat)
    requires 2 <= l <= Pow2(bits) && bits >= 1 && n >= 3 && Node(n, n0, level) && a < PowL(l, n)
    requires var n2 := LowerLength(n0, level);
             n2 < n && a == q * PowL(l, n2) + r && r < PowL(l, n2) &&
             IsRounding(RNDN, false, (n2 + 1) * bits + 2, 1.0 / PowL(l, n2) as real, inv) &&
             (n - n2) * bits >= 1 && Nearest((n - n2) * bits, a as real * inv, y)
    ensures q - 1 <= y.Floor <= q + 1
  {
    hide Pow2, IsRounding, Node, PowL, LowerLength, Nearest;
    var n2 := LowerLength(n0, level);
    var n1 := n - n2;
    var b, nb := PowL(l, n2), n1 * bits;
    SplitSizes(n, n0, level);
    MulMono(n1, n2 + 1, bits);
    PowLAdd(l, n1, n2);
    PowLBits(l, bits, n1);
    MulMono(PowL(l, n1), Pow2(nb), b);
    var t := BitLength(b);
    EstimateNear(a, b, t, nb, (n2 + 1) * bits + 2, inv, y, q, r);
  }

  lemma {:induction false} OnePow()
    ensures Pow2(0) == 1
  {
  }

  lemma {:induction false} BelowPower(a: nat, b: nat, nb: nat)
    requires b >= 1 && a < b * Pow2(nb)
    ensures a as real / b as real < Pow2(nb) as real
  {
    hide Pow2;
    var x := a as real / b as real;
    assert x * b as real == a as real;
    RealCancel(Pow2(nb) as real, x, b as real);
  }
}
