/**
Division of one double word by a normalized word through its precomputed inverse. The word size
w is a parameter: it is the radix for binary limbs, and larger than the radix for decimal ones.
*/
module LimbDivision {
  import opened Arith
  import opened Limbs
  import opened LimbOps

  /** dInv = floor((w^2 - 1) / d) - w */
  ghost predicate IsInverse(d: nat, dInv: nat, w: nat) {
    (dInv + w) * d < w * w <= (dInv + w + 1) * d
  }

  /** Addition of two words, wrapping around at w. */
  function WordAdd(x: nat, y: nat, w: nat): nat {
    if x + y < w then x + y else x + y - w
  }

  /** The inverse of a normalized divisor. */
  method Udiv1NormInit(d: nat, w: nat) returns (dInv: nat)
    requires d < w <= 2 * d
    ensures dInv < w && IsInverse(d, dInv, w)
  {
    var a1, a0 := w - d - 1, w - 1;
    MulDist(w - d, 1, w);
    MulMono(d + 1, w, w);
    var q, r := DivRem(a1 * w + a0, d);
    InverseBound(d, q, r, w);
    dInv := q;
  }

  lemma InverseBound(d: nat, q: nat, r: nat, b: nat)
    requires d < b <= 2 * d && (b - d - 1) * b + (b - 1) == q * d + r && r < d
    ensures (q + b) * d < b * b <= (q + b + 1) * d && q < b
  {
    MulDist(b - d, 1, b);
    MulDist(b, d, b);
    MulDist(q, b, d);
    MulDist(q + b, 1, d);
    if q >= b {
      MulMono(2 * b, q + b, d);
      MulMono(b, 2 * d, b);
    }
  }

  /** The estimate q1 computed from the inverse is the quotient or one less. */
  lemma EstimateBounds(a1: nat, a0: nat, d: nat, m: nat, x: int, q1: int, b: nat, hb: nat)
    requires a1 < d < b <= 2 * d && a0 < b
    requires m * d < b * b <= (m + 1) * d
    requires hb == (if 2 * a0 >= b then 1 else 0)
    requires x == m * (a1 + hb) + a0 + hb * (d - 2 * b)
    requires q1 * b <= x < (q1 + 1) * b
    ensures q1 * d <= a1 * b + a0 < (q1 + 2) * d
  {
    var e := b * b - 1 - m * d;
    MulDist(m, 1, d);
    assert 0 <= e < d;
    GapFormula(a1, a0, d, m, x, e, b, hb);
    GapBounds(a1, a0, d, e, b, hb);
    ScaleBounds(q1, x, a1 * b + a0, b, d);
  }

  /** How far x*d falls short of the dividend scaled by b. */
  ghost function Gap(a1: int, a0: int, d: int, e: int, b: int, hb: int): int {
    (1 + e) * (a1 + hb) + (b - d) * (a0 - hb * (b - d))
  }

  lemma GapFormula(a1: int, a0: int, d: int, m: int, x: int, e: int, b: int, hb: int)
    requires m * d == b * b - 1 - e && (hb == 0 || hb == 1)
    requires x == m * (a1 + hb) + a0 + hb * (d - 2 * b)
    ensures (a1 * b + a0) * b - x * d == Gap(a1, a0, d, e, b, hb)
  {
    var c := a1 + hb;
    GapLeft(a0, d, m, x, e, b, hb, c);
    GapRight(a1, a0, b, hb);
    if hb == 1 {
      GapSquare(a0, b, d);
    }
  }

  lemma GapLeft(a0: int, d: int, m: int, x: int, e: int, b: int, hb: int, c: int)
    requires m * d == b * b - 1 - e && (hb == 0 || hb == 1)
    requires x == m * c + a0 + hb * (d - 2 * b)
    ensures x * d == b * b * c - (1 + e) * c + a0 * d + (if hb == 1 then d * d - 2 * (b * d) else 0)
  {
    MulDist(m * c + a0, hb * (d - 2 * b), d);
    MulDist(m * c, a0, d);
    MulAssoc(m, c, d);
    MulAssoc(m, d, c);
    MulDist(b * b, 1 + e, c);
    MulDist(d, 2 * b, d);
    MulAssoc(2, b, d);
  }

  lemma GapRight(a1: int, a0: int, b: int, hb: int)
    requires hb == 0 || hb == 1
    ensures (a1 * b + a0) * b == b * b * (a1 + hb) - (if hb == 1 then b * b else 0) + a0 * b
  {
    MulDist(a1 * b, a0, b);
    MulAssoc(a1, b, b);
    MulDist(a1, hb, b * b);
  }

  lemma GapSquare(a0: int, b: int, d: int)
    ensures (b - d) * (a0 - 1 * (b - d)) == a0 * b - a0 * d - b * b + 2 * (b * d) - d * d
  {
    MulDist(a0, b - d, b - d);
    MulDist(b, d, a0);
    MulDist(b, d, b - d);
    MulDist(b, d, b);
    MulDist(b, d, d);
  }

  lemma GapBounds(a1: nat, a0: nat, d: nat, e: nat, b: nat, hb: nat)
    requires a1 < d < b <= 2 * d && a0 < b && e < d
    requires hb == (if 2 * a0 >= b then 1 else 0)
    ensures 0 <= Gap(a1, a0, d, e, b, hb) < (b + 1) * d
  {
    ProductBounds(1 + e, a1 + hb, d, d - 1 + hb);
    assert hb * (b - d) <= a0 && a0 - hb * (b - d) <= d - hb;
    ProductBounds(b - d, a0 - hb * (b - d), b - d, d - hb);
    GapSum(b, d);
  }

  lemma ProductBounds(x: int, y: int, u: int, v: int)
    requires 0 <= x <= u && 0 <= y <= v
    ensures 0 <= x * y <= u * v
  {
    MulMono(x, u, y);
    MulMono(y, v, u);
    MulMono(0, x, y);
  }

  lemma GapSum(b: int, d: int)
    ensures d * (d - 1) + (b - d) * d == b * d - d
    ensures d * d + (b - d) * (d - 1) == b * d - b + d
    ensures (b + 1) * d == b * d + d
  {
    MulDist(b, d, d);
    MulDist(d, 1, d);
    MulDist(b, d, d - 1);
    MulDist(d, 1, b);
  }

  lemma ScaleBounds(q1: int, x: int, n: int, b: nat, d: nat)
    requires q1 * b <= x < (q1 + 1) * b && b > 0 && d > 0
    requires 0 <= n * b - x * d < (b + 1) * d
    ensures q1 * d <= n < (q1 + 2) * d
  {
    MulMono(q1 * b, x, d);
    MulMono(x + 1, (q1 + 1) * b, d);
    MulAssoc(q1, b, d);
    MulAssoc(q1, d, b);
    MulAssoc(q1 + 1, b, d);
    MulAssoc(q1 + 2, d, b);
    MulDist(x, 1, d);
    MulDist(b, 1, d);
    MulDist(q1 + 1, 1, b * d);
    if n < q1 * d {
      MulStrict(n, q1 * d, b);
    }
    if (q1 + 2) * d <= n {
      MulMono((q1 + 2) * d, n, b);
    }
  }

  /** q is the quotient of n by d, or one less; the larger value is still a word when it is the quotient. */
  ghost predicate QuotientNear(q: nat, n: nat, d: nat, w: nat) {
    q * d <= n < (q + 2) * d && ((q + 1) * d <= n ==> q + 1 < w)
  }

  /** The quotient estimate of `Udiv1Norm`: at most one too small, never too large. */
  method UdivEstimate(a1: nat, a0: nat, d: nat, dInv: nat, w: nat, ghost n: nat) returns (q: nat)
    requires a1 < d < w <= 2 * d && a0 < w && IsInverse(d, dInv, w) && n == a1 * w + a0
    ensures q < w && QuotientNear(q, n, d, w)
  {
    hide IsInverse, QuotientNear;
    var hb := if 2 * a0 >= w then 1 else 0;
    var nAdj := WordAdd(a0, if hb == 1 then d else 0, w);
    var prod: nat := dInv * (a1 + hb);
    var hi, lo := DivRem(prod + nAdj, w);
    EstimateIsClose(a1, a0, d, dInv, nAdj, hb, hi, lo, prod, w);
    q := hi + a1;
  }

  /** Quotient and remainder of a1 * w + a0 by a normalized d, through its inverse. */
  method Udiv1Norm(a1: nat, a0: nat, d: nat, dInv: nat, w: nat) returns (q: nat, r: nat)
    requires a1 < d < w <= 2 * d && a0 < w && IsInverse(d, dInv, w)
    ensures a1 * w + a0 == q * d + r && r < d && q < w
  {
    hide IsInverse, QuotientNear;
    var n: nat := a1 * w + a0;
    var q1 := UdivEstimate(a1, a0, d, dInv, w, n);
    q, r := UdivCorrect(n, q1, d, w);
  }

  /** The final correction: the high word of n - (q1 + 1)*d tells which of the two quotients is right. */
  method UdivCorrect(n: nat, q1: nat, d: nat, w: nat) returns (q: nat, r: nat)
    requires q1 < w && d < w && QuotientNear(q1, n, d, w)
    ensures n == q * d + r && r < d && q < w
  {
    hide QuotientNear;
    NearDifference(n, q1, d, w);
    var t: int := n - q1 * d - d;
    var ah, al := DivRem(if t >= 0 then t else t + w * w, w);
    HighWord(t, d, w, ah, al);
    CorrectedQuotient(n, q1, d, t);
    q := WordAdd(WordAdd(q1, 1, w), ah, w);
    r := WordAdd(al, if ah == 0 then 0 else d, w);
    assert q == (if t >= 0 then q1 + 1 else q1) && r == (if t >= 0 then t else t + d);
  }

  lemma CorrectedQuotient(n: nat, q1: nat, d: nat, t: int)
    requires t == n - q1 * d - d
    ensures n == (q1 + 1) * d + t == q1 * d + (t + d)
  {
    MulDist(q1, 1, d);
  }

  lemma NearDifference(n: nat, q1: nat, d: nat, w: nat)
    requires QuotientNear(q1, n, d, w)
    ensures 0 - d <= n - q1 * d - d < d
    ensures n - q1 * d - d >= 0 ==> q1 + 1 < w
    ensures (q1 + 1) * d == q1 * d + d
  {
    MulDist(q1, 1, d);
    MulDist(q1, 2, d);
  }

  lemma DoubleLimbBound(a1: nat, a0: nat, d: nat, b: nat)
    requires a1 < d && a0 < b
    ensures a1 * b + a0 < d * b
  {
    MulMono(a1 + 1, d, b);
    MulDist(a1, 1, b);
  }

  lemma EstimateIsClose(a1: nat, a0: nat, d: nat, dInv: nat, nAdj: nat, hb: nat, hi: nat, lo: nat, prod: nat, w: nat)
    requires a1 < d < w <= 2 * d && a0 < w && IsInverse(d, dInv, w)
    requires hb == (if 2 * a0 >= w then 1 else 0) && nAdj == (if hb == 1 then a0 + d - w else a0)
    requires prod == dInv * (a1 + hb) && prod + nAdj == hi * w + lo && lo < w
    ensures QuotientNear(hi + a1, a1 * w + a0, d, w) && hi + a1 < w
  {
    EstimateNear(a1, a0, d, dInv, nAdj, hb, hi, lo, w);
  }

  lemma EstimateNear(a1: nat, a0: nat, d: nat, dInv: nat, nAdj: nat, hb: nat, hi: nat, lo: nat, b: nat)
    requires a1 < d < b <= 2 * d && a0 < b
    requires (dInv + b) * d < b * b <= (dInv + b + 1) * d
    requires hb == (if 2 * a0 >= b then 1 else 0) && nAdj == (if hb == 1 then a0 + d - b else a0)
    requires dInv * (a1 + hb) + nAdj == hi * b + lo && lo < b
    ensures (hi + a1) * d <= a1 * b + a0 < (hi + a1 + 2) * d
    ensures hi + a1 < b
    ensures (hi + a1 + 1) * d <= a1 * b + a0 ==> hi + a1 + 1 < b
  {
    var x := (dInv + b) * (a1 + hb) + a0 + hb * (d - 2 * b);
    EstimateWord(a1, d, dInv, nAdj, a0, hb, hi, lo, x, b);
    EstimateBounds(a1, a0, d, dInv + b, x, hi + a1, b, hb);
    DoubleLimbBound(a1, a0, d, b);
    QuotientLimb(hi + a1, a1 * b + a0, d, b);
  }

  lemma EstimateWord(a1: nat, d: nat, dInv: nat, nAdj: nat, a0: nat, hb: nat, hi: nat, lo: nat, x: int, b: nat)
    requires hb <= 1 && nAdj == a0 + hb * (d - b)
    requires dInv * (a1 + hb) + nAdj == hi * b + lo && lo < b
    requires x == (dInv + b) * (a1 + hb) + a0 + hb * (d - 2 * b)
    ensures (hi + a1) * b <= x < (hi + a1 + 1) * b
  {
    MulDist(dInv, b, a1 + hb);
    MulDist(a1, hb, b);
    MulDist(hi, a1, b);
    MulDist(hi + a1, 1, b);
  }

  lemma QuotientLimb(q: nat, n: nat, d: nat, b: nat)
    requires q * d <= n < d * b
    ensures q < b
    ensures (q + 1) * d <= n ==> q + 1 < b
  {
    if q >= b {
      MulMono(b, q, d);
    }
    if q + 1 >= b {
      MulMono(b, q + 1, d);
    }
  }

  /** A difference within one divisor of zero has high limb 0 or B - 1. */
  lemma HighWord(t: int, d: nat, b: nat, ah: nat, al: nat)
    requires 0 - d <= t < d < b
    requires (if t >= 0 then t else t + b * b) == ah * b + al && al < b
    ensures t >= 0 ==> ah == 0 && al == t
    ensures t < 0 ==> ah == b - 1 && al == t + b
  {
    if t >= 0 {
      DivUnique(ah, al, 0, t, b);
    } else {
      MulDist(b, 1, b);
      DivUnique(ah, al, b - 1, t + b, b);
    }
  }
}
