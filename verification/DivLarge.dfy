/** Subquadratic division: multiply by an approximate inverse from below, then correct upwards. */
module LargeDivision {
  import opened Arith
  import opened Limbs
  import opened LimbOps
  import opened LimbDivision
  import opened VectorDivision
  import opened Reciprocal

  /**
  The divisor is cut (rounding up) or padded to `t` of n limbs: scaled to a common length
  the two differ by less than one unit of the cut.
  */
  ghost predicate ScaledUp(t: nat, b: nat, pn: nat, pb: nat) {
    0 <= t * pb - b * pn <= pb
  }

  /** An inverse of `t` from below. */
  ghost predicate InverseBelow(t: nat, x: nat, pn: nat) {
    t * x <= pn * pn < t * (x + 2)
  }

  /**
  The estimated quotient q never exceeds the true one, and the remainder it leaves is less
  than twelve divisors.
  */
  lemma {:induction false} EstimateBelow(a: nat, b: nat, t: nat, x: nat, ah: nat, a0: nat, q: nat, z: nat,
                                         pn: nat, pb: nat, g: nat, w: nat)
    requires ScaledUp(t, b, pn, pb) && InverseBelow(t, x, pn) && pn <= 2 * t && pb <= 2 * b && 0 < pn && 0 < pb
    requires a == ah * g + a0 && a0 < g && x * ah == q * w + z && z < w
    requires g * w == pb * pn && a < pb * pn && 16 * g <= pb
    ensures q * b <= a < q * b + 12 * b
  {
    var e := pb * pn - b * x;
    InverseGap(b, t, x, pn, pb);
    Residue(a, b, x, ah, a0, q, z, g, w, e);
    ResidueBound(a, b, x, a0, z, pn, pb, g, w, e);
    MulMono(0, e, a);
    MulMono(0, x * a0, b);
    MulMono(0, z * g, b);
    assert 0 <= (a - q * b) * (g * w) < (12 * b) * (g * w);
    if a - q * b < 0 {
      MulMono(a - q * b, -1, g * w);
    }
    MulCancel(a - q * b, 12 * b, g * w);
  }

  lemma InverseGap(b: nat, t: nat, x: nat, pn: nat, pb: nat)
    requires ScaledUp(t, b, pn, pb) && InverseBelow(t, x, pn) && pn <= 2 * t && pb <= 2 * b && 0 < pn && 0 < pb
    ensures x <= 2 * pn && 0 <= pb * pn - b * x <= 10 * b
  {
    assert x <= 2 * pn by {
      if x > 2 * pn {
        MulMono(2 * pn + 1, x, t);
        BaseQuotientArith(pn, t);
      }
    }
    assert b * x <= pb * pn by {
      GapLow(b, t, x, pn, pb);
    }
    assert pb * pn - b * x <= 10 * b by {
      GapHigh(b, t, x, pn, pb);
    }
  }

  lemma GapLow(b: nat, t: nat, x: nat, pn: nat, pb: nat)
    requires b * pn <= t * pb && t * x <= pn * pn && 0 < pn
    ensures b * x <= pb * pn
  {
    MulMono(b * pn, t * pb, x);
    MulMono(t * x, pn * pn, pb);
    MulAssoc(b, pn, x);
    MulAssoc(b, x, pn);
    MulAssoc(t, pb, x);
    MulAssoc(t, x, pb);
    MulAssoc(pn, pn, pb);
    if b * x > pb * pn {
      MulStrict(pb * pn, b * x, pn);
    }
  }

  lemma GapHigh(b: nat, t: nat, x: nat, pn: nat, pb: nat)
    requires t * pb <= b * pn + pb && pn * pn < t * (x + 2) && x <= 2 * pn && pb <= 2 * b && 0 < pn
    ensures pb * pn - b * x <= 10 * b
  {
    var y := x + 2;
    GapHigh1(b, t, y, pn, pb);
    GapHigh2(b, y, pn, pb);
    MulDist(b * y, 8 * b, pn);
    if pb * pn > b * y + 8 * b {
      MulStrict(b * y + 8 * b, pb * pn, pn);
    }
    MulDist(x, 2, b);
  }

  lemma GapHigh1(b: nat, t: nat, y: nat, pn: nat, pb: nat)
    requires t * pb <= b * pn + pb && pn * pn <= t * y
    ensures (pb * pn) * pn <= (b * pn + pb) * y
  {
    MulMono(pn * pn, t * y, pb);
    MulMono(t * pb, b * pn + pb, y);
    MulAssoc(t, y, pb);
    MulAssoc(t, pb, y);
    MulAssoc(pb, pn, pn);
  }

  lemma GapHigh2(b: nat, y: nat, pn: nat, pb: nat)
    requires y <= 4 * pn && pb <= 2 * b
    ensures (b * pn + pb) * y <= (b * y) * pn + (8 * b) * pn
  {
    MulDist(b * pn, pb, y);
    ProductBounds(pb, y, 2 * b, 4 * pn);
    MulAssoc(b, pn, y);
    MulAssoc(b, y, pn);
    MulAssoc(2 * b, 4, pn);
  }

  lemma Residue(a: int, b: int, x: int, ah: int, a0: int, q: int, z: int, g: int, w: int, e: int)
    requires a == ah * g + a0 && x * ah == q * w + z && e == g * w - b * x
    ensures (a - q * b) * (g * w) == a * e + b * (x * a0) + b * (z * g)
  {
    calc {
      q * (g * w);
      { MulAssoc(q, w, g); MulDist(x * ah, z, g); }
      (x * ah) * g - z * g;
      { MulAssoc(x, ah, g); MulDist(a, a0, x); }
      x * a - x * a0 - z * g;
    }
    MulDist(a, q * b, g * w);
    MulAssoc(b, q, g * w);
    MulDist(x * a - x * a0, z * g, b);
    MulDist(x * a, x * a0, b);
    MulDist(g * w, b * x, a);
    MulAssoc(b, x, a);
  }

  lemma ResidueBound(a: nat, b: nat, x: nat, a0: nat, z: nat, pn: nat, pb: nat, g: nat, w: nat, e: nat)
    requires a < pb * pn == g * w && x <= 2 * pn && e <= 10 * b && a0 < g && z < w && 16 * g <= pb && 0 < b
    ensures a * e + b * (x * a0) + b * (z * g) < (12 * b) * (g * w)
  {
    var m := g * w;
    ProductBounds(a, e, m, 10 * b);
    ProductBounds(x, a0, 2 * pn, g);
    assert (2 * pn) * g <= m by {
      MulMono(2 * g, pb, pn);
      MulAssoc(2, g, pn);
      MulAssoc(2, pn, g);
    }
    MulMono(x * a0, m, b);
    assert b * (z * g) < b * m by {
      MulStrict(z, w, g);
      MulStrict(z * g, m, b);
    }
    MulAssoc(10, b, m);
    MulAssoc(12, b, m);
  }

  /** Two numbers that agree modulo B^m and are both below it are equal. */
  lemma {:induction false} LowDifference(s: seq<Limb>, t: seq<Limb>, r: seq<Limb>, k: int)
    requires |r| <= |s| && |r| <= |t| && 0 <= Val(s) - Val(t) < Pow(|r|)
    requires Val(r) - k * Pow(|r|) == Val(s[..|r|]) - Val(t[..|r|]) - 0
    ensures Val(r) == Val(s) - Val(t)
  {
    hide Val, Pow;
    var p := Pow(|r|);
    ValSplit(s, |r|);
    ValSplit(t, |r|);
    ValBound(r);
    var m := Val(s[|r|..]) - Val(t[|r|..]) - k;
    MulDist(Val(s[|r|..]) - Val(t[|r|..]), k, p);
    MulDist(Val(s[|r|..]), Val(t[|r|..]), p);
    DivUnique(m, Val(r), 0, Val(s) - Val(t), p);
  }

  /** tabt[0..n] = the divisor padded or cut to n limbs, rounded up; returns whether that is B^n. */
  method ScaleDivisor(tabt: array<Limb>, n: nat, tabb: array<Limb>, bo: nat, nb: nat) returns (full: bool)
    requires tabt != tabb && 1 <= n <= tabt.Length && 1 <= nb && bo + nb <= tabb.Length
    requires Normalized(tabb[bo..bo + nb])
    modifies tabt
    ensures !full ==> Normalized(tabt[0..n])
    ensures ScaledUp(if full then Pow(n) else Val(tabt[0..n]), Val(tabb[bo..bo + nb]), Pow(n), Pow(nb))
  {
    hide Val, Pow, ScaledUp;
    ghost var b := tabb[bo..bo + nb];
    if n >= nb {
      ClearLimbs(tabt, 0, n - nb);
      ghost var lo := tabt[0..n - nb];
      CopyLimbs(tabt, n - nb, tabb, bo, nb);
      assert tabt[0..n] == lo + b && tabt[0..n - nb] == lo;
      PadScaled(lo, b);
      full := false;
    } else {
      CopyLimbs(tabt, 0, tabb, bo + nb - n, n);
      ghost var hi := tabt[0..n];
      assert hi == b[nb - n..];
      var k := MpAddUi(tabt, 0, 1, n);
      full := k != 0;
      CutScaled(b, nb - n, tabt[0..n], k);
    }
  }

  lemma {:induction false} PadScaled(lo: seq<Limb>, b: seq<Limb>)
    requires Val(lo) == 0
    ensures ScaledUp(Val(lo + b), Val(b), Pow(|lo| + |b|), Pow(|b|))
  {
    hide Val, Pow;
    ValConcat(lo, b);
    PowAdd(|lo|, |b|);
    MulAssoc(Pow(|lo|), Val(b), Pow(|b|));
    MulAssoc(Pow(|lo|), Pow(|b|), Val(b));
  }

  lemma {:induction false} CutScaled(b: seq<Limb>, i: nat, t: seq<Limb>, k: Limb)
    requires Normalized(b) && i < |b| && |t| == |b| - i && k <= 1
    requires Val(t) + k * Pow(|t|) == Val(b[i..]) + 1
    ensures k != 0 ==> ScaledUp(Pow(|t|), Val(b), Pow(|t|), Pow(|b|))
    ensures k == 0 ==> Normalized(t) && ScaledUp(Val(t), Val(b), Pow(|t|), Pow(|b|))
  {
    hide Val, Pow;
    ValSplit(b, i);
    ValBound(b[..i]);
    ValBound(b[i..]);
    PowAdd(i, |t|);
    CutArith(Val(b[..i]), Val(b[i..]), Val(b), Pow(i), Pow(|t|));
    if k == 0 {
      TopGrows(b[i..], t);
    }
  }

  lemma CutArith(b0: nat, b1: nat, b: nat, pi: nat, pn: nat)
    requires b == b0 + pi * b1 && b0 < pi
    ensures ScaledUp(b1 + 1, b, pn, pi * pn)
  {
    var y := pi - b0;
    calc {
      (b1 + 1) * (pi * pn) - b * pn;
      { MulAssoc(b1 + 1, pi, pn); MulDist((b1 + 1) * pi, b, pn); }
      ((b1 + 1) * pi - b) * pn;
      { MulDist(b1, 1, pi); }
      y * pn;
    }
    MulMono(y, pi, pn);
    MulMono(0, y, pn);
  }

  lemma {:induction false} TopGrows(s: seq<Limb>, t: seq<Limb>)
    requires |s| == |t| && Normalized(s) && Val(t) >= Val(s)
    ensures Normalized(t)
  {
    var n := |s| - 1;
    ValBound(t[..n]);
    if t[n] < s[n] {
      MulMono(t[n] + 1, s[n], Pow(n));
      MulDist(t[n], 1, Pow(n));
    }
  }

  /** tabx = the inverse of the divisor scaled to n limbs; tabt is scratch. */
  method InvertDivisor(tabx: array<Limb>, tabt: array<Limb>, n: nat, tabb: array<Limb>, bo: nat, nb: nat)
    returns (ghost t: nat)
    requires tabx != tabt && tabx != tabb && tabt != tabb && 1 <= n < tabx.Length && n <= tabt.Length
    requires 1 <= nb && bo + nb <= tabb.Length && Normalized(tabb[bo..bo + nb])
    modifies tabx, tabt
    ensures ScaledUp(t, Val(tabb[bo..bo + nb]), Pow(n), Pow(nb)) && Pow(n) <= 2 * t
    ensures InverseBelow(t, Val(tabx[0..n + 1]), Pow(n))
  {
    hide Val, Pow, ScaledUp, InverseBelow, IsRecip;
    var full := ScaleDivisor(tabt, n, tabb, bo, nb);
    t := if full then Pow(n) else Val(tabt[0..n]);
    if full {
      ClearLimbs(tabx, 0, n);
      tabx[n] := 1;
      assert tabx[0..n + 1][..n] == tabx[0..n];
      UnitVector(tabx[0..n + 1]);
      UnitInverse(n);
    } else {
      MpRecip(tabx, 0, tabt, 0, n);
      RecipIsInverse(tabt[0..n], Val(tabx[0..n + 1]));
    }
  }

  /** The quotient estimate: the top limbs of the dividend times the inverse of the scaled divisor. */
  method EstimateQuotient(tabq: array<Limb>, qo: nat, taba: array<Limb>, ao: nat, na: nat,
                          tabb: array<Limb>, bo: nat, nb: nat)
    requires tabq != taba && tabq != tabb && taba != tabb && 1 <= nb < na
    requires qo + (na - nb) + 1 <= tabq.Length && ao + na <= taba.Length && bo + nb <= tabb.Length
    requires Normalized(tabb[bo..bo + nb])
    modifies tabq
    ensures OnlyRange(tabq, qo, na - nb + 1)
    ensures EstimateOk(Val(taba[ao..ao + na]), Val(tabq[qo..qo + (na - nb) + 1]), Val(tabb[bo..bo + nb]))
  {
    hide Val, Pow, ScaledUp, InverseBelow, IsRecip, IsProduct, EstimateOk;
    ghost var a, b := taba[ao..ao + na], tabb[bo..bo + nb];
    var nq := na - nb;
    var n := if nq < nb then nq + 1 else nq;
    var tabx, tabt := new Limb[n + 1], new Limb[2 * (n + 1)];
    ghost var t := InvertDivisor(tabx, tabt, n, tabb, bo, nb);
    MpMulBasecase(tabt, 0, tabx, 0, n + 1, taba, ao + na - (n + 1), n + 1);
    ghost var x, p := tabx[0..n + 1], tabt[0..n + 1 + (n + 1)];
    assert a[na - (n + 1)..] == taba[ao + na - (n + 1)..ao + na - (n + 1) + (n + 1)];
    CopyLimbs(tabq, qo, tabt, 2 * (n + 1) - (nq + 1), nq + 1);
    assert p[2 * (n + 1) - (nq + 1)..] == tabq[qo..qo + nq + 1];
    EstimateVectors(a, b, n, t, x, p);
  }

  /** The estimate does not exceed the quotient and misses it by less than twelve. */
  ghost predicate EstimateOk(a: nat, q: nat, b: nat) {
    q * b <= a < q * b + 12 * b
  }

  lemma {:induction false} UnitInverse(n: nat)
    ensures InverseBelow(Pow(n), Pow(n), Pow(n)) && Pow(n) <= 2 * Pow(n)
  {
    hide Pow;
    MulDist(Pow(n), 2, Pow(n));
  }

  lemma {:induction false} RecipIsInverse(t: seq<Limb>, x: nat)
    requires Normalized(t) && IsRecip(Val(t), x, |t|)
    ensures InverseBelow(Val(t), x, Pow(|t|)) && Pow(|t|) <= 2 * Val(t)
  {
    hide Val, Pow;
    PowAdd(|t|, |t|);
    NormalizedBound(t);
  }

  lemma {:induction false} EstimateVectors(a: seq<Limb>, b: seq<Limb>, n: nat, t: nat, x: seq<Limb>, p: seq<Limb>)
    requires Normalized(b) && |b| < |a| && |x| == n + 1 && |p| == n + 1 + (n + 1)
    requires var nq := |a| - |b|; n == if nq < |b| then nq + 1 else nq
    requires ScaledUp(t, Val(b), Pow(n), Pow(|b|)) && InverseBelow(t, Val(x), Pow(n)) && Pow(n) <= 2 * t
    requires IsProduct(p, x, a[|a| - (n + 1)..])
    ensures EstimateOk(Val(a), Val(p[2 * (n + 1) - (|a| - |b| + 1)..]), Val(b))
  {
    hide Val, Pow, ScaledUp, InverseBelow;
    var nb, na := |b|, |a|;
    var nq := na - nb;
    var i, j := na - (n + 1), 2 * (n + 1) - (nq + 1);
    ValSplit(a, i);
    ValBound(a[..i]);
    ValSplit(p, j);
    ValBound(p[..j]);
    PowAdd(i, j);
    PowAdd(nb, n);
    ValBound(a);
    PowMonotone(na, nb + n);
    NormalizedBound(b);
    PowTwice(i);
    PowMonotone(i + 1, nb);
    EstimateBelow(Val(a), Val(b), t, Val(x), Val(a[i..]), Val(a[..i]), Val(p[j..]), Val(p[..j]),
                  Pow(n), Pow(nb), Pow(i), Pow(j));
  }

  /** taba[0..nb] = A - B*Q on nb + 1 limbs. */
  method SubtractProduct(tabq: array<Limb>, qo: nat, nq: nat, taba: array<Limb>, ao: nat, na: nat,
                         tabb: array<Limb>, bo: nat, nb: nat)
    requires tabq != taba && taba != tabb && 1 <= nb && 1 <= nq && na == nq + nb
    requires qo + nq + 1 <= tabq.Length && ao + na <= taba.Length && bo + nb <= tabb.Length
    requires EstimateOk(Val(taba[ao..ao + na]), Val(tabq[qo..qo + nq + 1]), Val(tabb[bo..bo + nb]))
    modifies taba
    ensures OnlyRange(taba, ao, nb + 1)
    ensures old(Val(taba[ao..ao + na])) ==
            Val(tabq[qo..qo + nq + 1]) * Val(tabb[bo..bo + nb]) + Val(taba[ao..ao + nb + 1])
  {
    hide Val, Pow, IsProduct, EstimateOk;
    ghost var a, b, q := taba[ao..ao + na], tabb[bo..bo + nb], tabq[qo..qo + nq + 1];
    var tabt := new Limb[na + 1];
    MpMulBasecase(tabt, 0, tabq, qo, nq + 1, tabb, bo, nb);
    ghost var t := tabt[0..nq + 1 + nb];
    ProductValue(t, q, b);
    assert taba[ao..ao + (nb + 1)] == a[..nb + 1] && tabt[0..nb + 1] == t[..nb + 1];
    var k := MpSub(taba, ao, taba, ao, tabt, 0, nb + 1, 0);
    SmallRemainder(Val(a), Val(q), b);
    LowDifference(a, t, taba[ao..ao + (nb + 1)], k);
  }

  lemma {:induction false} SmallRemainder(a: nat, q: nat, b: seq<Limb>)
    requires EstimateOk(a, q, Val(b))
    ensures 0 <= a - q * Val(b) < Pow(|b| + 1)
  {
    hide Val, Pow;
    ValBound(b);
    PowTwice(|b|);
  }

  /** tabq = A/B and taba = A mod B by the subquadratic method. */
  method MpDivNormLarge(tabq: array<Limb>, qo: nat, taba: array<Limb>, ao: nat, na: nat,
                        tabb: array<Limb>, bo: nat, nb: nat)
    requires tabq != taba && tabq != tabb && taba != tabb && 1 <= nb < na
    requires qo + (na - nb) + 1 <= tabq.Length && ao + na <= taba.Length && bo + nb <= tabb.Length
    requires Normalized(tabb[bo..bo + nb])
    modifies tabq, taba
    ensures OnlyRange(tabq, qo, na - nb + 1) && OnlyRange(taba, ao, na)
    ensures tabq[qo + (na - nb)] <= 1
    ensures DivMod(old(Val(taba[ao..ao + na])), Val(tabq[qo..qo + (na - nb) + 1]), Val(tabb[bo..bo + nb]),
                   Val(taba[ao..ao + nb]))
  {
    hide Val, Pow, DivMod, EstimateOk;
    ghost var a, b := taba[ao..ao + na], tabb[bo..bo + nb];
    var nq := na - nb;
    EstimateQuotient(tabq, qo, taba, ao, na, tabb, bo, nb);
    SubtractProduct(tabq, qo, nq, taba, ao, na, tabb, bo, nb);
    var more := true;
    while more
      invariant tabb[bo..bo + nb] == b && OnlyRange(tabq, qo, nq + 1) && OnlyRange(taba, ao, nb + 1)
      invariant Val(a) == Val(tabq[qo..qo + nq + 1]) * Val(b) + Val(taba[ao..ao + nb + 1])
      invariant !more ==> taba[ao + nb] == 0 && Val(taba[ao..ao + nb]) < Val(b)
      decreases more, Val(taba[ao..ao + nb + 1])
    {
      if taba[ao + nb] == 0 {
        var c := MpCmp(taba, ao, tabb, bo, nb);
        more := c >= 0;
      }
      if more {
        RemainderBig(taba[ao..ao + nb], taba[ao + nb], b);
        assert taba[ao..ao + nb + 1] == taba[ao..ao + nb] + [taba[ao + nb]];
        CorrectUp(tabq, qo, nq, taba, ao, tabb, bo, nb, a);
      }
    }
    assert taba[ao..ao + nb + 1] == taba[ao..ao + nb] + [0];
    TopZero(taba[ao..ao + nb]);
    DivModIntro(Val(a), Val(tabq[qo..qo + nq + 1]), Val(b), Val(taba[ao..ao + nb]));
    QuotientTop(a, tabq[qo..qo + nq + 1], b, Val(taba[ao..ao + nb]));
  }

  lemma DivModIntro(a: nat, q: nat, b: nat, r: nat)
    requires a == q * b + r && r < b
    ensures DivMod(a, q, b, r)
  {
  }

  lemma {:induction false} RemainderBig(low: seq<Limb>, top: Limb, b: seq<Limb>)
    requires |low| == |b| && (top != 0 || Val(low) >= Val(b))
    ensures Val(low + [top]) >= Val(b)
  {
    hide Val, Pow;
    ValSnoc(low, top);
    ValBound(b);
    if top != 0 {
      MulMono(1, top, Pow(|low|));
    }
  }

  /** One upward correction: subtract the divisor, increment the quotient. */
  method CorrectUp(tabq: array<Limb>, qo: nat, nq: nat, taba: array<Limb>, ao: nat,
                   tabb: array<Limb>, bo: nat, nb: nat, ghost a: seq<Limb>)
    requires tabq != taba && tabq != tabb && taba != tabb && 1 <= nb
    requires qo + nq + 1 <= tabq.Length && ao + nb + 1 <= taba.Length && bo + nb <= tabb.Length
    requires Normalized(tabb[bo..bo + nb]) && |a| == nq + nb
    requires Val(a) == Val(tabq[qo..qo + nq + 1]) * Val(tabb[bo..bo + nb]) + Val(taba[ao..ao + nb + 1])
    requires Val(taba[ao..ao + nb + 1]) >= Val(tabb[bo..bo + nb])
    modifies tabq, taba
    ensures OnlyRange(tabq, qo, nq + 1) && OnlyRange(taba, ao, nb + 1)
    ensures Val(a) == Val(tabq[qo..qo + nq + 1]) * Val(tabb[bo..bo + nb]) + Val(taba[ao..ao + nb + 1])
    ensures Val(taba[ao..ao + nb + 1]) == old(Val(taba[ao..ao + nb + 1])) - Val(tabb[bo..bo + nb])
    ensures 0 < Val(tabb[bo..bo + nb])
  {
    hide Val, Pow;
    ghost var b, lo, hi := tabb[bo..bo + nb], taba[ao..ao + nb], taba[ao + nb];
    ghost var q := Val(tabq[qo..qo + nq + 1]);
    assert taba[ao..ao + nb + 1] == lo + [hi];
    var c := MpSub(taba, ao, taba, ao, tabb, bo, nb, 0);
    SubTop1(lo, hi, taba[ao..ao + nb], c, Val(b));
    taba[ao + nb] := taba[ao + nb] - c;
    assert taba[ao..ao + nb + 1] == taba[ao..ao + nb] + [taba[ao + nb]];
    QuotientRoom(a, q, b, nq);
    var k := MpAddUi(tabq, qo, 1, nq + 1);
    NoCarry(tabq[qo..qo + (nq + 1)], k, q + 1);
    MulDist(q, 1, Val(b));
  }

  lemma {:induction false} SubTop1(lo: seq<Limb>, hi: Limb, lo': seq<Limb>, c: int, b: nat)
    requires |lo| == |lo'| && 0 <= c <= 1 && b <= Val(lo + [hi])
    requires Val(lo') - c * Pow(|lo|) == Val(lo) - b - 0
    ensures c <= hi && Val(lo' + [hi - c]) == Val(lo + [hi]) - b
  {
    hide Val, Pow;
    ValSnoc(lo, hi);
    ValBound(lo');
    if c <= hi {
      ValSnoc(lo', hi - c);
      MulDist(hi, c, Pow(|lo|));
    }
  }

  /** There is room for one more unit in the quotient while a divisor is left. */
  lemma {:induction false} QuotientRoom(a: seq<Limb>, q: nat, b: seq<Limb>, nq: nat)
    requires Normalized(b) && |a| == nq + |b| && q * Val(b) + Val(b) <= Val(a)
    ensures q + 1 < Pow(nq + 1) && 0 < Val(b)
  {
    hide Val, Pow;
    ValBound(a);
    PowAdd(nq, |b|);
    NormalizedBound(b);
    PowTwice(nq);
    MulDist(q, 1, Val(b));
    MulMono(Pow(|b|), 2 * Val(b), Pow(nq));
    MulAssoc(2, Val(b), Pow(nq));
    MulAssoc(2, Pow(nq), Val(b));
    MulCancel(q + 1, 2 * Pow(nq), Val(b));
  }

  lemma {:induction false} NoCarry(s: seq<Limb>, k: Limb, v: nat)
    requires Val(s) + k * Pow(|s|) == v < Pow(|s|)
    ensures k == 0
  {
    if k > 0 {
      MulMono(1, k, Pow(|s|));
    }
  }

  /** tabq[0..na-nb] = taba / tabb and taba[0..nb-1] = taba mod tabb, choosing the method by size. */
  method MpDivNorm(tabq: array<Limb>, qo: nat, taba: array<Limb>, ao: nat, na: nat,
                   tabb: array<Limb>, bo: nat, nb: nat)
    requires tabq != taba && tabq != tabb && taba != tabb && 1 <= nb <= na
    requires qo + (na - nb) + 1 <= tabq.Length && ao + na <= taba.Length && bo + nb <= tabb.Length
    requires Normalized(tabb[bo..bo + nb])
    modifies tabq, taba
    ensures OnlyRange(tabq, qo, na - nb + 1) && OnlyRange(taba, ao, na)
    ensures tabq[qo + (na - nb)] <= 1
    ensures DivMod(old(Val(taba[ao..ao + na])), Val(tabq[qo..qo + (na - nb) + 1]), Val(tabb[bo..bo + nb]),
                   Val(taba[ao..ao + nb]))
  {
    if nb >= 50 && na - nb >= 50 {
      MpDivNormLarge(tabq, qo, taba, ao, na, tabb, bo, nb);
    } else {
      MpDivNormBase(tabq, qo, taba, ao, na, tabb, bo, nb);
    }
  }
}
