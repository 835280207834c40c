/** Newton reciprocal of a normalized vector, and division by multiplication with it. */
module Reciprocal {
  import opened Arith
  import opened Limbs
  import opened LimbOps
  import opened LimbDivision
  import opened VectorDivision

  /** x approximates B^(2n)/a from below, by less than two units. */
  ghost predicate IsRecip(a: nat, x: nat, n: nat) {
    a * x < Pow(2 * n) < a * (x + 2)
  }

  /**
  One Newton step (algorithm 3.5 of Modern Computer Arithmetic). With ph = B^h, pl = B^l and
  pn = B^n = pl*ph, the residue d of the high half's reciprocal xh is multiplied by xh again
  to get the l low limbs; all truncations together cost less than two units.
  */
  lemma {:induction false} NewtonStep(a: nat, xh: nat, d: int, dm: nat, d0: nat, u: nat, u0: nat,
                                      pl: nat, ph: nat, pk: nat, pn: nat)
    requires pn == pl * ph && pk * pl == ph * ph && 16 * pl <= ph && 0 < a < pn
    requires xh < 2 * ph && d == pn * ph - a * xh && 0 < d < 2 * a
    requires d == dm * pl + d0 && d0 < pl
    requires dm * xh == u * pk + u0 && u0 < pk
    ensures a * (xh * pl + u) < pn * pn < a * (xh * pl + u + 2)
  {
    var e := pn * pn - a * (xh * pl + u);
    var q := ph * ph;
    NewtonResidue(a, xh, d, dm, d0, u, u0, pl, ph, pk, pn, e);
    NewtonBound(a, xh, d, d0, u0, pl, ph, pk, pn);
    MulMono(0, d0, a * xh);
    MulMono(0, u0, a * pl);
    MulMono(1, d, d);
    assert 0 < e * q < 2 * a * q;
    MulCancel(0, e, q);
    MulCancel(e, 2 * a, q);
    MulDist(xh * pl + u, 2, a);
  }

  lemma {:induction false} NewtonResidue(a: int, xh: int, d: int, dm: int, d0: int, u: int, u0: int,
                      pl: int, ph: int, pk: int, pn: int, e: int)
    requires pn == pl * ph && pk * pl == ph * ph
    requires d == pn * ph - a * xh && d == dm * pl + d0 && dm * xh == u * pk + u0
    requires e == pn * pn - a * (xh * pl + u)
    ensures e * (ph * ph) == d * d + d0 * (a * xh) + u0 * (a * pl)
  {
    NewtonShort(a, xh, d, u, pl, ph, pn, e);
    NewtonScaled(a, xh, d, dm, d0, u, u0, pl, pk);
    var q := ph * ph;
    MulDist(d * pl, a * u, q);
    MulAssoc(d, pl, q);
    MulAssoc(pl, ph, ph);
    MulDist(pn * ph, a * xh, d);
  }

  /** Both residues in units of the result. */
  lemma {:induction false} NewtonShort(a: int, xh: int, d: int, u: int, pl: int, ph: int, pn: int, e: int)
    requires pn == pl * ph && d == pn * ph - a * xh && e == pn * pn - a * (xh * pl + u)
    ensures e == d * pl - a * u
  {
    MulAssoc(pn, ph, pl);
    MulDist(pn * ph, a * xh, pl);
    MulAssoc(a, xh, pl);
    MulDist(xh * pl, u, a);
  }

  /** The product a*u at the common scale. */
  lemma {:induction false} NewtonScaled(a: int, xh: int, d: int, dm: int, d0: int, u: int, u0: int, pl: int, pk: int)
    requires d == dm * pl + d0 && dm * xh == u * pk + u0
    ensures (a * u) * (pk * pl) == d * (a * xh) - d0 * (a * xh) - u0 * (a * pl)
  {
    var c := a * pl;
    assert (a * u) * (pk * pl) == (u * pk) * c by {
      MulAssoc(a, u, pk * pl);
      MulAssoc(u, pk, pl);
      MulAssoc(u * pk, pl, a);
    }
    assert (dm * xh) * c == (dm * pl) * (a * xh) by {
      MulAssoc(dm, xh, c);
      MulAssoc(dm, pl, a * xh);
      MulAssoc(xh, pl, a);
      MulAssoc(pl, xh, a);
    }
    MulDist(dm * xh, u0, c);
    MulDist(d, d0, a * xh);
  }

  lemma {:induction false} NewtonBound(a: nat, xh: nat, d: nat, d0: nat, u0: nat, pl: nat, ph: nat, pk: nat, pn: nat)
    requires pn == pl * ph && pk * pl == ph * ph && 16 * pl <= ph && 0 < a < pn
    requires xh < 2 * ph && 0 < d < 2 * a && d0 < pl && u0 < pk
    ensures d * d + d0 * (a * xh) + u0 * (a * pl) < 2 * a * (ph * ph)
  {
    NewtonTerm1(a, d, pn);
    NewtonTerm2(a, xh, d0, pl, ph);
    NewtonTerm3(a, u0, pl, pk);
    NewtonSlack(a, pl, ph);
    MulAssoc(pk, pl, a);
    MulAssoc(2, ph * ph, a);
  }

  lemma {:induction false} NewtonTerm1(a: nat, d: nat, pn: nat)
    requires a < pn && d < 2 * a
    ensures d * d <= (4 * pn) * a
  {
    ProductBounds(d, d, 2 * a, 2 * pn);
    MulAssoc(2, a, 2 * pn);
  }

  lemma {:induction false} NewtonTerm2(a: nat, xh: nat, d0: nat, pl: nat, ph: nat)
    requires xh < 2 * ph && d0 < pl
    ensures d0 * (a * xh) <= (2 * (pl * ph)) * a
  {
    ProductBounds(d0, xh, pl, 2 * ph);
    MulMono(d0 * xh, 2 * (pl * ph), a);
    MulAssoc(d0, xh, a);
  }

  lemma {:induction false} NewtonTerm3(a: nat, u0: nat, pl: nat, pk: nat)
    requires u0 < pk && 0 < a && 0 < pl
    ensures u0 * (a * pl) < pk * (pl * a)
  {
    MulStrict(u0, pk, a * pl);
  }

  lemma {:induction false} NewtonSlack(a: nat, pl: nat, ph: nat)
    requires 16 * pl <= ph
    ensures (6 * (pl * ph)) * a <= (ph * ph) * a
  {
    MulMono(6 * pl, ph, ph);
    MulAssoc(6, pl, ph);
    MulMono(6 * (pl * ph), ph * ph, a);
  }

  /** dst[] = src[] */
  method CopyLimbs(dst: array<Limb>, w: nat, src: array<Limb>, o: nat, n: nat)
    requires dst != src && w + n <= dst.Length && o + n <= src.Length
    modifies dst
    ensures OnlyRange(dst, w, n) && dst[w..w + n] == src[o..o + n]
  {
    for i := 0 to n
      invariant OnlyRange(dst, w, i)
      invariant dst[w..w + i] == src[o..o + i]
    {
      dst[w + i] := src[o + i];
      assert dst[w..w + i + 1] == dst[w..w + i] + [src[o + i]];
    }
  }

  /** dst[] = 0 */
  method ClearLimbs(dst: array<Limb>, w: nat, n: nat)
    requires w + n <= dst.Length
    modifies dst
    ensures OnlyRange(dst, w, n) && Val(dst[w..w + n]) == 0
    ensures forall j :: w <= j < w + n ==> dst[j] == 0
  {
    for i := 0 to n
      invariant OnlyRange(dst, w, i)
      invariant forall j :: w <= j < w + i ==> dst[j] == 0
    {
      dst[w + i] := 0;
    }
    ValZeros(dst[w..w + n]);
  }

  /** The top limb of a small number is zero. */
  lemma {:induction false} TopLimbZero(s: seq<Limb>)
    requires |s| >= 1 && Val(s) < Pow(|s| - 1)
    ensures s[|s| - 1] == 0 && Val(s[..|s| - 1]) == Val(s)
  {
    if s[|s| - 1] > 0 {
      MulMono(1, s[|s| - 1], Pow(|s| - 1));
    }
  }

  /** A reciprocal lies in [B^n, 2*B^n), so its top limb is 1. */
  lemma {:induction false} RecipTop(a: seq<Limb>, x: nat)
    requires Normalized(a) && IsRecip(Val(a), x, |a|)
    ensures Pow(|a|) <= x < 2 * Pow(|a|)
  {
    hide Val, Pow;
    ValBound(a);
    NormalizedBound(a);
    PowAdd(|a|, |a|);
    RecipTopArith(Val(a), x, Pow(|a|));
  }

  lemma {:induction false} RecipTopArith(a: nat, x: nat, p: nat)
    requires a < p <= 2 * a && a * x < p * p < a * (x + 2)
    ensures p <= x < 2 * p
  {
    if x < p {
      ProductBounds(a, x + 2, p - 1, p + 1);
      MulDist(p, 1, p + 1);
    }
    if 2 * p <= x {
      MulMono(2 * p, x, a);
      MulMono(p, 2 * a, p);
      MulAssoc(2, p, a);
      MulAssoc(2, a, p);
    }
  }

  lemma {:induction false} TopLimbOne(s: seq<Limb>)
    requires |s| >= 1 && Pow(|s| - 1) <= Val(s) < 2 * Pow(|s| - 1)
    ensures s[|s| - 1] == 1
  {
    var n := |s| - 1;
    ValBound(s[..n]);
    DivUnique(s[n], Val(s[..n]), 1, Val(s) - Pow(n), Pow(n));
  }

  /** ceil(p/a) - 1 from the quotient and remainder of p by a. */
  lemma {:induction false} RecipBaseArith(a: nat, q: nat, r: nat, p: nat)
    requires p == q * a + r && r < a && 0 < p
    ensures r == 0 ==> q >= 1 && a * (q - 1) < p < a * (q - 1 + 2)
    ensures r > 0 ==> a * q < p < a * (q + 2)
  {
    MulDist(q, 1, a);
    MulDist(q, 2, a);
  }

  lemma {:induction false} BaseQuotient(a: seq<Limb>, q: seq<Limb>, r: nat)
    requires Normalized(a) && |q| == |a| + 2 && DivMod(Pow(2 * |a|), Val(q), Val(a), r)
    ensures q[|a| + 1] == 0 && Val(q[..|a| + 1]) == Val(q)
  {
    hide Val, Pow;
    var n := |a|;
    PowAdd(n, n);
    NormalizedBound(a);
    if Val(q) > 2 * Pow(n) {
      MulMono(2 * Pow(n) + 1, Val(q), Val(a));
      BaseQuotientArith(Pow(n), Val(a));
    }
    PowTwice(n);
    TopLimbZero(q);
  }

  lemma {:induction false} BaseQuotientArith(p: nat, a: nat)
    requires p <= 2 * a && 0 < p
    ensures p * p < (2 * p + 1) * a
  {
    MulMono(p, 2 * a, p);
    MulDist(2 * p, 1, a);
    MulAssoc(2, p, a);
    MulAssoc(2, a, p);
  }

  lemma {:induction false} PowTwice(n: nat)
    ensures 16 * Pow(n) <= Pow(n + 1)
  {
    MulMono(16, B, Pow(n));
  }

  /** B^m as a vector. */
  lemma {:induction false} UnitVector(s: seq<Limb>)
    requires |s| >= 1 && s[|s| - 1] == 1 && Val(s[..|s| - 1]) == 0
    ensures Val(s) == Pow(|s| - 1)
  {
  }

  /** The reciprocal of one or two limbs, by division: ceil(B^(2n)/a) - 1. */
  method RecipBase(tabr: array<Limb>, ro: nat, taba: array<Limb>, ao: nat, n: nat)
    requires tabr != taba && 1 <= n && ro + n + 1 <= tabr.Length && ao + n <= taba.Length
    requires Normalized(taba[ao..ao + n])
    modifies tabr
    ensures OnlyRange(tabr, ro, n + 1)
    ensures IsRecip(Val(taba[ao..ao + n]), Val(tabr[ro..ro + n + 1]), n)
  {
    hide Val, Pow, DivMod;
    ghost var a := taba[ao..ao + n];
    var tabu, tabt := new Limb[2 * n + 1], new Limb[n + 2];
    ClearLimbs(tabu, 0, 2 * n);
    tabu[2 * n] := 1;
    assert tabu[0..2 * n + 1][..2 * n] == tabu[0..2 * n];
    UnitVector(tabu[0..2 * n + 1]);
    MpDivNormBase(tabt, 0, tabu, 0, 2 * n + 1, taba, ao, n);
    ghost var r := Val(tabu[0..n]);
    BaseQuotient(a, tabt[0..n + 2], r);
    assert tabt[0..n + 2][..n + 1] == tabt[0..n + 1];
    CopyLimbs(tabr, ro, tabt, 0, n + 1);
    BaseResult(Val(a), Val(tabr[ro..ro + n + 1]), r, n);
    var nz := MpScanNz(tabu, 0, n);
    if !nz {
      var k := MpSubUi(tabr, ro, 1, n + 1);
      NoBorrow(tabr[ro..ro + n + 1], k);
    }
  }

  lemma {:induction false} BaseResult(a: nat, q: nat, r: nat, n: nat)
    requires DivMod(Pow(2 * n), q, a, r)
    ensures r == 0 ==> q >= 1 && IsRecip(a, q - 1, n)
    ensures r > 0 ==> IsRecip(a, q, n)
  {
    hide Pow;
    RecipBaseArith(a, q, r, Pow(2 * n));
  }

  /** A difference known to be non-negative leaves no borrow. */
  lemma {:induction false} NoBorrow(s: seq<Limb>, k: Limb)
    requires Val(s) - k * Pow(|s|) >= 0
    ensures k == 0
  {
    ValBound(s);
    if k > 0 {
      MulMono(1, k, Pow(|s|));
    }
  }

  /** Whether some limb is non-zero. */
  method MpScanNz(tab: array<Limb>, o: nat, n: nat) returns (nz: bool)
    requires o + n <= tab.Length
    ensures nz <==> Val(tab[o..o + n]) != 0
  {
    ghost var s := tab[o..o + n];
    for i := 0 to n
      invariant forall j :: 0 <= j < i ==> s[j] == 0
    {
      if tab[o + i] != 0 {
        NonZero(s, i);
        return true;
      }
    }
    ValZeros(s);
    return false;
  }

  lemma {:induction false} NonZero(s: seq<Limb>, i: nat)
    requires i < |s| && s[i] != 0
    ensures Val(s) != 0
  {
    hide Val, Pow;
    ValSplit(s, i + 1);
    assert s[..i + 1] == s[..i] + [s[i]];
    ValSnoc(s[..i], s[i]);
    MulMono(1, s[i], Pow(i));
    MulMono(0, Val(s[i + 1..]), Pow(i + 1));
  }

  /** What the correction loop keeps: xh is close to B^(n+h)/a from below or just above. */
  ghost predicate NearHigh(a: nat, xh: nat, n: nat, h: nat) {
    Pow(n + h) < a * (xh + 2) && Pow(h) <= xh < 2 * Pow(h)
  }

  /** The reciprocal of the high limbs is a start for the whole number. */
  lemma {:induction false} HighHalf(a: seq<Limb>, l: nat, xh: nat)
    requires l < |a| && Normalized(a[l..]) && IsRecip(Val(a[l..]), xh, |a| - l)
    ensures NearHigh(Val(a), xh, |a|, |a| - l)
  {
    hide Val, Pow;
    var h := |a| - l;
    RecipTop(a[l..], xh);
    ValSplit(a, l);
    PowAdd(l, 2 * h);
    MulStrict(Pow(2 * h), Val(a[l..]) * (xh + 2), Pow(l));
    MulAssoc(Pow(l), Val(a[l..]), xh + 2);
    MulMono(Pow(l) * Val(a[l..]), Val(a), xh + 2);
  }

  /** Decrementing xh while the product overflows keeps it near. */
  lemma {:induction false} NearStep(a: seq<Limb>, xh: nat, h: nat)
    requires NearHigh(Val(a), xh, |a|, h) && Val(a) * xh >= Pow(|a| + h)
    ensures xh >= 1 && NearHigh(Val(a), xh - 1, |a|, h)
    ensures Val(a) * (xh - 1) == Val(a) * xh - Val(a) >= 0
  {
    hide Val, Pow;
    ValBound(a);
    PowAdd(|a|, h);
    NearStepArith(Val(a), xh, Pow(|a|), Pow(h));
  }

  lemma {:induction false} NearStepArith(a: nat, xh: nat, pn: nat, ph: nat)
    requires a * xh >= pn * ph && a < pn && 1 <= ph && ph <= xh
    ensures ph <= xh - 1 && pn * ph < a * (xh - 1 + 2)
    ensures a * (xh - 1) == a * xh - a >= 0
  {
    if xh == ph {
      MulStrict(a, pn, ph);
    }
    MulDist(xh, 1, a);
    MulMono(0, xh - 1, a);
    if a == 0 {
      MulMono(1, ph, pn);
    }
  }

  /** The top limb of the product tells whether it reaches B^(n+h). */
  lemma {:induction false} TopTells(t: seq<Limb>)
    requires |t| >= 1
    ensures t[|t| - 1] != 0 <==> Val(t) >= Pow(|t| - 1)
  {
    var m := |t| - 1;
    ValBound(t[..m]);
    if t[m] != 0 {
      MulMono(1, t[m], Pow(m));
    }
  }

  /** Subtracting the divisor from the low limbs and the borrow from the high ones. */
  lemma {:induction false} SubParts(lo: seq<Limb>, hi: seq<Limb>, lo': seq<Limb>, hi': seq<Limb>, a: nat, c: int, k: Limb)
    requires |lo| == |lo'| && |hi| == |hi'| && a <= Val(lo + hi)
    requires Val(lo') - c * Pow(|lo|) == Val(lo) - a - 0
    requires Val(hi') - k * Pow(|hi|) == Val(hi) - c
    ensures Val(lo' + hi') == Val(lo + hi) - a
  {
    hide Val, Pow;
    ValConcat(lo, hi);
    ValConcat(lo', hi');
    ValBound(lo' + hi');
    PowAdd(|lo|, |hi|);
    SubPartsArith(Val(lo'), Val(hi'), Val(lo), Val(hi), a, c, k, Pow(|lo|), Pow(|hi|));
    if k > 0 {
      MulMono(1, k, Pow(|lo| + |hi|));
    }
  }

  lemma {:induction false} SubPartsArith(lo': int, hi': int, lo: int, hi: int, a: int, c: int, k: int, p: int, m: int)
    requires lo' - c * p == lo - a && hi' - k * m == hi - c
    ensures lo' + p * hi' - k * (p * m) == lo + p * hi - a
  {
    MulDist(hi', k * m, p);
    MulDist(hi, c, p);
    MulAssoc(k, m, p);
  }

  /** tabt = a * xh, then decrement xh while that reaches B^(n+h). */
  method RecipCorrect(tabt: array<Limb>, tabx: array<Limb>, xo: nat, taba: array<Limb>, ao: nat, n: nat, h: nat)
    requires tabt != tabx && tabt != taba && tabx != taba && 1 <= n && 1 <= h
    requires tabt.Length == n + h + 1 && xo + h + 1 <= tabx.Length && ao + n <= taba.Length
    requires NearHigh(Val(taba[ao..ao + n]), Val(tabx[xo..xo + h + 1]), n, h)
    modifies tabt, tabx
    ensures OnlyRange(tabx, xo, h + 1)
    ensures NearHigh(Val(taba[ao..ao + n]), Val(tabx[xo..xo + h + 1]), n, h)
    ensures Val(tabt[..]) == Val(taba[ao..ao + n]) * Val(tabx[xo..xo + h + 1]) < Pow(n + h)
  {
    hide Val, Pow, NearHigh;
    ghost var a := taba[ao..ao + n];
    MpMulBasecase(tabt, 0, taba, ao, n, tabx, xo, h + 1);
    assert tabt[..] == tabt[0..0 + n + (h + 1)];
    TopTells(tabt[..]);
    while tabt[n + h] != 0
      invariant taba[ao..ao + n] == a && OnlyRange(tabx, xo, h + 1)
      invariant NearHigh(Val(a), Val(tabx[xo..xo + h + 1]), n, h)
      invariant Val(tabt[..]) == Val(a) * Val(tabx[xo..xo + h + 1])
      invariant tabt[n + h] != 0 <==> Val(tabt[..]) >= Pow(n + h)
      decreases Val(tabx[xo..xo + h + 1])
    {
      NearStep(a, Val(tabx[xo..xo + h + 1]), h);
      RecipDecrement(tabt, tabx, xo, taba, ao, n, h);
      TopTells(tabt[..]);
    }
  }

  method RecipDecrement(tabt: array<Limb>, tabx: array<Limb>, xo: nat, taba: array<Limb>, ao: nat, n: nat, h: nat)
    requires tabt != tabx && tabt != taba && tabx != taba && 1 <= n && 1 <= h
    requires tabt.Length == n + h + 1 && xo + h + 1 <= tabx.Length && ao + n <= taba.Length
    requires 1 <= Val(tabx[xo..xo + h + 1]) && Val(taba[ao..ao + n]) <= Val(tabt[..])
    modifies tabt, tabx
    ensures OnlyRange(tabx, xo, h + 1)
    ensures Val(tabx[xo..xo + h + 1]) == old(Val(tabx[xo..xo + h + 1])) - 1
    ensures Val(tabt[..]) == old(Val(tabt[..])) - Val(taba[ao..ao + n])
  {
    hide Val, Pow;
    ghost var lo, hi := tabt[0..n], tabt[n..n + (h + 1)];
    assert tabt[..] == lo + hi;
    var k := MpSubUi(tabx, xo, 1, h + 1);
    NoBorrow(tabx[xo..xo + h + 1], k);
    var c := MpSub(tabt, 0, tabt, 0, taba, ao, n, 0);
    assert tabt[n..n + (h + 1)] == hi;
    ghost var lo' := tabt[0..n];
    k := MpSubUi(tabt, n, c, h + 1);
    assert tabt[0..n] == lo' && tabt[..] == lo' + tabt[n..n + (h + 1)];
    SubParts(lo, hi, lo', tabt[n..n + (h + 1)], Val(taba[ao..ao + n]), c, k);
  }

  /** tabt = B^m - tabt on m + 1 limbs: negate, then increment the top limb. */
  method Complement(tabt: array<Limb>, m: nat)
    requires tabt.Length == m + 1 && 0 < Val(tabt[..]) < Pow(m)
    modifies tabt
    ensures Val(tabt[..]) == Pow(m) - old(Val(tabt[..]))
  {
    hide Val, Pow;
    ghost var t := tabt[..];
    assert tabt[0..m + 1] == t;
    var k := MpNeg(tabt, 0, tabt, 0, m + 1, 0);
    ghost var low := tabt[0..m];
    assert tabt[0..m + 1] == low + [tabt[m]];
    NegTop(low, tabt[m], k, Val(t));
    tabt[m] := AddWrap(tabt[m], 1);
    assert tabt[..] == low + [tabt[m]];
    ValSnoc(low, tabt[m]);
  }

  lemma {:induction false} NegTop(low: seq<Limb>, top: Limb, k: int, t: nat)
    requires 0 <= k <= 1 && 0 < t < Pow(|low|)
    requires Val(low + [top]) - k * Pow(|low| + 1) == 0 - t - 0
    ensures top == B - 1 && Val(low) == Pow(|low|) - t
  {
    var p := Pow(|low|);
    ValSnoc(low, top);
    ValBound(low);
    assert k == 1;
    MulDist(B, 1, p);
    DivUnique(top, Val(low), B - 1, p - t, p);
  }

  lemma {:induction false} SmallVal(s: seq<Limb>, h: nat)
    requires 1 <= h <= |s| && Val(s) < B
    ensures Val(s[..h]) == Val(s)
  {
    hide Val, Pow;
    ValSplit(s, h);
    PowTop(h);
    SmallValArith(Val(s[..h]), Val(s[h..]), Pow(h), B);
  }

  lemma {:induction false} PowTop(h: nat)
    requires h >= 1
    ensures Pow(h) >= B
  {
    MulMono(1, Pow(h - 1), B);
  }

  lemma {:induction false} SmallValArith(lo: nat, hi: nat, p: nat, b: nat)
    requires lo + p * hi < b <= p
    ensures lo == lo + p * hi
  {
    if hi > 0 {
      MulMono(1, hi, p);
    }
  }

  /** The exact sum of the shifted high half and the truncated second product is a reciprocal. */
  lemma {:induction false} NewtonVectors(a: seq<Limb>, l: nat, h: nat, k: nat, xh: nat, d: seq<Limb>, u: seq<Limb>)
    requires 2 * l < |a| && h == |a| - l && k == 2 * h - l && Normalized(a)
    requires NearHigh(Val(a), xh, |a|, h) && |d| == |a| + h + 1 && |u| == |a| + k + 2
    requires 0 < Val(d) == Pow(|a| + h) - Val(a) * xh && Val(u) == Val(d[l..]) * xh
    ensures IsRecip(Val(a), xh * Pow(l) + Val(u[k..]), |a|)
    ensures Val(u[2 * h..]) < 4
  {
    hide Val, Pow;
    NewtonPowers(|a|, l);
    ValBound(a);
    ValSplit(d, l);
    ValSplit(u, k);
    ValBound(d[..l]);
    ValBound(u[..k]);
    ValSplit(u, 2 * h);
    NewtonNumbers(Val(a), xh, Val(d), Val(d[l..]), Val(d[..l]), Val(u[k..]), Val(u[..k]), Val(u[2 * h..]),
                  Pow(l), Pow(h), Pow(k), Pow(|a|), Val(u));
  }

  lemma {:induction false} NewtonNumbers(a: nat, xh: nat, d: nat, dm: nat, d0: nat, u: nat, u0: nat, uh: nat,
                      pl: nat, ph: nat, pk: nat, pn: nat, uu: nat)
    requires pn == pl * ph && pk * pl == ph * ph && 16 * pl <= ph && 0 < pl && a < pn
    requires pn * ph < a * (xh + 2) && xh < 2 * ph && 0 < d == pn * ph - a * xh
    requires d == d0 + pl * dm && d0 < pl && uu == dm * xh == u0 + pk * u && u0 < pk && (ph * ph) * uh <= uu
    ensures a * (xh * pl + u) < pn * pn < a * (xh * pl + u + 2) && uh < 4
  {
    MulDist(xh, 2, a);
    NewtonStep(a, xh, d, dm, d0, u, u0, pl, ph, pk, pn);
    SmallHigh(d, dm, xh, uu, uh, pl, ph);
  }

  lemma {:induction false} NewtonPowers(n: nat, l: nat)
    requires 2 * l < n
    ensures var h := n - l;
            Pow(n) == Pow(l) * Pow(h) && Pow(2 * h - l) * Pow(l) == Pow(h) * Pow(h) == Pow(2 * h)
            && 16 * Pow(l) <= Pow(h) && Pow(n + h) == Pow(n) * Pow(h) && Pow(2 * n) == Pow(n) * Pow(n)
  {
    hide Pow;
    var h := n - l;
    PowAdd(l, h);
    PowAdd(n, h);
    PowAdd(n, n);
    PowAdd(2 * h - l, l);
    PowAdd(h, h);
    PowTwice(l);
    PowMonotone(l + 1, h);
  }

  lemma {:induction false} SmallHigh(d: nat, dm: nat, xh: nat, u: nat, uh: nat, pl: nat, ph: nat)
    requires dm * pl <= d < 2 * (pl * ph) && xh < 2 * ph && u == dm * xh && (ph * ph) * uh <= u && 0 < pl
    ensures uh < 4
  {
    MulAssoc(2, ph, pl);
    MulCancel(dm, 2 * ph, pl);
    ProductBounds(dm, xh, 2 * ph, 2 * ph);
    if uh >= 4 {
      MulMono(4, uh, ph * ph);
      assert (2 * ph) * (2 * ph) == 4 * (ph * ph);
      if dm == 0 {
        MulMono(1, ph, ph);
      } else {
        MulStrict(xh, 2 * ph, dm);
        MulMono(dm, 2 * ph, 2 * ph);
      }
    }
  }

  /** The limbs written back hold that sum: no carry is lost. */
  lemma {:induction false} RecipJoin(a: seq<Limb>, l: nat, x: seq<Limb>, u: seq<Limb>, mid: seq<Limb>, c: int)
    requires l < |a| && |x| == |a| - l + 1 && Normalized(a) && |u| >= |a| + 2
    requires var h := |a| - l;
             Pow(h) <= Val(x) < 2 * Pow(h) && |mid| == h && 0 <= c <= 1 && Val(u[l..]) < 4
             && Val(mid) + c * Pow(h) == Val(x[..h]) + Val(u[l..l + h]) + 0
    requires IsRecip(Val(a), Val(x) * Pow(l) + Val(u), |a|)
    ensures IsRecip(Val(a), Val(u[..l] + mid + [x[|a| - l]]), |a|) && x[|a| - l] == 1
  {
    hide Val, Pow, IsRecip;
    var n := |a|;
    var h := n - l;
    TopLimbOne(x);
    RecipTop(a, Val(x) * Pow(l) + Val(u));
    assert x == x[..h] + [x[h]];
    ValSnoc(x[..h], x[h]);
    ValSplit(u, l);
    SmallVal(u[l..], h);
    assert u[l..][..h] == u[l..l + h];
    ValConcat(u[..l], mid);
    ValSnoc(u[..l] + mid, 1);
    PowAdd(l, h);
    JoinArith(Val(x[..h]), Val(u[l..]), Val(mid), c, Pow(l), Pow(h), Val(u[..l]));
    if c == 1 {
      MulMono(0, Val(mid), Pow(l));
    }
  }

  lemma {:induction false} JoinArith(x: int, v: int, mid: int, c: int, pl: int, ph: int, lo: int)
    requires mid + c * ph == x + v
    ensures (x + ph) * pl + (lo + pl * v) == lo + pl * mid + (1 + c) * (pl * ph)
  {
    MulDist(x, ph, pl);
    MulDist(x, v, pl);
    MulDist(mid, c * ph, pl);
    MulAssoc(c, ph, pl);
    MulDist(1, c, pl * ph);
  }

  /** tabr = B^(2n)/taba, approximately: a*r < B^(2n) < a*(r + 2), with top limb 1. */
  method MpRecip(tabr: array<Limb>, ro: nat, taba: array<Limb>, ao: nat, n: nat)
    requires tabr != taba && 1 <= n && ro + n + 1 <= tabr.Length && ao + n <= taba.Length
    requires Normalized(taba[ao..ao + n])
    modifies tabr
    ensures OnlyRange(tabr, ro, n + 1) && tabr[ro + n] == 1
    ensures IsRecip(Val(taba[ao..ao + n]), Val(tabr[ro..ro + n + 1]), n)
    decreases n
  {
    hide Val, Pow, IsRecip, NearHigh;
    ghost var a := taba[ao..ao + n];
    if n <= 2 {
      RecipBase(tabr, ro, taba, ao, n);
      RecipTop(a, Val(tabr[ro..ro + n + 1]));
      TopLimbOne(tabr[ro..ro + n + 1]);
    } else {
      var l := (n - 1) / 2;
      var h := n - l;
      var tabt := new Limb[n + h + 1];
      assert a[l..] == taba[ao + l..ao + l + h];
      MpRecip(tabr, ro + l, taba, ao + l, h);
      assert taba[ao..ao + n] == a;
      HighHalf(a, l, Val(tabr[ro + l..ro + l + h + 1]));
      RecipCorrect(tabt, tabr, ro + l, taba, ao, n, h);
      RecipFinish(tabt, tabr, ro, taba, ao, n, l);
    }
  }

  /** The second half of the Newton step: multiply the residue by xh and add the result in place. */
  method RecipFinish(tabt: array<Limb>, tabr: array<Limb>, ro: nat, taba: array<Limb>, ao: nat, n: nat, l: nat)
    requires tabt != tabr && tabt != taba && tabr != taba && 2 * l < n
    requires ro + n + 1 <= tabr.Length && ao + n <= taba.Length && tabt.Length == n + (n - l) + 1
    requires Normalized(taba[ao..ao + n])
    requires NearHigh(Val(taba[ao..ao + n]), Val(tabr[ro + l..ro + n + 1]), n, n - l)
    requires Val(tabt[..]) == Val(taba[ao..ao + n]) * Val(tabr[ro + l..ro + n + 1]) < Pow(n + (n - l))
    modifies tabt, tabr
    ensures OnlyRange(tabr, ro, n + 1) && tabr[ro + n] == 1
    ensures IsRecip(Val(taba[ao..ao + n]), Val(tabr[ro..ro + n + 1]), n)
  {
    hide Val, Pow, IsRecip, NearHigh, IsProduct;
    ghost var a, x := taba[ao..ao + n], tabr[ro + l..ro + n + 1];
    var h := n - l;
    var k := 2 * h - l;
    var tabu := new Limb[n + 2 * h - l + 2];
    ProductPositive(a, Val(x), h);
    Complement(tabt, n + h);
    MpMulBasecase(tabu, 0, tabt, l, n + h + 1 - l, tabr, ro + l, h + 1);
    ghost var d, u := tabt[..], tabu[..];
    assert u == tabu[0..0 + (n + h + 1 - l) + (h + 1)] && d[l..] == tabt[l..l + (n + h + 1 - l)];
    assert x == tabr[ro + l..ro + l + (h + 1)];
    ProductValue(u, d[l..], x);
    NewtonVectors(a, l, h, k, Val(x), d, u);
    NearBounds(Val(a), Val(x), n, h);
    assert u[k..] == tabu[k..] && u[2 * h..] == tabu[k + l..];
    RecipAddIn(tabr, ro, tabu, k, n, l, a);
  }

  /** tabr[0..l] = tabu[k..k+l], and tabu[k+l..] is added to the limbs above. */
  method RecipAddIn(tabr: array<Limb>, ro: nat, tabu: array<Limb>, k: nat, n: nat, l: nat, ghost a: seq<Limb>)
    requires tabr != tabu && 2 * l < n == |a| && Normalized(a)
    requires ro + n + 1 <= tabr.Length && k + n + 2 <= tabu.Length
    requires Pow(n - l) <= Val(tabr[ro + l..ro + n + 1]) < 2 * Pow(n - l) && Val(tabu[k + l..]) < 4
    requires IsRecip(Val(a), Val(tabr[ro + l..ro + n + 1]) * Pow(l) + Val(tabu[k..]), n)
    modifies tabr
    ensures OnlyRange(tabr, ro, n + 1) && tabr[ro + n] == 1
    ensures IsRecip(Val(a), Val(tabr[ro..ro + n + 1]), n)
  {
    hide Val, Pow, IsRecip;
    ghost var x, u := tabr[ro + l..ro + n + 1], tabu[k..];
    var h := n - l;
    CopyLimbs(tabr, ro, tabu, k, l);
    assert tabr[ro + l..ro + l + h] == x[..h] && u[l..] == tabu[k + l..];
    var c := MpAdd(tabr, ro + l, tabr, ro + l, tabu, k + l, h, 0);
    ghost var mid := tabr[ro + l..ro + l + h];
    assert u[..l] == tabu[k..k + l] && u[l..l + h] == tabu[k + l..k + l + h];
    assert tabr[ro..ro + n + 1] == u[..l] + mid + [x[h]];
    RecipJoin(a, l, x, u, mid, c);
  }

  lemma {:induction false} ProductValue(u: seq<Limb>, s: seq<Limb>, t: seq<Limb>)
    requires IsProduct(u, s, t)
    ensures Val(u) == Val(s) * Val(t)
  {
  }

  lemma {:induction false} NearBounds(a: nat, x: nat, n: nat, h: nat)
    requires NearHigh(a, x, n, h)
    ensures Pow(h) <= x < 2 * Pow(h)
  {
  }

  lemma {:induction false} ProductPositive(a: seq<Limb>, x: nat, h: nat)
    requires Normalized(a) && NearHigh(Val(a), x, |a|, h)
    ensures 0 < Val(a) * x
  {
    hide Val, Pow;
    NormalizedBound(a);
    MulStrict(0, x, Val(a));
  }
}
