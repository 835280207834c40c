/** Schoolbook division of a limb vector by a normalized limb vector. */
module VectorDivision {
  import opened Arith
  import opened Limbs
  import opened LimbOps
  import opened LimbDivision

  /** A vector whose top limb is at least B/2. */
  ghost predicate Normalized(s: seq<Limb>) {
    |s| >= 1 && 2 * s[|s| - 1] >= B
  }

  /**
  Knuth's bound: the quotient of the two top limbs of the window by the top limb
  of the divisor, capped at B - 1, is the true digit, or one or two more.
  */
  lemma {:induction false} TrialDigitBounds(w1: nat, w0: nat, rest: nat, b1: nat, brest: nat, p: nat, b: nat,
                                            q: nat, rr: nat)
    requires w1 < b && w0 < b && rest < p && brest < p && b1 < b <= 2 * b1
    requires (w1 * b + w0) * p + rest < (b1 * p + brest) * b
    requires if w1 >= b1 then q == b - 1 else w1 * b + w0 == q * b1 + rr && rr < b1
    ensures -2 * (b1 * p + brest) <= (w1 * b + w0) * p + rest - q * (b1 * p + brest) < b1 * p + brest
  {
    if w1 >= b1 {
      TrialCapped(w1, w0, rest, b1, brest, p, b);
    } else {
      DoubleLimbBound(w1, w0, b1, b);
      QuotientLimb(q, w1 * b + w0, b1, b);
      TrialPlain(w1 * b + w0, rest, b1, brest, p, q, rr);
    }
  }

  lemma TrialPlain(w: nat, rest: nat, b1: nat, brest: nat, p: nat, q: nat, rr: nat)
    requires w == q * b1 + rr && rr < b1 && rest < p && brest < p && q <= 2 * b1
    ensures -2 * (b1 * p + brest) <= w * p + rest - q * (b1 * p + brest) < b1 * p + brest
  {
    assert w * p + rest - q * (b1 * p + brest) == rr * p + rest - q * brest by {
      MulDist(q * b1, rr, p);
      MulDist(b1 * p, brest, q);
      MulAssoc(q, b1, p);
    }
    MulMono(rr + 1, b1, p);
    MulDist(rr, 1, p);
    MulMono(0, rr, p);
    ProductBounds(q, brest, 2 * b1, p);
    MulAssoc(2, b1, p);
  }

  lemma TrialCapped(w1: nat, w0: nat, rest: nat, b1: nat, brest: nat, p: nat, b: nat)
    requires b1 <= w1 && rest < p && brest < p && b1 < b <= 2 * b1
    requires (w1 * b + w0) * p + rest < (b1 * p + brest) * b
    ensures -2 * (b1 * p + brest) <= (w1 * b + w0) * p + rest - (b - 1) * (b1 * p + brest) < b1 * p + brest
  {
    var d := b1 * p + brest;
    MulDist(b, 1, d);
    MulMono(b1, w1, b);
    MulMono(b1 * b, w1 * b + w0, p);
    MulDist(b1 * p, brest, b);
    MulAssoc(b1, b, p);
    MulAssoc(b1, p, b);
    MulMono(brest, p, b);
    MulMono(b, 2 * b1, p);
    MulAssoc(2, b1, p);
  }

  /** The digit tried first, by hardware division or through the inverse. */
  method TrialDigit(w1: Limb, w0: Limb, b1: Limb, useInv: bool, bInv: Limb) returns (q: Limb, ghost rr: nat)
    requires 2 * b1 >= B && (useInv ==> IsInverse(b1, bInv, B))
    ensures if w1 >= b1 then q == B - 1 else w1 * B + w0 == q * b1 + rr && rr < b1
  {
    if w1 >= b1 {
      q, rr := B - 1, 0;
    } else if useInv {
      var q', r := Udiv1Norm(w1, w0, b1, bInv, B);
      q, rr := q', r;
    } else {
      var q', r := DivRem(w1 * B + w0, b1);
      DoubleLimbBound(w1, w0, b1, B);
      QuotientBound(w1 * B + w0, b1, B, q', r);
      q, rr := q', r;
    }
  }

  /** The signed number held by a window of limbs whose top may have wrapped below zero. */
  ghost function Signed(low: seq<Limb>, top: Limb, neg: bool): int {
    Val(low) + top * Pow(|low|) - (if neg then Pow(|low|) * B else 0)
  }

  lemma {:induction false} SignedSign(low: seq<Limb>, top: Limb, neg: bool)
    ensures neg <==> Signed(low, top, neg) < 0
    ensures !neg ==> Signed(low, top, neg) == Val(low + [top])
    ensures top == 0 && !neg ==> Signed(low, top, neg) == Val(low)
  {
    hide Val, Pow;
    ValBound(low);
    ValSnoc(low, top);
    MulMono(top, B - 1, Pow(|low|));
    MulDist(B, 1, Pow(|low|));
  }

  /** Subtracting from the top limb of the window. */
  lemma {:induction false} SubTop(s: seq<Limb>, v: Limb, low: seq<Limb>, r: Limb, x: int)
    requires |low| == |s| && Val(low) - r * Pow(|s|) == Val(s) - x
    ensures var a := SubWrap(v, r); Signed(low, a, a > v) == Val(s + [v]) - x
  {
    hide Val, Pow;
    var a, p := SubWrap(v, r), Pow(|s|);
    ValSnoc(s, v);
    MulDist(v, r, p);
    if a > v {
      MulDist(a, B, p);
    }
  }

  /** Adding the divisor back to a negative window. */
  lemma {:induction false} AddBack(low: seq<Limb>, top: Limb, low': seq<Limb>, k: int, d: nat)
    requires 0 <= k <= 1 && |low'| == |low| && Val(low') + k * Pow(|low|) == Val(low) + d
    ensures var top' := if k == 1 then AddWrap(top, 1) else top;
            Signed(low', top', !(k == 1 && top' == 0)) == Signed(low, top, true) + d
  {
    hide Val, Pow;
    MulDist(top, 1, Pow(|low|));
  }

  /**
  One quotient digit: the window taba[o..o+nb] is reduced modulo the divisor in place.
  At most two divisors have to be added back.
  */
  method DivDigit(taba: array<Limb>, o: nat, tabb: array<Limb>, bo: nat, nb: nat, useInv: bool, bInv: Limb)
    returns (q: Limb, ghost backs: nat)
    requires taba != tabb && o + nb < taba.Length && bo + nb <= tabb.Length
    requires Normalized(tabb[bo..bo + nb]) && (useInv ==> IsInverse(tabb[bo + nb - 1], bInv, B))
    requires Val(taba[o + 1..o + 1 + nb]) < Val(tabb[bo..bo + nb])
    modifies taba
    ensures OnlyRange(taba, o, nb + 1) && backs <= 2
    ensures old(Val(taba[o..o + nb + 1])) == q * Val(tabb[bo..bo + nb]) + Val(taba[o..o + nb])
    ensures Val(taba[o..o + nb]) < Val(tabb[bo..bo + nb])
  {
    hide Val, Pow, Signed, IsInverse;
    ghost var s, d := taba[o..o + nb], tabb[bo..bo + nb];
    var v := taba[o + nb];
    assert taba[o..o + nb + 1] == s + [v];
    ghost var rr;
    q, rr := TrialDigit(v, taba[o + nb - 1], tabb[bo + nb - 1], useInv, bInv);
    assert s + [v] == [s[0]] + taba[o + 1..o + 1 + nb];
    TrialWindow(s, v, taba[o + 1..o + 1 + nb], d, q, rr);
    var r := MpSubMul1(taba, o, tabb, bo, nb, q);
    var a := SubWrap(v, r);
    SubTop(s, v, taba[o..o + nb], r, Val(d) * q);
    taba[o + nb] := a;
    SignedSign(taba[o..o + nb], a, a > v);
    backs := 0;
    if a > v {
      q, backs := AddBacks(taba, o, tabb, bo, nb, q, Val(s + [v]));
    } else {
      FitsLow(taba[o..o + nb], a, Val(d), d);
    }
  }

  /** The trial digit's bounds, in terms of the limb vectors. */
  lemma {:induction false} TrialWindow(s: seq<Limb>, v: Limb, hi: seq<Limb>, d: seq<Limb>, q: nat, rr: nat)
    requires |s| == |d| == |hi| >= 1 && s + [v] == [s[0]] + hi && Val(hi) < Val(d) && Normalized(d)
    requires var b1 := d[|d| - 1];
             if v >= b1 then q == B - 1 else v * B + s[|s| - 1] == q * b1 + rr && rr < b1
    ensures -2 * Val(d) <= Val(s + [v]) - q * Val(d) < Val(d)
  {
    hide Val, Pow;
    var n := |d| - 1;
    WindowBound(s, v, hi, Val(d));
    WindowTop(s, v);
    assert d == d[..n] + [d[n]];
    ValSnoc(d[..n], d[n]);
    ValBound(d[..n]);
    ValBound(s[..n]);
    TrialDigitBounds(v, s[n], Val(s[..n]), d[n], Val(d[..n]), Pow(n), B, q, rr);
  }

  lemma {:induction false} WindowBound(s: seq<Limb>, v: Limb, hi: seq<Limb>, d: nat)
    requires |s| == |hi| >= 1 && s + [v] == [s[0]] + hi && Val(hi) < d
    ensures Val(s + [v]) < d * B
  {
    hide Val;
    ValCons(s[0], hi);
    MulMono(Val(hi) + 1, d, B);
    MulDist(Val(hi), 1, B);
  }

  lemma {:induction false} WindowTop(s: seq<Limb>, v: Limb)
    requires |s| >= 1
    ensures Val(s + [v]) == (v * B + s[|s| - 1]) * Pow(|s| - 1) + Val(s[..|s| - 1])
  {
    hide Val;
    var n := |s| - 1;
    ValSnoc(s, v);
    assert s == s[..n] + [s[n]];
    ValSnoc(s[..n], s[n]);
    MulAssoc(v, B, Pow(n));
    MulDist(v * B, s[n], Pow(n));
  }

  lemma {:induction false} FitsLow(low: seq<Limb>, top: Limb, m: nat, d: seq<Limb>)
    requires Val(low + [top]) < m <= Val(d) && |low| == |d|
    ensures top == 0 && Val(low) == Val(low + [top])
  {
    hide Val, Pow;
    ValSnoc(low, top);
    ValBound(d);
    if top > 0 {
      MulMono(1, top, Pow(|low|));
    }
  }

  /** The correction loop: adds the divisor back until the window is no longer negative. */
  method AddBacks(taba: array<Limb>, o: nat, tabb: array<Limb>, bo: nat, nb: nat, q0: Limb, ghost w: nat)
    returns (q: Limb, ghost backs: nat)
    requires taba != tabb && o + nb < taba.Length && bo + nb <= tabb.Length
    requires Signed(taba[o..o + nb], taba[o + nb], true) == w - Val(tabb[bo..bo + nb]) * q0
    requires -2 * Val(tabb[bo..bo + nb]) <= w - q0 * Val(tabb[bo..bo + nb])
    modifies taba
    ensures OnlyRange(taba, o, nb + 1) && backs <= 2
    ensures w == q * Val(tabb[bo..bo + nb]) + Val(taba[o..o + nb])
    ensures Val(taba[o..o + nb]) < Val(tabb[bo..bo + nb])
  {
    hide Val, Pow, Signed;
    ghost var d := Val(tabb[bo..bo + nb]);
    q, backs := q0, 0;
    var neg := true;
    SignedSign(taba[o..o + nb], taba[o + nb], true);
    while neg
      invariant tabb[bo..bo + nb] == old(tabb[bo..bo + nb])
      invariant OnlyRange(taba, o, nb + 1) && backs + q == q0
      invariant Signed(taba[o..o + nb], taba[o + nb], neg) == w - d * q < d
      invariant neg <==> w - d * q < 0
      invariant !neg ==> taba[o + nb] == 0
      invariant backs <= 2 && (backs - 2) * d <= w - d * q
      decreases q
    {
      ghost var low, top := taba[o..o + nb], taba[o + nb];
      AddBackCount(w, d, q, backs);
      q := q - 1;
      backs := backs + 1;
      var k := MpAdd(taba, o, taba, o, tabb, bo, nb, 0);
      AddBack(low, top, taba[o..o + nb], k, d);
      if k == 1 {
        taba[o + nb] := AddWrap(taba[o + nb], 1);
        neg := taba[o + nb] != 0;
      }
      SignedSign(taba[o..o + nb], taba[o + nb], neg);
    }
    SignedSign(taba[o..o + nb], taba[o + nb], false);
  }

  lemma AddBackCount(w: nat, d: nat, q: int, backs: nat)
    requires w - d * q < 0 && (backs - 2) * d <= w - d * q && backs <= 2
    ensures q >= 1 && backs <= 1 && w - d * (q - 1) == w - d * q + d
    ensures (backs + 1 - 2) * d <= w - d * (q - 1)
  {
    MulDist(q, 1, d);
    MulDist(backs - 2, 1, d);
    if q <= 0 {
      MulMono(q, 0, d);
    }
  }

  /** Quotient q and remainder r of a by d. */
  ghost predicate DivMod(a: nat, q: nat, d: nat, r: nat) {
    a == q * d + r && r < d
  }

  /** One more low limb on the dividend gives one more low digit on the quotient. */
  lemma {:induction false} NextDigit(a: seq<Limb>, x: Limb, q: seq<Limb>, y: Limb, d: nat, r: nat, r': nat)
    requires DivMod(Val(a), Val(q), d, r) && x + B * r == y * d + r' && r' < d
    ensures DivMod(Val([x] + a), Val([y] + q), d, r')
  {
    hide Val;
    ValCons(x, a);
    ValCons(y, q);
    NextDigitArith(Val(a), Val(q), d, r, x, y, r', B);
  }

  lemma NextDigitArith(a: int, q: int, d: int, r: int, x: int, y: int, r': int, b: int)
    requires a == q * d + r && x + b * r == y * d + r'
    ensures x + b * a == (y + b * q) * d + r'
  {
    MulDist(q * d, r, b);
    MulDist(y, b * q, d);
    MulAssoc(b, q, d);
  }

  lemma {:induction false} DivModStart(r: Limb, d: nat)
    requires r < d
    ensures DivMod(Val([r]), Val([]), d, r)
  {
    ValSnoc([], r);
    assert [] + [r] == [r];
  }

  /** tabr[] = (r*B^n + taba[]) / b for a normalized limb b; returns the remainder. */
  method MpDiv1Norm(tabr: array<Limb>, ro: nat, taba: array<Limb>, ao: nat, n: nat, b: Limb, r0: Limb)
    returns (r: Limb)
    requires ro + n <= tabr.Length && ao + n <= taba.Length && (tabr == taba ==> ro == ao)
    requires 2 * b >= B && r0 < b
    modifies tabr
    ensures OnlyRange(tabr, ro, n)
    ensures DivMod(old(Val(taba[ao..ao + n] + [r0])), Val(tabr[ro..ro + n]), b, r)
  {
    hide Val, Pow, DivMod, IsInverse;
    ghost var s := taba[ao..ao + n] + [r0];
    var useInv, bInv: Limb := n >= 3, 0;
    if useInv {
      bInv := Udiv1NormInit(b, B);
    }
    r := r0;
    DivModStart(r0, b);
    assert s[n..] == [r0] && tabr[ro + n..ro + n] == [];
    for i := n downto 0
      invariant r < b && OnlyRange(tabr, ro + i, n - i)
      invariant forall j :: 0 <= j < i ==> taba[ao + j] == s[j]
      invariant DivMod(Val(s[i..]), Val(tabr[ro + i..ro + n]), b, r)
    {
      ghost var hi, r1 := tabr[ro + i + 1..ro + n], r;
      var q: Limb;
      q, r := DivLimb(r, taba[ao + i], b, useInv, bInv);
      NextDigit(s[i + 1..], s[i], hi, q, b, r1, r);
      tabr[ro + i] := q;
      assert tabr[ro + i..ro + n] == [q] + hi && s[i..] == [s[i]] + s[i + 1..];
    }
    assert s[0..] == s;
  }

  method DivLimb(a1: Limb, a0: Limb, d: Limb, useInv: bool, dInv: Limb) returns (q: Limb, r: Limb)
    requires a1 < d && 2 * d >= B && (useInv ==> IsInverse(d, dInv, B))
    ensures a0 + B * a1 == q * d + r && r < d
  {
    if useInv {
      var q', r' := Udiv1Norm(a1, a0, d, dInv, B);
      q, r := q', r';
    } else {
      var q', r' := DivRem(a1 * B + a0, d);
      DoubleLimbBound(a1, a0, d, B);
      QuotientBound(a1 * B + a0, d, B, q', r');
      q, r := q', r';
    }
  }

  /** The first quotient limb, 0 or 1. */
  method DivFirst(taba: array<Limb>, o: nat, tabb: array<Limb>, bo: nat, nb: nat) returns (q: Limb)
    requires taba != tabb && o + nb <= taba.Length && bo + nb <= tabb.Length
    requires Normalized(tabb[bo..bo + nb])
    modifies taba
    ensures OnlyRange(taba, o, nb) && q <= 1
    ensures DivMod(old(Val(taba[o..o + nb])), Val([q]), Val(tabb[bo..bo + nb]), Val(taba[o..o + nb]))
  {
    hide Val, Pow, DivMod;
    ghost var s, d := taba[o..o + nb], tabb[bo..bo + nb];
    var c := MpCmp(taba, o, tabb, bo, nb);
    q := if c >= 0 then 1 else 0;
    var k := 0;
    if q == 1 {
      k := MpSub(taba, o, taba, o, tabb, bo, nb, 0);
    }
    FirstDigit(s, d, q, taba[o..o + nb], k);
  }

  lemma {:induction false} FirstDigit(s: seq<Limb>, d: seq<Limb>, q: Limb, r: seq<Limb>, k: int)
    requires |s| == |d| == |r| && Normalized(d) && 0 <= k <= 1
    requires q == (if Val(s) >= Val(d) then 1 else 0)
    requires if q == 1 then Val(r) - k * Pow(|d|) == Val(s) - Val(d) - 0 else r == s
    ensures DivMod(Val(s), Val([q]), Val(d), Val(r))
  {
    hide Val, Pow;
    ValSnoc([], q);
    assert [] + [q] == [q];
    PowVal0();
    ValBound(s);
    ValBound(r);
    NormalizedBound(d);
  }

  lemma {:induction false} PowVal0()
    ensures Pow(0) == 1 && Val([]) == 0
  {
  }

  lemma {:induction false} NormalizedBound(d: seq<Limb>)
    requires Normalized(d)
    ensures Pow(|d|) <= 2 * Val(d)
  {
    var top: int := d[|d| - 1];
    MulMono(B, 2 * top, Pow(|d| - 1));
    MulAssoc(2, top, Pow(|d| - 1));
  }

  /**
  tabq[0..na-nb] = taba[0..na-1] / tabb[0..nb-1]; the remainder replaces the low nb limbs of
  taba. The divisor must be normalized.
  */
  method MpDivSchool(tabq: array<Limb>, qo: nat, taba: array<Limb>, ao: nat, na: nat,
                       tabb: array<Limb>, bo: nat, nb: nat)
    requires tabq != taba && tabq != tabb && taba != tabb && 1 <= nb <= na
    requires qo + (na - nb) + 1 <= tabq.Length && ao + na <= taba.Length && bo + nb <= tabb.Length
    requires Normalized(tabb[bo..bo + nb])
    modifies tabq, taba
    ensures OnlyRange(tabq, qo, na - nb + 1) && OnlyRange(taba, ao, na)
    ensures tabq[qo + (na - nb)] <= 1
    ensures DivMod(old(Val(taba[ao..ao + na])), Val(tabq[qo..qo + (na - nb) + 1]), Val(tabb[bo..bo + nb]),
                   Val(taba[ao..ao + nb]))
  {
    hide Val, Pow, DivMod, IsInverse;
    ghost var s, d := taba[ao..ao + na], tabb[bo..bo + nb];
    var n := na - nb;
    var useInv, bInv: Limb := n >= 3, 0;
    if useInv {
      bInv := Udiv1NormInit(tabb[bo + nb - 1], B);
    }
    assert s[n..] == taba[ao + n..ao + na];
    var q0 := DivFirst(taba, ao + n, tabb, bo, nb);
    tabq[qo + n] := q0;
    assert tabq[qo + n..qo + n + 1] == [q0];
    for i := n downto 0
      invariant tabb[bo..bo + nb] == d && tabq[qo + n] <= 1
      invariant OnlyRange(tabq, qo + i, n + 1 - i) && OnlyRange(taba, ao + i, na - i)
      invariant DivMod(Val(s[i..]), Val(tabq[qo + i..qo + n + 1]), Val(d), Val(taba[ao + i..ao + i + nb]))
    {
      DivColumn(tabq, qo, taba, ao, tabb, bo, nb, n, i, useInv, bInv, s);
    }
    assert s[0..] == s;
  }

  method DivColumn(tabq: array<Limb>, qo: nat, taba: array<Limb>, ao: nat, tabb: array<Limb>, bo: nat, nb: nat,
                   n: nat, i: nat, useInv: bool, bInv: Limb, ghost s: seq<Limb>)
    requires tabq != taba && tabq != tabb && taba != tabb && 1 <= nb && i < n
    requires qo + n + 1 <= tabq.Length && ao + n + nb <= taba.Length && bo + nb <= tabb.Length
    requires Normalized(tabb[bo..bo + nb]) && (useInv ==> IsInverse(tabb[bo + nb - 1], bInv, B))
    requires |s| == n + nb && taba[ao + i] == s[i]
    requires DivMod(Val(s[i + 1..]), Val(tabq[qo + i + 1..qo + n + 1]), Val(tabb[bo..bo + nb]),
                    Val(taba[ao + i + 1..ao + i + 1 + nb]))
    modifies tabq, taba
    ensures OnlyRange(tabq, qo + i, 1) && OnlyRange(taba, ao + i, nb + 1)
    ensures DivMod(Val(s[i..]), Val(tabq[qo + i..qo + n + 1]), Val(tabb[bo..bo + nb]), Val(taba[ao + i..ao + i + nb]))
  {
    hide Val, Pow, IsInverse;
    ghost var d, r := tabb[bo..bo + nb], taba[ao + i + 1..ao + i + 1 + nb];
    ghost var hi := tabq[qo + i + 1..qo + n + 1];
    SliceCons(taba, ao + i, ao + i + nb + 1);
    ValCons(s[i], r);
    var q, backs := DivDigit(taba, ao + i, tabb, bo, nb, useInv, bInv);
    NextDigit(s[i + 1..], s[i], hi, q, Val(d), Val(r), Val(taba[ao + i..ao + i + nb]));
    tabq[qo + i] := q;
    SliceCons(tabq, qo + i, qo + n + 1);
    assert s[i..] == [s[i]] + s[i + 1..];
  }

  /** The quotient by a normalized divisor exceeds its low limbs by at most one unit. */
  lemma {:induction false} QuotientTop(a: seq<Limb>, q: seq<Limb>, d: seq<Limb>, r: nat)
    requires Normalized(d) && |q| >= 1 && |a| == |q| - 1 + |d| && DivMod(Val(a), Val(q), Val(d), r)
    ensures q[|q| - 1] <= 1
  {
    hide Val, Pow;
    var n := |q| - 1;
    assert q == q[..n] + [q[n]];
    ValSnoc(q[..n], q[n]);
    ValBound(a);
    PowAdd(n, |d|);
    NormalizedBound(d);
    QuotientTopArith(Val(q), q[n], Val(d), Pow(n), Pow(|d|), Val(a));
  }

  lemma QuotientTopArith(q: nat, top: nat, d: nat, p: nat, m: nat, a: nat)
    requires q * d <= a < p * m && m <= 2 * d && top * p <= q
    ensures top <= 1
  {
    if top >= 2 {
      MulMono(2, top, p);
      MulMono(2 * p, q, d);
      MulMono(m, 2 * d, p);
      MulAssoc(2, p, d);
      MulAssoc(2, d, p);
    }
  }

  /**
  tabq[0..na-nb] = taba[0..na-1] / tabb[0..nb-1] by the quadratic methods; the remainder
  replaces the low nb limbs of taba. The divisor must be normalized.
  */
  method MpDivNormBase(tabq: array<Limb>, qo: nat, taba: array<Limb>, ao: nat, na: nat,
                       tabb: array<Limb>, bo: nat, nb: nat)
    requires tabq != taba && tabq != tabb && taba != tabb && 1 <= nb <= na
    requires qo + (na - nb) + 1 <= tabq.Length && ao + na <= taba.Length && bo + nb <= tabb.Length
    requires Normalized(tabb[bo..bo + nb])
    modifies tabq, taba
    ensures OnlyRange(tabq, qo, na - nb + 1) && OnlyRange(taba, ao, na)
    ensures tabq[qo + (na - nb)] <= 1
    ensures DivMod(old(Val(taba[ao..ao + na])), Val(tabq[qo..qo + (na - nb) + 1]), Val(tabb[bo..bo + nb]),
                   Val(taba[ao..ao + nb]))
  {
    if nb == 1 {
      hide Val, Pow, DivMod;
      ghost var s, d := taba[ao..ao + na], tabb[bo..bo + nb];
      var r := MpDiv1Norm(tabq, qo, taba, ao, na, tabb[bo], 0);
      taba[ao] := r;
      TopZero(s);
      OneLimb(d);
      OneLimb(taba[ao..ao + nb]);
      QuotientTop(s, tabq[qo..qo + na], d, r);
    } else {
      MpDivSchool(tabq, qo, taba, ao, na, tabb, bo, nb);
    }
  }

  lemma {:induction false} TopZero(s: seq<Limb>)
    ensures Val(s + [0]) == Val(s)
  {
    ValSnoc(s, 0);
  }

  lemma {:induction false} OneLimb(s: seq<Limb>)
    requires |s| == 1
    ensures Val(s) == s[0]
  {
    assert s == [] + [s[0]];
    ValSnoc([], s[0]);
  }
}
