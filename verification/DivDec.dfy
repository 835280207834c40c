/** Division in a decimal radix: the divisor is normalized by a multiplier instead of a shift. */
module DecimalDivision {
  import opened Arith
  import opened Limbs
  import opened LimbOps
  import opened LimbDivision
  import opened VectorDivision
  import opened DecimalLimbs

  /** Half of an even radix is reached by the scaled top limb, for every limb v. */
  lemma {:induction false} ScaledTop(v: nat, m: nat, b: nat, rem: nat)
    requires v >= 1 && 2 * v < b && b % 2 == 0 && b == m * (v + 1) + rem && rem <= v
    ensures 2 * (v * m) >= b
  {
    var x := 2 * (v * m);
    assert x * (v + 1) == 2 * v * (b - rem) by {
      MulAssoc(2 * v, m, v + 1);
      MulAssoc(2, v, m);
    }
    MulMono(b - v, b - rem, 2 * v);
    assert 2 * v * (b - v) == (b - 2) * (v + 1) + ((v - 1) * (b - 2 * v) + 2) by { ScaleArith(v, b); }
    MulMono(0, v - 1, b - 2 * v);
    if x <= b - 2 {
      MulMono(x, b - 2, v + 1);
      assert false;
    }
    EvenStep(v * m, b);
  }

  lemma {:induction false} ScaleArith(v: int, b: int)
    ensures 2 * v * (b - v) == (b - 2) * (v + 1) + ((v - 1) * (b - 2 * v) + 2)
  {
  }

  lemma {:induction false} EvenStep(y: int, b: int)
    requires 2 * y > b - 2 && b % 2 == 0
    ensures 2 * y >= b
  {
  }

  /** A divisor multiplied by B / (top + 1) still fits, and is normalized. */
  lemma {:induction false} ScaledDivisor(d: seq<Limb>, m: nat, rem: nat, s: seq<Limb>, k: nat)
    requires |d| >= 1 && |s| == |d| && B % 2 == 0 && d[|d| - 1] >= 1 && 2 * d[|d| - 1] < B
    requires m >= 1 && B == m * (d[|d| - 1] + 1) + rem && rem <= d[|d| - 1]
    requires Val(s) + k * Pow(|d|) == Val(d) * m
    ensures k == 0 && Val(s) == Val(d) * m && Normalized(s)
  {
    hide Val, Pow;
    var n := |d| - 1;
    var v, p := d[n], Pow(n);
    assert d == d[..n] + [v];
    ValSnoc(d[..n], v);
    ValBound(d[..n]);
    PowSucc(n);
    ScaledTop(v, m, B, rem);
    assert s == s[..n] + [s[n]];
    ValSnoc(s[..n], s[n]);
    ValBound(s[..n]);
    DivisorArith(Val(d[..n]), v, p, m, rem, B, k, Val(s[..n]), s[n]);
  }

  lemma {:induction false} PowSucc(n: nat)
    ensures Pow(n + 1) == Pow(n) * B
  {
  }

  lemma {:induction false} DivisorArith(lo: nat, v: nat, p: nat, m: nat, rem: nat, b: nat, k: nat, slo: nat, st: nat)
    requires lo < p && b >= 1 && m >= 1 && b == m * (v + 1) + rem && slo < p && 2 * (v * m) >= b
    requires slo + st * p + k * (p * b) == (lo + v * p) * m
    ensures k == 0 && 2 * st >= b
  {
    ProductFits(lo, v, p, m, rem, b);
    if k > 0 {
      MulMono(1, k, p * b);
      assert false;
    }
    ProductTop(lo, v, p, m, slo, st);
  }

  lemma {:induction false} ProductFits(lo: nat, v: nat, p: nat, m: nat, rem: nat, b: nat)
    requires lo < p && m >= 1 && b == m * (v + 1) + rem
    ensures (lo + v * p) * m < p * b
  {
    MulDist(v, 1, p);
    MulStrict(lo + v * p, (v + 1) * p, m);
    assert (v + 1) * p * m == m * (v + 1) * p by { MulAssoc(m, v + 1, p); }
    MulMono(m * (v + 1), b, p);
  }

  lemma {:induction false} ProductTop(lo: nat, v: nat, p: nat, m: nat, slo: nat, st: nat)
    requires slo < p && slo + st * p == (lo + v * p) * m
    ensures st >= v * m
  {
    MulDist(lo, v * p, m);
    assert v * p * m == v * m * p by { MulAssoc(v, p, m); MulAssoc(v, m, p); }
    if st < v * m {
      MulMono(st + 1, v * m, p);
      MulDist(st, 1, p);
    }
  }

  /** The smallest power of two that brings b to half of the word: 1 << clz(b). */
  method Normalizer(b: nat, w: nat) returns (p: nat, ghost m: nat)
    requires 1 <= b < w && PowerOfTwo(w)
    ensures w == p * m && p >= 1 && b * p < w <= 2 * (b * p)
  {
    p, m := 1, w;
    while 2 * (b * p) < w
      invariant w == p * m && p >= 1 && m >= 1 && b * p < w && PowerOfTwo(m)
      decreases w - p
    {
      Halved(b, p, m, w);
      p, m := 2 * p, m / 2;
    }
  }

  ghost predicate PowerOfTwo(w: nat) {
    w == 1 || (w >= 2 && w % 2 == 0 && PowerOfTwo(w / 2))
  }

  lemma {:induction false} Halved(b: nat, p: nat, m: nat, w: nat)
    requires b >= 1 && p >= 1 && w == p * m && 2 * (b * p) < w && PowerOfTwo(m)
    ensures m >= 2 && m % 2 == 0 && PowerOfTwo(m / 2) && w == 2 * p * (m / 2) && b * (2 * p) < w && p < w
  {
    if m == 1 {
      MulMono(1, b, p);
      assert false;
    }
    var h := m / 2;
    assert p * (2 * h) == 2 * p * h by { MulAssoc(p, 2, h); }
    assert b * (2 * p) == 2 * (b * p) by { MulAssoc(b, 2, p); MulAssoc(2, b, p); }
    MulMono(1, b, p);
  }

  /** One limb of a division by b, through the inverse of b * p, a normalized word. */
  method ShiftedDigit(r0: nat, x: Limb, b: nat, p: nat, ghost m: nat, bInv: nat, w: nat) returns (q: Limb, r: nat)
    requires r0 < b && 1 <= b < B < w && p >= 1 && w == p * m && b * p < w <= 2 * (b * p) && IsInverse(b * p, bInv, w)
    ensures x + B * r0 == q * b + r && r < b
  {
    hide IsInverse;
    var t: nat := r0 * B + x;
    DoubleLimbBound(r0, x, b, B);
    var t1, t0 := DivRem(t, w);
    var h, g := DivRem(t0 * p, w);
    var u1, u0 := t1 * p + h, g;
    ShiftedWords(t, t1, t0, p, w, h, g, b);
    var q', r' := Udiv1Norm(u1, u0, b * p, bInv, w);
    UnshiftedRemainder(t, p, b, q', r');
    QuotientBound(t, b, B, q', t - q' * b);
    var r1, z := DivRem(r', p);
    DivUnique(r1, z, t - q' * b, 0, p);
    q, r := q', r1;
  }

  lemma {:induction false} ShiftedWords(t: nat, t1: nat, t0: nat, p: nat, w: nat, h: nat, g: nat, b: nat)
    requires p >= 1 && t == t1 * w + t0 && t0 * p == h * w + g && g < w && t < b * B && B < w
    ensures t * p == (t1 * p + h) * w + g && t1 * p + h < b * p
  {
    MulDist(t1 * w, t0, p);
    assert t1 * w * p == t1 * p * w by { MulAssoc(t1, w, p); MulAssoc(t1, p, w); }
    MulDist(t1 * p, h, w);
    MulMono(B, w, b);
    MulStrict(t, b * w, p);
    assert b * w * p == b * p * w by { MulAssoc(b, w, p); MulAssoc(b, p, w); }
    if t1 * p + h >= b * p {
      MulMono(b * p, t1 * p + h, w);
    }
  }

  lemma {:induction false} UnshiftedRemainder(t: nat, p: nat, b: nat, q: nat, r: nat)
    requires p >= 1 && t * p == q * (b * p) + r && r < b * p
    ensures 0 <= t - q * b < b && r == (t - q * b) * p
  {
    assert q * (b * p) == q * b * p by { MulAssoc(q, b, p); }
    MulDist(t, q * b, p);
    var d := t - q * b;
    if d < 0 {
      MulMono(d, -1, p);
    }
    if d >= b {
      MulMono(b, d, p);
    }
  }

  /** One limb of a division by b, by the machine's division. */
  method PlainDigit(r0: nat, x: Limb, b: nat) returns (q: Limb, r: nat)
    requires r0 < b
    ensures x + B * r0 == q * b + r && r < b
  {
    var q', r' := DivRem(r0 * B + x, b);
    DoubleLimbBound(r0, x, b, B);
    QuotientBound(r0 * B + x, b, B, q', r');
    q, r := q', r';
  }

  method HalfDigit(t0: Limb, carry: Limb, ghost rem: nat) returns (q: Limb, carry': Limb, ghost rem': nat)
    requires B % 2 == 0 && rem <= 1 && carry == (if rem == 1 then B / 2 else 0)
    ensures rem' <= 1 && carry' == (if rem' == 1 then B / 2 else 0) && t0 + B * rem == q * 2 + rem'
  {
    q := t0 / 2 + carry;
    carry' := if t0 % 2 == 1 then B / 2 else 0;
    rem' := t0 % 2;
  }

  /** Division by two: half of the radix stands for the remainder of the limb above. */
  method HalveDec(tabr: array<Limb>, ro: nat, taba: array<Limb>, ao: nat, n: nat, r0: nat) returns (r: nat)
    requires ro + n <= tabr.Length && ao + n <= taba.Length && (tabr == taba ==> ro == ao) && r0 <= 1 && B % 2 == 0
    modifies tabr
    ensures OnlyRange(tabr, ro, n) && r <= 1
    ensures DivMod(old(Val(taba[ao..ao + n] + [r0])), Val(tabr[ro..ro + n]), 2, r)
  {
    hide Val, Pow, DivMod;
    ghost var s := taba[ao..ao + n] + [r0];
    var half := B / 2;
    var carry: Limb := if r0 != 0 then half else 0;
    DivModStart(r0, 2);
    assert s[n..] == [r0] && tabr[ro + n..ro + n] == [];
    ghost var rem: nat := r0;
    for i := n downto 0
      invariant rem <= 1 && carry == (if rem == 1 then half else 0) && OnlyRange(tabr, ro + i, n - i)
      invariant forall j :: 0 <= j < i ==> taba[ao + j] == s[j]
      invariant DivMod(Val(s[i..]), Val(tabr[ro + i..ro + n]), 2, rem)
    {
      ghost var hi, r1 := tabr[ro + i + 1..ro + n], rem;
      var q: Limb;
      q, carry, rem := HalfDigit(taba[ao + i], carry, rem);
      NextDigit(s[i + 1..], s[i], hi, q, 2, r1, rem);
      tabr[ro + i] := q;
      assert tabr[ro + i..ro + n] == [q] + hi && s[i..] == [s[i]] + s[i + 1..];
    }
    assert s[0..] == s;
    r := if carry != 0 then 1 else 0;
  }

  /** mp_div1_dec: tabr[] = (taba[] + r0 * base^n) / b for any non-zero limb b; returns the remainder. */
  method MpDiv1Dec(tabr: array<Limb>, ro: nat, taba: array<Limb>, ao: nat, n: nat, b: Limb, r0: Limb, w: nat) returns (r: Limb)
    requires ro + n <= tabr.Length && ao + n <= taba.Length && (tabr == taba ==> ro == ao) && r0 < b
    requires B % 2 == 0 && B < w && PowerOfTwo(w)
    modifies tabr
    ensures OnlyRange(tabr, ro, n)
    ensures DivMod(old(Val(taba[ao..ao + n] + [r0])), Val(tabr[ro..ro + n]), b, r)
  {
    hide Val, Pow, DivMod, IsInverse, PowerOfTwo;
    if b == 2 {
      var h := HalveDec(tabr, ro, taba, ao, n, r0);
      return h;
    }
    ghost var s := taba[ao..ao + n] + [r0];
    var useInv, p: nat, bInv: nat := n >= 3, 1, 0;
    ghost var m: nat := w;
    if useInv {
      p, m := Normalizer(b, w);
      bInv := Udiv1NormInit(b * p, w);
    }
    r := r0;
    DivModStart(r0, b);
    assert s[n..] == [r0] && tabr[ro + n..ro + n] == [];
    for i := n downto 0
      invariant r < b && OnlyRange(tabr, ro + i, n - i)
      invariant forall j :: 0 <= j < i ==> taba[ao + j] == s[j]
      invariant DivMod(Val(s[i..]), Val(tabr[ro + i..ro + n]), b, r)
    {
      ghost var hi, r1 := tabr[ro + i + 1..ro + n], r;
      var q: Limb, r': nat;
      if useInv {
        q, r' := ShiftedDigit(r, taba[ao + i], b, p, m, bInv, w);
      } else {
        q, r' := PlainDigit(r, taba[ao + i], b);
      }
      r := r';
      NextDigit(s[i + 1..], s[i], hi, q, b, r1, r);
      tabr[ro + i] := q;
      assert tabr[ro + i..ro + n] == [q] + hi && s[i..] == [s[i]] + s[i + 1..];
    }
    assert s[0..] == s;
  }

  /** The digit tried first. */
  method TrialDec(w1: Limb, w0: Limb, b1: Limb) returns (q: Limb, ghost rr: nat)
    requires b1 >= 1
    ensures if w1 >= b1 then q == B - 1 else w1 * B + w0 == q * b1 + rr && rr < b1
  {
    if w1 >= b1 {
      q, rr := B - 1, 0;
    } else {
      var q', r := PlainDigit(w1, w0, b1);
      q, rr := q', r;
    }
  }

  /** One quotient digit: the window taba[o..o+nb] is reduced modulo the divisor in place. */
  method DecDigit(taba: array<Limb>, o: nat, tabb: array<Limb>, bo: nat, nb: nat, c: DecWord) returns (q: Limb, ghost backs: nat)
    requires taba != tabb && o + nb < taba.Length && bo + nb <= tabb.Length && Normalized(tabb[bo..bo + nb]) && DecOk(c)
    requires Val(taba[o + 1..o + 1 + nb]) < Val(tabb[bo..bo + nb])
    modifies taba
    ensures OnlyRange(taba, o, nb + 1) && backs <= 2
    ensures old(Val(taba[o..o + nb + 1])) == q * Val(tabb[bo..bo + nb]) + Val(taba[o..o + nb])
    ensures Val(taba[o..o + nb]) < Val(tabb[bo..bo + nb])
  {
    hide Val, Pow, Signed, DecOk;
    ghost var s, d := taba[o..o + nb], tabb[bo..bo + nb];
    var v := taba[o + nb];
    assert taba[o..o + nb + 1] == s + [v];
    ghost var rr;
    assert d[nb - 1] == tabb[bo + nb - 1];
    q, rr := TrialDec(v, taba[o + nb - 1], tabb[bo + nb - 1]);
    assert s + [v] == [s[0]] + taba[o + 1..o + 1 + nb];
    TrialWindow(s, v, taba[o + 1..o + 1 + nb], d, q, rr);
    var r := MpSubMul1Dec(taba, o, tabb, bo, nb, q, c);
    WordAbove(c);
    var a, k := SubColumn(v, r, 0, c.w);
    assert a == SubWrap(v, r) && (k == 1 <==> a > v);
    SubTop(s, v, taba[o..o + nb], r, Val(d) * q);
    taba[o + nb] := a;
    SignedSign(taba[o..o + nb], a, a > v);
    backs := 0;
    if k != 0 {
      q, backs := DecAddBacks(taba, o, tabb, bo, nb, q, Val(s + [v]), c.w);
    } else {
      FitsLow(taba[o..o + nb], a, Val(d), d);
    }
  }

  /**
  The correction loop: adds the divisor back until the top limb of the window reaches the radix.
  That limb is not read again; the model stores zero in it.
  */
  method DecAddBacks(taba: array<Limb>, o: nat, tabb: array<Limb>, bo: nat, nb: nat, q0: Limb, ghost a: nat, w: nat)
      returns (q: Limb, ghost backs: nat)
    requires taba != tabb && o + nb < taba.Length && bo + nb <= tabb.Length && B < w
    requires Signed(taba[o..o + nb], taba[o + nb], true) == a - Val(tabb[bo..bo + nb]) * q0
    requires -2 * Val(tabb[bo..bo + nb]) <= a - q0 * Val(tabb[bo..bo + nb])
    modifies taba
    ensures OnlyRange(taba, o, nb + 1) && backs <= 2
    ensures a == q * Val(tabb[bo..bo + nb]) + Val(taba[o..o + nb])
    ensures Val(taba[o..o + nb]) < Val(tabb[bo..bo + nb])
  {
    hide Val, Pow, Signed;
    ghost var d := Val(tabb[bo..bo + nb]);
    q, backs := q0, 0;
    var neg := true;
    SignedSign(taba[o..o + nb], taba[o + nb], true);
    while neg
      invariant tabb[bo..bo + nb] == old(tabb[bo..bo + nb])
      invariant OnlyRange(taba, o, nb + 1) && backs + q == q0
      invariant Signed(taba[o..o + nb], taba[o + nb], neg) == a - d * q < d
      invariant neg <==> a - d * q < 0
      invariant !neg ==> taba[o + nb] == 0
      invariant backs <= 2 && (backs - 2) * d <= a - d * q
      decreases q
    {
      ghost var low, top := taba[o..o + nb], taba[o + nb];
      AddBackCount(a, d, q, backs);
      q := q - 1;
      backs := backs + 1;
      var k := MpAddDec(taba, o, taba, o, tabb, bo, nb, 0, w);
      AddBack(low, top, taba[o..o + nb], k, d);
      if k != 0 {
        var up: nat := taba[o + nb];
        if up + 1 == B {
          taba[o + nb] := 0;
          neg := false;
        } else {
          taba[o + nb] := up + 1;
        }
      }
      SignedSign(taba[o..o + nb], taba[o + nb], neg);
    }
    SignedSign(taba[o..o + nb], taba[o + nb], false);
  }

  /** The first quotient limb of a normalized divisor, 0 or 1. */
  method DecFirst(taba: array<Limb>, o: nat, tabb: array<Limb>, bo: nat, nb: nat, w: nat) returns (q: Limb)
    requires taba != tabb && o + nb <= taba.Length && bo + nb <= tabb.Length && B < w && Normalized(tabb[bo..bo + nb])
    modifies taba
    ensures OnlyRange(taba, o, nb) && q <= 1
    ensures DivMod(old(Val(taba[o..o + nb])), Val([q]), Val(tabb[bo..bo + nb]), Val(taba[o..o + nb]))
  {
    hide Val, Pow, DivMod;
    ghost var s, d := taba[o..o + nb], tabb[bo..bo + nb];
    var c := MpCmp(taba, o, tabb, bo, nb);
    q := if c < 0 then 0 else 1;
    var k := 0;
    if q != 0 {
      k := MpSubDec(taba, o, taba, o, tabb, bo, nb, 0, w);
    }
    FirstDigit(s, d, q, taba[o..o + nb], k);
  }

  /** One column of the division loop. */
  method DecColumn(tabq: array<Limb>, qo: nat, taba: array<Limb>, ao: nat, tabb: array<Limb>, bo: nat, nb: nat, ghost n: nat, i: nat,
                   c: DecWord, ghost s: seq<Limb>)
    requires tabq != taba && tabq != tabb && taba != tabb && 1 <= nb && i < n && DecOk(c)
    requires qo + n <= tabq.Length && i + nb < |s| && ao + |s| <= taba.Length && bo + nb <= tabb.Length
    requires Normalized(tabb[bo..bo + nb]) && taba[ao + i] == s[i]
    requires DivMod(Val(s[i + 1..]), Val(tabq[qo + i + 1..qo + n]), Val(tabb[bo..bo + nb]), Val(taba[ao + i + 1..ao + i + 1 + nb]))
    modifies tabq, taba
    ensures OnlyRange(tabq, qo + i, 1) && OnlyRange(taba, ao + i, nb + 1)
    ensures DivMod(Val(s[i..]), Val(tabq[qo + i..qo + n]), Val(tabb[bo..bo + nb]), Val(taba[ao + i..ao + i + nb]))
  {
    hide Val, Pow, DecOk;
    ghost var d, r := tabb[bo..bo + nb], taba[ao + i + 1..ao + i + 1 + nb];
    ghost var hi := tabq[qo + i + 1..qo + n];
    SliceCons(taba, ao + i, ao + i + nb + 1);
    ValCons(s[i], r);
    var q, backs := DecDigit(taba, ao + i, tabb, bo, nb, c);
    NextDigit(s[i + 1..], s[i], hi, q, Val(d), Val(r), Val(taba[ao + i..ao + i + nb]));
    tabq[qo + i] := q;
    SliceCons(tabq, qo + i, qo + n);
    assert s[i..] == [s[i]] + s[i + 1..];
  }

  /** The columns from top - 1 down; n quotient limbs in all, of which those from top on are known. */
  method DecColumns(tabq: array<Limb>, qo: nat, taba: array<Limb>, ao: nat, tabb: array<Limb>, bo: nat, nb: nat, n: nat, top: nat,
                    c: DecWord, ghost s: seq<Limb>)
    requires tabq != taba && tabq != tabb && taba != tabb && 1 <= nb && top <= n && DecOk(c)
    requires qo + n <= tabq.Length && |s| == top + nb && ao + |s| <= taba.Length && bo + nb <= tabb.Length && Normalized(tabb[bo..bo + nb])
    requires forall j :: 0 <= j < top ==> taba[ao + j] == s[j]
    requires DivMod(Val(s[top..]), Val(tabq[qo + top..qo + n]), Val(tabb[bo..bo + nb]), Val(taba[ao + top..ao + top + nb]))
    modifies tabq, taba
    ensures OnlyRange(tabq, qo, top) && OnlyRange(taba, ao, top + nb)
    ensures DivMod(Val(s), Val(tabq[qo..qo + n]), Val(tabb[bo..bo + nb]), Val(taba[ao..ao + nb]))
  {
    hide Val, Pow, DivMod, DecOk;
    ghost var d := tabb[bo..bo + nb];
    for i := top downto 0
      invariant tabb[bo..bo + nb] == d && OnlyRange(tabq, qo + i, top - i) && OnlyRange(taba, ao + i, top + nb - i)
      invariant DivMod(Val(s[i..]), Val(tabq[qo + i..qo + n]), Val(d), Val(taba[ao + i..ao + i + nb]))
    {
      DecColumn(tabq, qo, taba, ao, tabb, bo, nb, n, i, c, s);
    }
    assert s[0..] == s;
  }

  lemma {:induction false} NoQuotient(a: nat, d: nat)
    requires a < d
    ensures DivMod(a, Val([]), d, a)
  {
  }

  /** A scaled division gives the quotient, and the remainder scaled. */
  lemma {:induction false} Unscaled(a: nat, q: nat, d: nat, m: nat, r: nat, r': nat, rem: nat)
    requires m >= 1 && DivMod(a * m, q, d * m, r) && DivMod(r, r', m, rem)
    ensures DivMod(a, q, d, r')
  {
    assert q * (d * m) == q * d * m by { MulAssoc(q, d, m); }
    MulDist(a, q * d, m);
    DivUnique(a - q * d, 0, r', rem, m);
    if r' >= d {
      MulMono(d, r', m);
    }
  }

  /** The top of the scaled dividend is below the scaled divisor. */
  lemma {:induction false} ScaledTopBelow(s: seq<Limb>, n: nat, a: nat, na: nat, d: nat, m: nat, nb: nat)
    requires 1 <= nb <= na && n == na + 1 - nb && |s| == na + 1 && Val(s) == a * m && a < Pow(na) && d >= Pow(nb - 1) && m >= 1
    ensures Val(s[n..]) < d * m
  {
    hide Val, Pow;
    ValSplit(s, n);
    PowAdd(n, nb - 1);
    BelowArith(Val(s[..n]), Val(s[n..]), Pow(n), a, m, Pow(nb - 1), d);
  }

  lemma {:induction false} BelowArith(lo: nat, h: nat, p: nat, a: nat, m: nat, t: nat, d: nat)
    requires lo + p * h == a * m && a < p * t && t <= d && m >= 1
    ensures h < d * m
  {
    MulStrict(a, p * t, m);
    MulMono(t, d, p);
    MulMono(p * t, p * d, m);
    MulAssoc(p, d, m);
    if h >= d * m {
      MulMono(d * m, h, p);
    }
  }

  lemma {:induction false} TopNonZero(d: seq<Limb>)
    requires |d| >= 1 && d[|d| - 1] >= 1
    ensures Val(d) >= Pow(|d| - 1)
  {
    MulMono(1, d[|d| - 1], Pow(|d| - 1));
  }

  /** The limbs of the dividend that are used: one more when it has to be scaled. */
  function Used(na: nat, top: Limb): nat {
    if 2 * top >= B then na else na + 1
  }

  /**
  mp_div_dec: tabq[0..na-nb] = taba[0..na-1] / tabb[0..nb-1], and the remainder replaces the low nb
  limbs of taba. Only the top limb of the divisor must not be zero; unless it is at least B / 2,
  taba[na] is scratch.
  */
  method MpDivDec(tabq: array<Limb>, qo: nat, taba: array<Limb>, ao: nat, na: nat, tabb1: array<Limb>, bo: nat, nb: nat, c: DecWord)
    requires B % 2 == 0 && DecOk(c) && PowerOfTwo(c.w)
    requires tabq != taba && tabq != tabb1 && taba != tabb1 && 1 <= nb <= na
    requires qo + (na - nb) + 1 <= tabq.Length && bo + nb <= tabb1.Length && tabb1[bo + nb - 1] != 0
    requires ao + Used(na, tabb1[bo + nb - 1]) <= taba.Length
    modifies tabq, taba
    ensures OnlyRange(tabq, qo, na - nb + 1) && OnlyRange(taba, ao, Used(na, tabb1[bo + nb - 1]))
    ensures DivMod(old(Val(taba[ao..ao + na])), Val(tabq[qo..qo + (na - nb) + 1]), Val(tabb1[bo..bo + nb]), Val(taba[ao..ao + nb]))
  {
    hide DecOk, PowerOfTwo, Val, Pow, DivMod;
    var r := tabb1[bo + nb - 1];
    if 2 * r >= B {
      DivNormalized(tabq, qo, taba, ao, na, tabb1, bo, nb, c);
    } else {
      DivScaled(tabq, qo, taba, ao, na, tabb1, bo, nb, c);
    }
  }

  /** The divisor is normalized already: the first digit is 0 or 1. */
  method DivNormalized(tabq: array<Limb>, qo: nat, taba: array<Limb>, ao: nat, na: nat, tabb: array<Limb>, bo: nat, nb: nat, c: DecWord)
    requires DecOk(c) && tabq != taba && tabq != tabb && taba != tabb && 1 <= nb <= na
    requires qo + (na - nb) + 1 <= tabq.Length && bo + nb <= tabb.Length && ao + na <= taba.Length && 2 * tabb[bo + nb - 1] >= B
    modifies tabq, taba
    ensures OnlyRange(tabq, qo, na - nb + 1) && OnlyRange(taba, ao, na)
    ensures DivMod(old(Val(taba[ao..ao + na])), Val(tabq[qo..qo + (na - nb) + 1]), Val(tabb[bo..bo + nb]), Val(taba[ao..ao + nb]))
  {
    hide DecOk, Val, Pow, DivMod;
    ghost var s := taba[ao..ao + na];
    var n := na - nb;
    assert tabb[bo..bo + nb][nb - 1] == tabb[bo + nb - 1];
    WordAbove(c);
    assert s[n..] == taba[ao + n..ao + n + nb];
    var q := DecFirst(taba, ao + n, tabb, bo, nb, c.w);
    tabq[qo + n] := q;
    assert tabq[qo + n..qo + n + 1] == [q];
    DecColumns(tabq, qo, taba, ao, tabb, bo, nb, n + 1, n, c, s);
  }

  /** Scales divisor and dividend, divides, and scales the remainder back. */
  method DivScaled(tabq: array<Limb>, qo: nat, taba: array<Limb>, ao: nat, na: nat, tabb1: array<Limb>, bo: nat, nb: nat, c: DecWord)
    requires B % 2 == 0 && DecOk(c) && PowerOfTwo(c.w) && tabq != taba && tabq != tabb1 && taba != tabb1 && 1 <= nb <= na
    requires qo + (na - nb) + 1 <= tabq.Length && bo + nb <= tabb1.Length && ao + na + 1 <= taba.Length
    requires 0 < tabb1[bo + nb - 1] && 2 * tabb1[bo + nb - 1] < B
    modifies tabq, taba
    ensures OnlyRange(tabq, qo, na - nb + 1) && OnlyRange(taba, ao, na + 1)
    ensures DivMod(old(Val(taba[ao..ao + na])), Val(tabq[qo..qo + (na - nb) + 1]), Val(tabb1[bo..bo + nb]), Val(taba[ao..ao + nb]))
  {
    hide Val, Pow, DivMod, Normalized, DecOk, PowerOfTwo;
    ghost var a, d := taba[ao..ao + na], tabb1[bo..bo + nb];
    var mult, tabb := ScaleDown(tabb1, bo, nb, c);
    ScaleUp(taba, ao, na, mult, c);
    var n := na + 1 - nb;
    ghost var s := taba[ao..ao + na + 1];
    ValBound(a);
    assert d[nb - 1] == tabb1[bo + nb - 1];
    TopNonZero(d);
    ScaledTopBelow(s, n, Val(a), na, Val(d), mult, nb);
    assert s[n..] == taba[ao + n..ao + n + nb] && tabq[qo + n..qo + n] == [] && tabb[0..0 + nb] == tabb[..nb];
    NoQuotient(Val(s[n..]), Val(tabb[0..0 + nb]));
    DecColumns(tabq, qo, taba, ao, tabb, 0, nb, n, n, c, s);
    ghost var rs := Val(taba[ao..ao + nb]);
    WordAbove(c);
    ghost var low := taba[ao..ao + nb];
    var z := MpDiv1Dec(taba, ao, taba, ao, nb, mult, 0, c.w);
    TopZero(low);
    Unscaled(Val(a), Val(tabq[qo..qo + n]), Val(d), mult, rs, Val(taba[ao..ao + nb]), z);
  }

  lemma {:induction false} TopZero(s: seq<Limb>)
    ensures Val(s + [0]) == Val(s)
  {
    hide Val;
    ValSnoc(s, 0);
  }

  /** The multiplier, and the divisor multiplied by it. */
  method ScaleDown(tabb1: array<Limb>, bo: nat, nb: nat, c: DecWord) returns (mult: Limb, tabb: array<Limb>)
    requires B % 2 == 0 && DecOk(c) && nb >= 1 && bo + nb <= tabb1.Length && 0 < tabb1[bo + nb - 1] && 2 * tabb1[bo + nb - 1] < B
    ensures fresh(tabb) && tabb.Length == nb && mult >= 1
    ensures Val(tabb[..nb]) == Val(tabb1[bo..bo + nb]) * mult && Normalized(tabb[..nb])
  {
    hide Val, Pow, Normalized, DecOk;
    ghost var d := tabb1[bo..bo + nb];
    var r := tabb1[bo + nb - 1];
    assert d[nb - 1] == r;
    var q, rem := DivRem(B, r + 1);
    MultFits(q, r, rem, B);
    mult := q;
    tabb := new Limb[nb];
    var k := MpMul1Dec(tabb, 0, tabb1, bo, nb, mult, 0, c);
    assert tabb[0..0 + nb] == tabb[..nb];
    ScaledDivisor(d, mult, rem, tabb[..nb], k);
  }

  /** The dividend multiplied in place, with one limb more. */
  method ScaleUp(taba: array<Limb>, ao: nat, na: nat, mult: Limb, c: DecWord)
    requires ao + na + 1 <= taba.Length && DecOk(c)
    modifies taba
    ensures OnlyRange(taba, ao, na + 1) && Val(taba[ao..ao + na + 1]) == old(Val(taba[ao..ao + na])) * mult
  {
    hide Val, Pow, DecOk;
    var h := MpMul1Dec(taba, ao, taba, ao, na, mult, 0, c);
    ghost var low := taba[ao..ao + na];
    taba[ao + na] := h;
    assert taba[ao..ao + na + 1] == low + [h];
    ValSnoc(low, h);
  }

  lemma {:induction false} MultFits(m: nat, v: nat, rem: nat, b: nat)
    requires b == m * (v + 1) + rem && rem < v + 1 && 2 * v < b && v >= 1
    ensures 1 <= m < b && rem <= v
  {
    if m == 0 {
      assert false;
    }
    MulMono(2, v + 1, m);
  }
}
