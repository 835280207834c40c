/** Karatsuba square root of a limb vector, in place. */
module VectorSqrt {
  import opened Arith
  import opened Limbs
  import opened LimbOps
  import opened LimbDivision
  import opened VectorDivision
  import opened LargeDivision
  import opened WordSqrt
  import Reciprocal

  /** Square roots exist for binary limbs only: 32 or 64 bits. */
  predicate BinaryLimbs() {
    B == 0x1_0000_0000 || B == 0x1_0000_0000_0000_0000
  }

  /** Half a limb: 2^(LIMB_BITS/2). */
  function HalfRadix(): (m: nat)
    requires BinaryLimbs()
    ensures m * m == B && 2 <= m
  {
    if B == 0x1_0000_0000 then 0x1_0000 else 0x1_0000_0000
  }

  /** The root of one limb whose two top bits are not both clear. */
  method SqrtRem1(a: Limb) returns (s: nat, r: nat)
    requires BinaryLimbs() && 4 * a >= B
    ensures IsSqrtRem(a, s, r) && s < HalfRadix() <= 2 * s
  {
    if B == 0x1_0000_0000 {
      s, r := Sqrt32(a);
    } else {
      s, r := Sqrt64(a);
    }
  }

  /** s is the root of a, and r, with high limb rh, the remainder. */
  ghost predicate RootOf(a: seq<Limb>, s: seq<Limb>, r: seq<Limb>, rh: int) {
    IsSqrtRem(Val(a), Val(s), Val(r) + rh * Pow(|r|)) && 0 <= rh <= 1
  }

  /** A radicand whose two top bits are not both clear. */
  ghost predicate RadicandOk(a: seq<Limb>) {
    |a| >= 1 && 4 * a[|a| - 1] >= B
  }

  /** The root of two limbs: one doubling step in double-limb arithmetic, with the q = 2^l case apart. */
  method SqrtRem2(tabs: array<Limb>, so: nat, taba: array<Limb>, ao: nat) returns (rh: int)
    requires BinaryLimbs() && tabs != taba && so < tabs.Length && ao + 2 <= taba.Length
    requires 4 * taba[ao + 1] >= B
    modifies tabs, taba
    ensures OnlyRange(tabs, so, 1) && OnlyRange(taba, ao, 2)
    ensures RootOf(old(taba[ao..ao + 2]), tabs[so..so + 1], taba[ao..ao + 1], rh)
  {
    hide IsSqrtRem, RootOf, Val, Pow;
    ghost var a := taba[ao..ao + 2];
    var a0, a1 := taba[ao], taba[ao + 1];
    var s1, r1 := SqrtRem1(a1);
    var s, lo;
    s, lo, rh := DoubleRoot2(a1, a0, s1, r1);
    tabs[so] := s;
    taba[ao] := lo;
    TwoLimbs(a, a0, a1);
    OneLimbRoot(a, s, lo, rh);
    assert tabs[so..so + 1] == [s] && taba[ao..ao + 1] == [lo];
  }

  method DoubleRoot2(a1: Limb, a0: Limb, s1: nat, r1: nat) returns (s: Limb, lo: Limb, rh: int)
    requires BinaryLimbs() && IsSqrtRem(a1, s1, r1) && s1 < HalfRadix() <= 2 * s1
    ensures IsSqrtRem(a1 * B + a0, s, lo + rh * B) && 0 <= rh <= 1
  {
    hide IsSqrtRem;
    var m := HalfRadix();
    var c1, c0 := DivRem(a0, m);
    QuotientBound(a0, m, m, c1, c0);
    var q, u := DivRem(r1 * m + c1, 2 * s1);
    SqrtStep(a1, s1, r1, c1, c0, m, q, u);
    TwoHalves(a1, c1, c0, m, B);
    var r: int := u * m + c0 - (if q >= m then B else q * q);
    ghost var root := s1 * m + q;
    RootFits(a1, a0, s1, q, m, r, B);
    s := AddWrap(s1 * m, q);
    if r < 0 {
      s := SubWrap(s, 1);
      r := r + 2 * s + 1;
    }
    SplitRemainder(s, r, a1 * B + a0, B);
    lo, rh := if r < B then r else r - B, if r < B then 0 else 1;
  }

  lemma TwoHalves(a1: nat, c1: nat, c0: nat, m: nat, b: nat)
    requires m * m == b
    ensures (a1 * m + c1) * m + c0 == a1 * b + (c1 * m + c0)
  {
    MulDist(a1 * m, c1, m);
    MulAssoc(a1, m, m);
  }

  lemma RootFits(a1: nat, a0: nat, s1: nat, q: nat, m: nat, r: int, b: nat)
    requires m * m == b && 2 <= m && s1 < m && q <= m && a1 < b && a0 < b
    requires r >= 0 ==> IsSqrtRem(a1 * b + a0, s1 * m + q, r)
    ensures s1 * m < b && q < b && s1 * m + q <= b
    ensures r >= 0 ==> s1 * m + q < b
    ensures q >= m ==> q * q == b
  {
    MulMono(s1 + 1, m, m);
    MulDist(s1, 1, m);
    MulMono(2, m, m);
    DoubleLimbBound(a1, a0, b, b);
  }

  lemma SplitRemainder(s: nat, r: int, a: nat, b: nat)
    requires IsSqrtRem(a, s, r) && s < b
    ensures 0 <= r < 2 * b
  {
  }

  lemma {:induction false} TwoLimbs(a: seq<Limb>, a0: Limb, a1: Limb)
    requires a == [a0, a1]
    ensures Val(a) == a1 * B + a0
  {
    assert a == [a0] + [a1];
    ValCons(a0, [a1]);
    OneLimb([a1]);
  }

  lemma {:induction false} OneLimbRoot(a: seq<Limb>, s: Limb, lo: Limb, rh: int)
    requires IsSqrtRem(Val(a), s, lo + rh * B) && 0 <= rh <= 1
    ensures RootOf(a, [s], [lo], rh)
  {
    OneLimb([s]);
    OneLimb([lo]);
    assert Pow(1) == Pow(0) * B;
  }

  /** A normalized radicand has a normalized root. */
  lemma {:induction false} RootNormalized(a: seq<Limb>, s: seq<Limb>, r: int)
    requires BinaryLimbs() && RadicandOk(a) && |a| == 2 * |s| && |s| >= 1 && IsSqrtRem(Val(a), Val(s), r)
    ensures Normalized(s)
  {
    hide Val, Pow;
    var n := |s| - 1;
    assert a == a[..2 * n + 1] + [a[2 * n + 1]] && s == s[..n] + [s[n]];
    ValSnoc(a[..2 * n + 1], a[2 * n + 1]);
    ValSnoc(s[..n], s[n]);
    ValBound(s[..n]);
    PowAdd(n, n);
    PowAdd(2 * n, 1);
    PowOne();
    RootTop(Val(a), Val(s), r, a[2 * n + 1], s[n], Val(s[..n]), Pow(n), Pow(2 * n + 1), B);
  }

  lemma {:induction false} PowOne()
    ensures Pow(1) == B
  {
    assert Pow(1) == Pow(0) * B;
  }

  lemma RootTop(a: nat, s: nat, r: int, at: nat, st: nat, sl: nat, p: nat, pa: nat, b: nat)
    requires IsSqrtRem(a, s, r) && 4 * at >= b && at * pa <= a && pa == p * p * b && s == sl + st * p && sl < p
    requires b % 2 == 0
    ensures 2 * st >= b
  {
    hide IsSqrtRem;
    if 2 * st < b {
      var y := (st + 1) * p;
      RootBelow(a, s, r, st, sl, p);
      DoubleSquare(y, b * p, st + 1, p, b);
      RadicandSquare(a, at, p, pa, b);
    }
  }

  lemma RootBelow(a: nat, s: nat, r: int, st: nat, sl: nat, p: nat)
    requires IsSqrtRem(a, s, r) && s == sl + st * p && sl < p
    ensures a < ((st + 1) * p) * ((st + 1) * p)
  {
    MulDist(st, 1, p);
    SquareMono(s + 1, (st + 1) * p);
    SquareNext(s);
  }

  lemma DoubleSquare(y: nat, w: nat, t: nat, p: nat, b: nat)
    requires y == t * p && w == b * p && 2 * t <= b
    ensures 4 * (y * y) <= w * w
  {
    MulMono(2 * t, b, p);
    MulAssoc(2, t, p);
    SquareMono(2 * y, w);
    MulAssoc(2, y, 2 * y);
    MulAssoc(2, y, y);
  }

  lemma RadicandSquare(a: nat, at: nat, p: nat, pa: nat, b: nat)
    requires 4 * at >= b && at * pa <= a && pa == p * p * b
    ensures (b * p) * (b * p) <= 4 * a
  {
    MulMono(b, 4 * at, pa);
    MulAssoc(4, at, pa);
    MulAssoc(b * p, b, p);
    MulAssoc(b, p, b);
    MulAssoc(b, p * b, p);
    MulAssoc(p, p, b);
    assert b * pa == (b * p) * (b * p);
  }

  /** The quotient and remainder of x by 2*s1, with the parts that overflow their vectors. */
  ghost predicate HalfQuotient(x: int, s1: int, q: int, u: int) {
    x == q * (2 * s1) + u && 0 <= u < 2 * s1
  }

  /** Removing one s1 from a remainder that needs h limbs and one bit. */
  lemma {:induction false} DropHighBit(r1: seq<Limb>, qh: int, s1: seq<Limb>, d: seq<Limb>, k: int)
    requires |r1| == |s1| == |d| && 0 <= qh <= 1 && 0 <= k <= 1 && Val(r1) + qh * Pow(|r1|) <= 2 * Val(s1)
    requires if qh == 1 then Val(d) - k * Pow(|d|) == Val(r1) - Val(s1) - 0 else d == r1
    ensures Val(d) == Val(r1) + qh * Pow(|r1|) - qh * Val(s1)
  {
    hide Val, Pow;
    ValBound(d);
    ValBound(s1);
    ValBound(r1);
  }

  /** Dividing by s1 after removing qh*s1: t0 and its high limb tl are the rest of the quotient. */
  ghost predicate ByRoot(c1: int, m: int, rem1: int, qh: int, s1: int, t0: int, tl: int, u: int) {
    c1 + m * (rem1 - qh * s1) == (t0 + tl * m) * s1 + u && 0 <= u < s1
  }

  ghost function FullQuotient(t0: int, qh: int, tl: int, m: int): int {
    t0 + (qh + tl) * m
  }

  /** The exact quotient by s1, halved, is the quotient by 2*s1. */
  lemma HalveQuotient(c1: int, m: int, rem1: int, qh: int, s1: int, t0: int, tl: int, u: int, q: int, bit: int)
    requires ByRoot(c1, m, rem1, qh, s1, t0, tl, u)
    requires 2 * q + bit == FullQuotient(t0, qh, tl, m) && 0 <= bit <= 1
    ensures HalfQuotient(c1 + m * rem1, s1, q, u + bit * s1)
  {
    MulDist(rem1, qh * s1, m);
    MulDist(qh, tl, m);
    MulDist(t0 + tl * m, qh * m, s1);
    MulAssoc(qh, s1, m);
    MulAssoc(qh, m, s1);
    MulDist(2 * q, bit, s1);
    MulAssoc(2, q, s1);
    MulAssoc(q, 2, s1);
  }

  /**
  Divides the remainder of the high half, followed by l more limbs, by twice the root of the
  high half: by the root itself, then halving.
  */
  method SqrtDivide(tabs: array<Limb>, so: nat, taba: array<Limb>, ao: nat, l: nat, h: nat, tmp: array<Limb>, qh0: int)
    returns (qh: int, rh: int)
    requires BinaryLimbs() && tabs != taba && tmp != tabs && tmp != taba && 1 <= l <= h
    requires so + l + h <= tabs.Length && ao + 2 * l + h <= taba.Length && l + 1 <= tmp.Length
    requires Normalized(tabs[so + l..so + l + h]) && 0 <= qh0 <= 1
    requires Val(taba[ao + 2 * l..ao + 2 * l + h]) + qh0 * Pow(h) <= 2 * Val(tabs[so + l..so + l + h])
    modifies tabs, taba, tmp
    ensures OnlyRange(tabs, so, l) && OnlyRange(taba, ao + l, l + h) && 0 <= rh <= 1 && 0 <= qh <= 1
    ensures HalfQuotient(old(Val(taba[ao + l..ao + 2 * l])
                             + Pow(l) * (Val(taba[ao + 2 * l..ao + 2 * l + h]) + qh0 * Pow(h))),
                         old(Val(tabs[so + l..so + l + h])),
                         Val(tabs[so..so + l]) + qh * Pow(l),
                         Val(taba[ao + l..ao + l + h]) + rh * Pow(h))
  {
    hide Val, Pow, HalfQuotient, ByRoot, FullQuotient, HalfBit;
    ghost var c1, s1 := Val(taba[ao + l..ao + 2 * l]), Val(tabs[so + l..so + l + h]);
    ghost var rem1 := Val(taba[ao + 2 * l..ao + 2 * l + h]) + qh0 * Pow(h);
    SqrtByRoot(tabs, so, taba, ao, l, h, tmp, qh0);
    ghost var t0, tl, u := Val(tmp[0..l]), tmp[l], Val(taba[ao + l..ao + l + h]);
    qh, rh := SqrtHalve(tabs, so, taba, ao, l, h, tmp, qh0);
    HalfBitRange(FullQuotient(t0, qh0, tl, Pow(l)));
    HalveQuotient(c1, Pow(l), rem1, qh0, s1, t0, tl, u, Val(tabs[so..so + l]) + qh * Pow(l),
                  HalfBit(FullQuotient(t0, qh0, tl, Pow(l))));
  }

  lemma HalfBitRange(x: int)
    ensures 0 <= HalfBit(x) <= 1
  {
  }

  /** Divides by the root of the high half; tmp gets the quotient. */
  method SqrtByRoot(tabs: array<Limb>, so: nat, taba: array<Limb>, ao: nat, l: nat, h: nat, tmp: array<Limb>, qh0: int)
    requires tabs != taba && tmp != tabs && tmp != taba && 1 <= l <= h
    requires so + l + h <= tabs.Length && ao + 2 * l + h <= taba.Length && l + 1 <= tmp.Length
    requires Normalized(tabs[so + l..so + l + h]) && 0 <= qh0 <= 1
    requires Val(taba[ao + 2 * l..ao + 2 * l + h]) + qh0 * Pow(h) <= 2 * Val(tabs[so + l..so + l + h])
    modifies taba, tmp
    ensures OnlyRange(taba, ao + l, l + h) && tmp[l] <= 1
    ensures ByRoot(old(Val(taba[ao + l..ao + 2 * l])), Pow(l), old(Val(taba[ao + 2 * l..ao + 2 * l + h])) + qh0 * Pow(h),
                   qh0, Val(tabs[so + l..so + l + h]), Val(tmp[0..l]), tmp[l], Val(taba[ao + l..ao + l + h]))
  {
    hide Val, Pow, DivMod, ByRoot;
    ghost var c1, r1, s1 := taba[ao + l..ao + 2 * l], taba[ao + 2 * l..ao + 2 * l + h], tabs[so + l..so + l + h];
    DropBit(taba, ao + 2 * l, tabs, so + l, h, qh0);
    ghost var rho := taba[ao + 2 * l..ao + 2 * l + h];
    Kept(taba, ao + 2 * l, h, c1, ao + l);
    SliceSplit(taba, ao + l, ao + 2 * l, ao + l + (l + h));
    MpDivNorm(tmp, 0, taba, ao + l, l + h, tabs, so + l, h);
    ByRootValues(c1, rho, tmp[0..0 + (l + h - h) + 1], s1, Val(taba[ao + l..ao + l + h]), Val(r1) + qh0 * Pow(h), qh0);
    SubSlice(tmp, 0, l + 1, 0, l);
  }

  /** Subtracts the root once when the remainder has its extra bit set. */
  method DropBit(taba: array<Limb>, ro: nat, tabs: array<Limb>, so: nat, h: nat, qh: int)
    requires taba != tabs && ro + h <= taba.Length && so + h <= tabs.Length && 0 <= qh <= 1
    requires Val(taba[ro..ro + h]) + qh * Pow(h) <= 2 * Val(tabs[so..so + h])
    modifies taba
    ensures OnlyRange(taba, ro, h)
    ensures Val(taba[ro..ro + h]) == old(Val(taba[ro..ro + h])) + qh * Pow(h) - qh * Val(tabs[so..so + h])
  {
    hide Val, Pow;
    ghost var r1 := taba[ro..ro + h];
    var k := 0;
    if qh == 1 {
      k := MpSub(taba, ro, taba, ro, tabs, so, h, 0);
    }
    DropHighBit(r1, qh, tabs[so..so + h], taba[ro..ro + h], k);
  }

  lemma {:induction false} ByRootValues(c1: seq<Limb>, rho: seq<Limb>, t: seq<Limb>, s1: seq<Limb>, u: nat,
                                        rem1: int, qh: int)
    requires |t| == |c1| + 1 && DivMod(Val(c1 + rho), Val(t), Val(s1), u) && Val(rho) == rem1 - qh * Val(s1)
    ensures ByRoot(Val(c1), Pow(|c1|), rem1, qh, Val(s1), Val(t[..|c1|]), t[|c1|], u)
  {
    hide Val, Pow;
    ValConcat(c1, rho);
    assert t == t[..|c1|] + [t[|c1|]];
    ValSnoc(t[..|c1|], t[|c1|]);
  }

  function HalfBit(x: int): int {
    x % 2
  }

  /** Halves the quotient in tmp into tabs, adding the root back to the remainder when it was odd. */
  method SqrtHalve(tabs: array<Limb>, so: nat, taba: array<Limb>, ao: nat, l: nat, h: nat, tmp: array<Limb>, qh0: int)
    returns (qh: int, rh: int)
    requires BinaryLimbs() && tabs != taba && tmp != tabs && tmp != taba && 1 <= l <= h
    requires so + l + h <= tabs.Length && ao + l + h <= taba.Length && l + 1 <= tmp.Length
    requires 0 <= qh0 <= 1 && tmp[l] <= 1
    modifies tabs, taba
    ensures OnlyRange(tabs, so, l) && OnlyRange(taba, ao + l, h) && 0 <= rh <= 1 && 0 <= qh <= 1
    ensures var x := FullQuotient(Val(tmp[0..l]), qh0, tmp[l], Pow(l));
            2 * (Val(tabs[so..so + l]) + qh * Pow(l)) + HalfBit(x) == x &&
            Val(taba[ao + l..ao + l + h]) + rh * Pow(h)
            == old(Val(taba[ao + l..ao + l + h])) + HalfBit(x) * old(Val(tabs[so + l..so + l + h]))
  {
    hide Val, Pow, Shifted;
    ghost var s1 := tabs[so + l..so + l + h];
    var t := qh0 + tmp[l];
    Reciprocal.CopyLimbs(tabs, so, tmp, 0, l);
    var ql := MpShr(tabs, so, tabs, so, l, 2, B / 2, t % 2);
    qh := t / 2;
    ShiftedHalf(tabs[so..so + l], ql, tmp[0..l], t, qh);
    assert tabs[so + l..so + l + h] == s1;
    if ql != 0 {
      rh := MpAdd(taba, ao + l, taba, ao + l, tabs, so + l, h, 0);
    } else {
      rh := 0;
    }
  }

  lemma {:induction false} ShiftedHalf(q: seq<Limb>, ql: nat, t0: seq<Limb>, t: nat, qh: nat)
    requires ql < 2 && qh == t / 2 && |q| == |t0| && Shifted(q, ql, t0, 2, t % 2)
    ensures 2 * (Val(q) + qh * Pow(|q|)) + ql == Val(t0) + t * Pow(|q|)
    ensures ql == HalfBit(Val(t0) + t * Pow(|q|))
  {
    hide Val, Pow;
    var p := Pow(|q|);
    MulDist(2 * qh, t % 2, p);
    MulAssoc(2, qh, p);
    assert Val(t0) + t * p == 2 * (Val(q) + qh * p) + ql;
  }

  /** Subtracting from the low limbs and passing the borrow on. */
  lemma {:induction false} BorrowOn(lo: seq<Limb>, hi: seq<Limb>, lo': seq<Limb>, hi': seq<Limb>, x: int, c: int, k: Limb)
    requires |lo| == |lo'| && |hi| == |hi'|
    requires Val(lo') - c * Pow(|lo|) == Val(lo) - x
    requires Val(hi') - k * Pow(|hi|) == Val(hi) - c
    ensures Val(lo' + hi') - k * Pow(|lo| + |hi|) == Val(lo + hi) - x
  {
    hide Val, Pow;
    ValConcat(lo, hi);
    ValConcat(lo', hi');
    PowAdd(|lo|, |hi|);
    Reciprocal.SubPartsArith(Val(lo'), Val(hi'), Val(lo), Val(hi), x, c, k, Pow(|lo|), Pow(|hi|));
  }

  /** The low 2*l limbs of that subtraction; taba[n..n+2*l] is scratch. */
  method SquareLow(tabs: array<Limb>, so: nat, taba: array<Limb>, ao: nat, n: nat, l: nat, qh: Limb) returns (c: int)
    requires tabs != taba && 1 <= l && 2 * l <= n && so + l <= tabs.Length && ao + 2 * n <= taba.Length
    requires qh <= 1 && (qh == 1 ==> Val(tabs[so..so + l]) == 0)
    modifies taba
    ensures 0 <= c <= 1 && OnlyRange(taba, ao, 2 * n) && taba[ao + 2 * l..ao + n] == old(taba[ao + 2 * l..ao + n])
    ensures var q := Val(tabs[so..so + l]) + qh * Pow(l);
            Val(taba[ao..ao + 2 * l]) - c * Pow(2 * l) == old(Val(taba[ao..ao + 2 * l])) - q * q
  {
    hide Val, Pow, IsProduct;
    ghost var lo := taba[ao..ao + 2 * l];
    if qh == 1 {
      c := 1;
      PowAdd(l, l);
    } else {
      MpMulBasecase(taba, ao + n, tabs, so, l, tabs, so, l);
      Reciprocal.ProductValue(taba[ao + n..ao + n + l + l], tabs[so..so + l], tabs[so..so + l]);
      assert taba[ao..ao + 2 * l] == lo;
      assert taba[ao + n..ao + n + l + l] == taba[ao + n..ao + n + 2 * l];
      c := MpSub(taba, ao, taba, ao, taba, ao + n, 2 * l, 0);
    }
  }

  /** taba -= q^2 for the low part q of the root; when q = B^l the square is a single borrow. */
  method SubtractSquare(tabs: array<Limb>, so: nat, taba: array<Limb>, ao: nat, n: nat, l: nat, qh: Limb)
    returns (k: Limb)
    requires tabs != taba && 1 <= l && 2 * l <= n && so + l <= tabs.Length && ao + 2 * n <= taba.Length
    requires qh <= 1 && (qh == 1 ==> Val(tabs[so..so + l]) == 0)
    modifies taba
    ensures OnlyRange(taba, ao, 2 * n) && k <= 1
    ensures var q := Val(tabs[so..so + l]) + qh * Pow(l);
            Val(taba[ao..ao + n]) - k * Pow(n) == old(Val(taba[ao..ao + n])) - q * q
  {
    hide Val, Pow;
    ghost var q := Val(tabs[so..so + l]) + qh * Pow(l);
    ghost var lo, hi := taba[ao..ao + 2 * l], taba[ao + 2 * l..ao + 2 * l + (n - 2 * l)];
    assert taba[ao..ao + n] == lo + hi;
    var c := SquareLow(tabs, so, taba, ao, n, l, qh);
    ghost var lo' := taba[ao..ao + 2 * l];
    assert taba[ao + 2 * l..ao + 2 * l + (n - 2 * l)] == hi;
    k := MpSubUi(taba, ao + 2 * l, c, n - 2 * l);
    ghost var hi' := taba[ao + 2 * l..ao + 2 * l + (n - 2 * l)];
    assert taba[ao..ao + n] == lo' + hi';
    BorrowOn(lo, hi, lo', hi', q * q, c, k);
    if n == 2 * l {
      NoLimbBorrow(hi', hi, k, c);
    }
  }

  lemma {:induction false} NoLimbBorrow(hi': seq<Limb>, hi: seq<Limb>, k: Limb, c: int)
    requires |hi| == |hi'| == 0 && Val(hi') - k * Pow(0) == Val(hi) - c
    ensures k == c
  {
  }

  /** s and r are a root of a, or one too large with a negative remainder. */
  ghost predicate NearRoot(a: int, s: int, r: int) {
    (r >= 0 ==> IsSqrtRem(a, s, r)) && (r < 0 ==> IsSqrtRem(a, s - 1, r + 2 * s - 1))
  }

  /** The root fits in n limbs; a wrapped-around root can only be the one that gets decremented. */
  lemma {:induction false} RootWraps(a: seq<Limb>, n: nat, s: int, r: int, v: nat, k: int)
    requires NearRoot(Val(a), s, r) && |a| == 2 * n && 0 <= k <= 1 && s == v + k * Pow(n) && v < Pow(n)
    ensures r >= 0 ==> s == v && 0 <= r < 2 * Pow(n)
    ensures r < 0 ==> s >= 1 && s - 1 < Pow(n) && 0 <= r + 2 * s - 1 < 2 * Pow(n)
  {
    hide Val, Pow;
    ValBound(a);
    PowAdd(n, n);
    if r >= 0 {
      RootBelowPow(Val(a), s, r, Pow(n));
    } else {
      RootBelowPow(Val(a), s - 1, r + 2 * s - 1, Pow(n));
    }
  }

  lemma RootBelowPow(a: nat, s: int, r: int, p: nat)
    requires IsSqrtRem(a, s, r) && a < p * p
    ensures 0 <= s < p && 0 <= r < 2 * p
  {
    if p <= s {
      SquareMono(p, s);
    }
  }

  /** Adding q's high bit, subtracting q^2, and the one possible correction. */
  method SqrtCorrect(tabs: array<Limb>, so: nat, taba: array<Limb>, ao: nat, n: nat, l: nat, qh: Limb, rh0: int,
                     ghost a: seq<Limb>) returns (rh: int)
    requires tabs != taba && 1 <= l && 2 * l <= n && so + n <= tabs.Length && ao + 2 * n <= taba.Length
    requires qh <= 1 && (qh == 1 ==> Val(tabs[so..so + l]) == 0) && 0 <= rh0 <= 1 && |a| == 2 * n
    requires var q := Val(tabs[so..so + l]) + qh * Pow(l);
             NearRoot(Val(a), Val(tabs[so + l..so + n]) * Pow(l) + q, Val(taba[ao..ao + n]) + rh0 * Pow(n) - q * q)
    modifies tabs, taba
    ensures OnlyRange(tabs, so, n) && OnlyRange(taba, ao, 2 * n)
    ensures RootOf(a, tabs[so..so + n], taba[ao..ao + n], rh)
  {
    hide Val, Pow, NearRoot, RootOf, IsSqrtRem;
    ghost var lo, s1 := tabs[so..so + l], tabs[so + l..so + n];
    ghost var q := Val(lo) + qh * Pow(l);
    ghost var s := Val(s1) * Pow(l) + q;
    ghost var r := Val(taba[ao..ao + n]) + rh0 * Pow(n) - q * q;
    assert s1 == tabs[so + l..so + l + (n - l)];
    var k0 := MpAddUi(tabs, so + l, qh, n - l);
    assert tabs[so..so + l] == lo && tabs[so..so + n] == lo + tabs[so + l..so + l + (n - l)];
    RootValue(lo, s1, tabs[so + l..so + l + (n - l)], qh, k0);
    ValBound(tabs[so..so + n]);
    RootWraps(a, n, s, r, Val(tabs[so..so + n]), k0);
    var k := SubtractSquare(tabs, so, taba, ao, n, l, qh);
    MulDist(rh0, k, Pow(n));
    rh := SqrtFix(tabs, so, taba, ao, n, rh0 - k, a, s, r);
  }

  lemma {:induction false} RootValue(lo: seq<Limb>, s1: seq<Limb>, hi: seq<Limb>, qh: Limb, k: Limb)
    requires |s1| == |hi| && Val(hi) + k * Pow(|hi|) == Val(s1) + qh
    ensures Val(s1) * Pow(|lo|) + (Val(lo) + qh * Pow(|lo|)) == Val(lo + hi) + k * Pow(|lo| + |hi|)
  {
    hide Val, Pow;
    ValConcat(lo, hi);
    PowAdd(|lo|, |hi|);
    RootValueArith(Val(s1), qh, Val(hi), k, Pow(|lo|), Pow(|hi|));
  }

  lemma RootValueArith(s1: int, qh: int, hi: int, k: int, p: int, ph: int)
    requires hi + k * ph == s1 + qh
    ensures s1 * p + qh * p == p * hi + k * (p * ph)
  {
    MulDist(s1, qh, p);
    MulDist(hi, k * ph, p);
    MulAssoc(k, ph, p);
  }

  /** When the remainder is negative: decrement the root and add 2*s + 1. */
  method SqrtFix(tabs: array<Limb>, so: nat, taba: array<Limb>, ao: nat, n: nat, rh0: int,
                 ghost a: seq<Limb>, ghost s: int, ghost r: int) returns (rh: int)
    requires tabs != taba && 1 <= n && so + n <= tabs.Length && ao + n <= taba.Length
    requires NearRoot(Val(a), s, r) && r == Val(taba[ao..ao + n]) + rh0 * Pow(n)
    requires r >= 0 ==> s == Val(tabs[so..so + n]) && r < 2 * Pow(n)
    requires r < 0 ==> 1 <= s <= Pow(n) && 0 <= r + 2 * s - 1 < 2 * Pow(n)
                       && (s == Val(tabs[so..so + n]) || s == Val(tabs[so..so + n]) + Pow(n))
    modifies tabs, taba
    ensures OnlyRange(tabs, so, n) && OnlyRange(taba, ao, n)
    ensures RootOf(a, tabs[so..so + n], taba[ao..ao + n], rh)
  {
    hide Val, Pow, NearRoot, RootOf, IsSqrtRem;
    rh := rh0;
    HighSign(taba[ao..ao + n], rh);
    if rh < 0 {
      var k := MpSubUi(tabs, so, 1, n);
      WrappedDecrement(tabs[so..so + n], k, s);
      ghost var sv := Val(tabs[so..so + n]);
      var x := MpAddMul1(taba, ao, tabs, so, n, 2);
      var y := MpAddUi(taba, ao, 1, n);
      rh := rh + x + y;
      MulDist(rh0 + x, y, Pow(n));
      MulDist(rh0, x, Pow(n));
    }
    HighRange(taba[ao..ao + n], rh);
    RootDone(a, tabs[so..so + n], taba[ao..ao + n], rh, s, r);
  }

  lemma {:induction false} HighSign(r: seq<Limb>, rh: int)
    ensures rh < 0 <==> Val(r) + rh * Pow(|r|) < 0
  {
    ValBound(r);
    if rh < 0 {
      MulMono(rh, -1, Pow(|r|));
    } else {
      MulMono(0, rh, Pow(|r|));
    }
  }

  lemma {:induction false} HighRange(r: seq<Limb>, rh: int)
    requires 0 <= Val(r) + rh * Pow(|r|) < 2 * Pow(|r|)
    ensures 0 <= rh <= 1
  {
    ValBound(r);
    if rh < 0 {
      MulMono(rh, -1, Pow(|r|));
    } else if rh > 1 {
      MulMono(2, rh, Pow(|r|));
    }
  }

  lemma {:induction false} WrappedDecrement(v: seq<Limb>, k: Limb, s: int)
    requires 1 <= s <= Pow(|v|)
    requires Val(v) - k * Pow(|v|) == s - 1 || Val(v) - k * Pow(|v|) == s - Pow(|v|) - 1
    ensures Val(v) == s - 1
  {
    hide Val, Pow;
    ValBound(v);
    var p := Pow(|v|);
    MulDist(k, 1, p);
    if Val(v) - k * p == s - 1 {
      DivUnique(-k, Val(v), 0, s - 1, p);
    } else {
      DivUnique(1 - k, Val(v), 0, s - 1, p);
    }
  }

  lemma {:induction false} RootDone(a: seq<Limb>, v: seq<Limb>, w: seq<Limb>, rh: int, s: int, r: int)
    requires NearRoot(Val(a), s, r) && 0 <= rh <= 1
    requires r >= 0 ==> Val(v) == s && Val(w) + rh * Pow(|w|) == r
    requires r < 0 ==> Val(v) == s - 1 && Val(w) + rh * Pow(|w|) == r + 2 * s - 1
    ensures RootOf(a, v, w, rh)
  {
    hide Val, Pow;
  }

  lemma {:induction false} HighRoot(a: seq<Limb>, s1: seq<Limb>, r1: seq<Limb>, qh: int)
    requires BinaryLimbs() && RadicandOk(a) && |a| == 2 * |s1| && |r1| == |s1| && RootOf(a, s1, r1, qh)
    ensures Normalized(s1) && 0 <= qh <= 1 && IsSqrtRem(Val(a), Val(s1), Val(r1) + qh * Pow(|s1|))
    ensures Val(r1) + qh * Pow(|s1|) <= 2 * Val(s1)
  {
    hide Val, Pow;
    RootNormalized(a, s1, Val(r1) + qh * Pow(|r1|));
  }

  /** The doubling step, in terms of the limb vectors. */
  lemma {:induction false} StepVectors(c0: seq<Limb>, c1: seq<Limb>, high: seq<Limb>, s1: seq<Limb>, rem1: nat,
                                       q: seq<Limb>, qh: int, u: seq<Limb>, rh: int)
    requires |c0| == |c1| == |q| && |u| == |s1| >= |q| >= 1 && 0 <= qh <= 1 && Normalized(s1)
    requires IsSqrtRem(Val(high), Val(s1), rem1)
    requires HalfQuotient(Val(c1) + Pow(|q|) * rem1, Val(s1), Val(q) + qh * Pow(|q|), Val(u) + rh * Pow(|s1|))
    ensures qh == 1 ==> Val(q) == 0
    ensures NearRoot(Val(c0 + c1 + high), Val(s1) * Pow(|q|) + (Val(q) + qh * Pow(|q|)),
                     Val(c0 + u) + rh * Pow(|q| + |s1|)
                     - (Val(q) + qh * Pow(|q|)) * (Val(q) + qh * Pow(|q|)))
  {
    hide Val, Pow, IsSqrtRem;
    var m, rem := Pow(|q|), Val(u) + rh * Pow(|s1|);
    ThreeParts(c0, c1, high);
    ValBound(c0);
    ValBound(c1);
    NormalizedBound(s1);
    PowMonotone(|q|, |s1|);
    SqrtStep(Val(high), Val(s1), rem1, Val(c1), Val(c0), m, Val(q) + qh * m, rem);
    ValConcat(c0, u);
    PowAdd(|q|, |s1|);
    MulDist(Val(u), rh * Pow(|s1|), m);
    MulAssoc(rh, Pow(|s1|), m);
  }

  lemma {:induction false} ThreeParts(c0: seq<Limb>, c1: seq<Limb>, high: seq<Limb>)
    requires |c0| == |c1|
    ensures Val(c0 + c1 + high) == (Val(high) * Pow(|c0|) + Val(c1)) * Pow(|c0|) + Val(c0)
  {
    hide Val, Pow;
    assert c0 + c1 + high == c0 + (c1 + high);
    ValConcat(c0, c1 + high);
    ValConcat(c1, high);
  }

  /**
  The recursion: tabs[0..n] = root of taba[0..2n], taba[0..n] and the returned high limb the
  remainder. tmp has at least n/2 + 1 limbs.
  */
  method MpSqrtRemRec(tabs: array<Limb>, so: nat, taba: array<Limb>, ao: nat, n: nat, tmp: array<Limb>) returns (rh: int)
    requires BinaryLimbs() && tabs != taba && tmp != tabs && tmp != taba && 1 <= n
    requires so + n <= tabs.Length && ao + 2 * n <= taba.Length && n / 2 + 1 <= tmp.Length
    requires RadicandOk(taba[ao..ao + 2 * n])
    modifies tabs, taba, tmp
    ensures OnlyRange(tabs, so, n) && OnlyRange(taba, ao, 2 * n)
    ensures RootOf(old(taba[ao..ao + 2 * n]), tabs[so..so + n], taba[ao..ao + n], rh)
    decreases n
  {
    hide Val, Pow, RootOf, IsSqrtRem, NearRoot, HalfQuotient;
    ghost var a := taba[ao..ao + 2 * n];
    if n == 1 {
      rh := SqrtRem2(tabs, so, taba, ao);
    } else {
      var l := n / 2;
      var h := n - l;
      ghost var low, high := taba[ao..ao + 2 * l], taba[ao + 2 * l..ao + 2 * l + 2 * h];
      SliceSplit(taba, ao, ao + 2 * l, ao + 2 * n);
      var qh := MpSqrtRemRec(tabs, so + l, taba, ao + 2 * l, h, tmp);
      Kept(taba, ao + 2 * l, 2 * h, low, ao);
      rh := SqrtExtend(tabs, so, taba, ao, l, h, tmp, qh, high);
    }
  }

  /** From the root of the high 2*h limbs to the root of the whole. */
  method SqrtExtend(tabs: array<Limb>, so: nat, taba: array<Limb>, ao: nat, l: nat, h: nat, tmp: array<Limb>,
                    qh0: int, ghost high: seq<Limb>) returns (rh: int)
    requires BinaryLimbs() && tabs != taba && tmp != tabs && tmp != taba && 1 <= l <= h <= l + 1
    requires so + (l + h) <= tabs.Length && ao + 2 * (l + h) <= taba.Length && l + 1 <= tmp.Length
    requires |high| == 2 * h && RadicandOk(high)
    requires RootOf(high, tabs[so + l..so + l + h], taba[ao + 2 * l..ao + 2 * l + h], qh0)
    modifies tabs, taba, tmp
    ensures OnlyRange(tabs, so, l + h) && OnlyRange(taba, ao, 2 * (l + h))
    ensures RootOf(old(taba[ao..ao + 2 * l]) + high, tabs[so..so + (l + h)], taba[ao..ao + (l + h)], rh)
  {
    hide Val, Pow, RootOf, IsSqrtRem, NearRoot, HalfQuotient;
    var n := l + h;
    ghost var s1, r1 := tabs[so + l..so + l + h], taba[ao + 2 * l..ao + 2 * l + h];
    ghost var c0, c1 := taba[ao..ao + l], taba[ao + l..ao + 2 * l];
    SliceSplit(taba, ao, ao + l, ao + 2 * l);
    HighRoot(high, s1, r1, qh0);
    var qh;
    qh, rh := SqrtDivide(tabs, so, taba, ao, l, h, tmp, qh0);
    Kept(tabs, so, l, s1, so + l);
    Kept(taba, ao + l, n, c0, ao);
    ghost var q, u := tabs[so..so + l], taba[ao + l..ao + l + h];
    StepVectors(c0, c1, high, s1, Val(r1) + qh0 * Pow(h), q, qh, u, rh);
    SliceSplit(taba, ao, ao + l, ao + n);
    rh := SqrtCorrect(tabs, so, taba, ao, n, l, qh, rh, c0 + c1 + high);
  }

  /** tabs[0..n] = root of taba[0..2n]; taba[0..n+1] = the remainder. */
  method MpSqrtRem(tabs: array<Limb>, taba: array<Limb>, n: nat)
    requires BinaryLimbs() && tabs != taba && 1 <= n && n <= tabs.Length && 2 * n <= taba.Length
    requires RadicandOk(taba[0..2 * n])
    modifies tabs, taba
    ensures IsSqrtRem(old(Val(taba[0..2 * n])), Val(tabs[0..n]), Val(taba[0..n + 1]))
  {
    var tmp := new Limb[n / 2 + 1];
    var rh := MpSqrtRemRec(tabs, 0, taba, 0, n, tmp);
    ghost var r := taba[0..n];
    taba[n] := rh;
    SliceSnoc(taba, 0, n);
    ValSnoc(r, rh);
  }
}
