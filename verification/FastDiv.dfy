/** Division by an invariant integer with one multiplication and two shifts. */
module FastDivision {
  import opened Arith
  import opened RoundSpec

  datatype FastDivData = FastDivData(m1: nat, shift1: nat, shift2: nat)

  /** fast_udiv on words of n bits; the subtraction and the addition wrap around. */
  function FastUdiv(a: nat, s: FastDivData, n: nat): nat {
    var word := Pow2(n);
    var t1 := Quot(s.m1 * a, word);
    var t0 := Quot(Wrap(a - t1, word), Pow2(s.shift1));
    Quot(Wrap(t1 + t0, word), Pow2(s.shift2))
  }

  function Quot(x: nat, u: nat): nat
    requires u >= 1
  {
    x / u
  }

  function Wrap(x: int, word: nat): nat
    requires word >= 1
  {
    x % word
  }

  /** The quotient of (p - d) * w by d, plus one. */
  function Multiplier(p: nat, d: nat, w: nat): nat
    requires 1 <= d <= p
  {
    Quot((p - d) * w, d) + 1
  }

  /** The multiplier and shifts for d, with l the number of bits of d - 1. */
  ghost predicate ForDivisor(s: FastDivData, d: nat, l: nat, n: nat) {
    d >= 1 && (if l == 0 then d == 1 else Pow2(l - 1) < d) && d <= Pow2(l) &&
    Shifts(s, l) && s.m1 == Multiplier(Pow2(l), d, Pow2(n))
  }

  /** The scaled reciprocal is a little too large, by at most 2^l units. */
  lemma {:induction false} MultiplierBounds(p: nat, w: nat, d: nat, m1: nat)
    requires d >= 1 && d <= p && m1 == Multiplier(p, d, w)
    ensures p * w < (m1 + w) * d <= p * w + d
  {
    hide Quot;
    var q, r := DivMod((p - d) * w, d);
    QuotientIs((p - d) * w, d, q, r);
    MulDist(p, d, w);
    MulDist(m1, w, d);
    MulDist(q, 1, d);
    assert d * w == w * d;
  }

  /** The quotient by d, from a multiplier that is too large by e: a must not reach the next multiple of d. */
  lemma {:induction false} ExactQuotient(a: nat, d: nat, mm: nat, u: nat, e: nat, q: nat, r: nat)
    requires d >= 1 && u >= 1 && mm * d == u + e && a == q * d + r && r < d && a * e < u * (d - r)
    ensures Quot(mm * a, u) == q
  {
    hide Quot;
    RestIs(mm, a, d, q, r, u, e);
    var rest := mm * a - q * u;
    RestBound(rest, d, r, u, a * e);
    QuotientIs(mm * a, u, q, rest);
  }

  lemma {:induction false} RestIs(mm: nat, a: nat, d: nat, q: nat, r: nat, u: nat, e: nat)
    requires a == q * d + r && mm * d == u + e
    ensures (mm * a - q * u) * d == r * u + a * e
  {
    MulDist(mm * a, q * u, d);
    assert mm * a * d == a * (mm * d) by { MulAssoc(a, mm, d); }
    MulDist(u, e, a);
    assert q * u * d == q * d * u by { MulAssoc(q, u, d); MulAssoc(q, d, u); }
    MulDist(q * d, r, u);
  }

  lemma {:induction false} RestBound(rest: int, d: nat, r: nat, u: nat, ae: nat)
    requires rest * d == r * u + ae && r < d && ae < u * (d - r)
    ensures 0 <= rest < u
  {
    MulDist(d, r, u);
    if rest < 0 {
      MulMono(rest, -1, d);
    }
    if rest >= u {
      MulMono(u, rest, d);
    }
  }

  lemma {:induction false} QuotientIs(x: nat, u: nat, q: nat, r: nat)
    requires x == q * u + r && r < u
    ensures Quot(x, u) == q && x / u == q
  {
    DivUnique(x / u, x % u, q, r, u);
  }

  /** Quotients by products, one factor at a time. */
  lemma {:induction false} DivDiv(x: nat, u: nat, v: nat)
    requires u >= 1 && v >= 1
    ensures u * v >= 1 && Quot(Quot(x, u), v) == Quot(x, u * v)
  {
    hide Quot;
    var q, r := DivMod(x, u);
    var c, s := DivMod(q, v);
    MulMono(1, u, v);
    QuotientIs(x, u, q, r);
    QuotientIs(q, v, c, s);
    MulDist(c * v, s, u);
    MulAssoc(c, v, u);
    MulMono(s + 1, v, u);
    MulDist(s, 1, u);
    QuotientIs(x, u * v, c, s * u + r);
  }

  /** The word operations do not wrap around. */
  lemma {:induction false} NoWrap(a: nat, m1: nat, w: nat) returns (t1: nat)
    requires w >= 1 && a < w && m1 <= w
    ensures t1 == Quot(m1 * a, w) && t1 <= a && Quot((m1 + w) * a, w) == t1 + a
    ensures Wrap(a - t1, w) == a - t1
  {
    hide Quot, Wrap;
    var q, r := DivMod(m1 * a, w);
    QuotientIs(m1 * a, w, q, r);
    t1 := q;
    MulMono(m1, w, a);
    if q > a {
      MulMono(a + 1, q, w);
      MulDist(a, 1, w);
      assert false;
    }
    MulDist(m1, w, a);
    MulDist(q, a, w);
    QuotientIs((m1 + w) * a, w, q + a, r);
    WrapSmall(a - t1, w);
  }

  lemma {:induction false} WrapSmall(x: int, w: nat)
    requires 0 <= x < w
    ensures Wrap(x, w) == x
  {
  }

  /** The shifts for a divisor of l bits. */
  ghost predicate Shifts(s: FastDivData, l: nat) {
    s.shift1 == (if l > 1 then 1 else l) && s.shift2 == (if l >= 1 then l - 1 else 0)
  }

  /** The result is the quotient whenever the error of the multiplier is small enough for a. */
  lemma {:induction false} FastUdivExact(a: nat, s: FastDivData, d: nat, l: nat, n: nat, u: nat, e: nat, q: nat, r: nat)
    requires a < Pow2(n) && l >= 1 && Shifts(s, l) && s.m1 <= Pow2(n) && d >= 1
    requires u == Pow2(l) * Pow2(n) && (s.m1 + Pow2(n)) * d == u + e && a == q * d + r && r < d && a * e < u * (d - r)
    ensures FastUdiv(a, s, n) == q
  {
    assert Pow2(l) == 2 * Pow2(l - 1) && s.shift1 == 1 && Pow2(1) == 2 * Pow2(0) && s.shift2 == l - 1;
    hide Pow2, Quot, Wrap;
    var h, w := Pow2(l - 1), Pow2(n);
    var t1 := NoWrap(a, s.m1, w);
    UnitIs(l, n);
    ExactQuotient(a, d, s.m1 + w, u, e, q, r);
    TwoShifts(a, t1, (s.m1 + w) * a, h, w, u, q);
    WrapSmall(a - t1, w);
    WrapSmall(t1 + Quot(a - t1, 2), w);
  }

  lemma {:induction false} UnitIs(l: nat, n: nat)
    requires l >= 1
    ensures Pow2(l) * Pow2(n) == Pow2(n) * (2 * Pow2(l - 1)) && Pow2(l) * Pow2(n) >= 1
  {
    MulMono(1, Pow2(l), Pow2(n));
  }

  /** The sum may not fit a word, so it is halved before the second shift. */
  lemma {:induction false} TwoShifts(a: nat, t1: nat, y: nat, h: nat, w: nat, u: nat, q: nat)
    requires h >= 1 && w >= 1 && u >= 1 && u == w * (2 * h) && t1 <= a && Quot(y, w) == t1 + a && Quot(y, u) == q
    ensures t1 + Quot(a - t1, 2) <= a && Quot(t1 + Quot(a - t1, 2), h) == q
  {
    hide Quot;
    DivDiv(y, w, 2 * h);
    DivDiv(t1 + a, 2, h);
    HalfSum(t1, a);
  }

  /** With the multiplier of the formula the result is the quotient, for every word. */
  lemma {:induction false} FastUdivCorrect(a: nat, s: FastDivData, d: nat, l: nat, n: nat)
    requires a < Pow2(n) && ForDivisor(s, d, l, n)
    ensures FastUdiv(a, s, n) == a / d
  {
    var p, w := Pow2(l), Pow2(n);
    assert Pow2(0) == 1;
    if l == 0 {
      assert s.m1 == 1;
      QuotientIs(a, w, 0, a);
      WrapSmall(a, w);
    } else {
      assert p == 2 * Pow2(l - 1);
      hide Pow2, Quot;
      MultiplierBounds(p, w, d, s.m1);
      MultiplierFits(p, w, d, s.m1);
      var q, r := DivMod(a, d);
      QuotientIs(a, d, q, r);
      var e := (s.m1 + w) * d - p * w;
      SmallError(a, e, p, w, d - r);
      FastUdivExact(a, s, d, l, n, p * w, e, q, r);
    }
  }

  lemma {:induction false} SmallError(a: nat, e: nat, p: nat, w: nat, k: nat)
    requires a < w && e <= p && k >= 1 && p >= 1
    ensures a * e < p * w * k
  {
    MulMono(e, p, a);
    MulStrict(a, w, p);
    MulMono(1, k, p * w);
  }

  lemma {:induction false} HalfSum(t1: nat, a: nat)
    requires t1 <= a
    ensures t1 + Quot(a - t1, 2) == Quot(t1 + a, 2) && t1 + Quot(a - t1, 2) <= a
  {
  }

  lemma {:induction false} MultiplierFits(p: nat, w: nat, d: nat, m1: nat)
    requires d >= 1 && d <= p < 2 * d && m1 == Multiplier(p, d, w) && w >= 1
    ensures m1 <= w
  {
    MulMono(p - d, d - 1, w);
    MulDist(d, 1, w);
    var q, r := DivMod((p - d) * w, d);
    QuotientIs((p - d) * w, d, q, r);
    if q >= w {
      MulMono(w, q, d);
    }
  }

  /** fast_udiv_init: shifts and multiplier by the formula. */
  method FastUdivInit(d: nat, n: nat) returns (s: FastDivData, ghost l: nat)
    requires 1 <= d <= Pow2(n)
    ensures ForDivisor(s, d, l, n)
  {
    var k := 0;
    assert Pow2(0) == 1;
    while Pow2(k) < d
      invariant k <= n && (k == 0 || Pow2(k - 1) < d)
      decreases n - k
    {
      if k == n {
        assert false;
      }
      k := k + 1;
    }
    l := k;
    s := FastDivData(Multiplier(Pow2(k), d, Pow2(n)), if k > 1 then 1 else k, if k >= 1 then k - 1 else 0);
  }

  /** mp_pow_div for limbs of 32 bits. */
  const POW_DIV_32: seq<FastDivData> := [
    FastDivData(0x1, 0, 0),
    FastDivData(0x9999999a, 1, 3),
    FastDivData(0x47ae147b, 1, 6),
    FastDivData(0x624dd30, 1, 9),
    FastDivData(0xa36e2eb2, 1, 13),
    FastDivData(0x4f8b588f, 1, 16),
    FastDivData(0xc6f7a0c, 1, 19),
    FastDivData(0xad7f29ac, 1, 23),
    FastDivData(0x5798ee24, 1, 26),
    FastDivData(0x12e0be83, 1, 29)
  ]

  /** mp_pow_div for limbs of 64 bits. */
  const POW_DIV_64: seq<FastDivData> := [
    FastDivData(0x1, 0, 0),
    FastDivData(0x999999999999999a, 1, 3),
    FastDivData(0x47ae147ae147ae15, 1, 6),
    FastDivData(0x624dd2f1a9fbe77, 1, 9),
    FastDivData(0xa36e2eb1c432ca58, 1, 13),
    FastDivData(0x4f8b588e368f0847, 1, 16),
    FastDivData(0xc6f7a0b5ed8d36c, 1, 19),
    FastDivData(0xad7f29abcaf48579, 1, 23),
    FastDivData(0x5798ee2308c39dfa, 1, 26),
    FastDivData(0x12e0be826d694b2f, 1, 29),
    FastDivData(0xb7cdfd9d7bdbab7e, 1, 33),
    FastDivData(0x5fd7fe17964955fe, 1, 36),
    FastDivData(0x19799812dea11198, 1, 39),
    FastDivData(0xc25c268497681c27, 1, 43),
    FastDivData(0x6849b86a12b9b01f, 1, 46),
    FastDivData(0x203af9ee756159b3, 1, 49),
    FastDivData(0xcd2b297d889bc2b7, 1, 53),
    FastDivData(0x70ef54646d496893, 1, 56),
    FastDivData(0x2725dd1d243aba0f, 1, 59),
    FastDivData(0xd83c94fb6d2ac34d, 1, 63)
  ]

  function Pow10(i: nat): (p: nat)
    ensures p >= 1
  {
    if i == 0 then 1 else 10 * Pow10(i - 1)
  }

  /** The number of bits of 10^i - 1. */
  const BITS: seq<nat> := [0, 4, 7, 10, 14, 17, 20, 24, 27, 30, 34, 37, 40, 44, 47, 50, 54, 57, 60, 64]

  lemma {:induction false} SmallPowers()
    ensures Pow2(0) == 1 && Pow2(1) == 2 && Pow2(2) == 4 && Pow2(3) == 8 && Pow2(4) == 16
  {
    assert Pow2(1) == 2 * Pow2(0) && Pow2(2) == 2 * Pow2(1) && Pow2(3) == 2 * Pow2(2) && Pow2(4) == 2 * Pow2(3);
  }

  lemma {:induction false} PowersLow()
    ensures Pow2(0) == 0x1 && Pow2(3) == 0x8 && Pow2(4) == 0x10 && Pow2(6) == 0x40
    ensures Pow2(7) == 0x80 && Pow2(9) == 0x200 && Pow2(10) == 0x400 && Pow2(13) == 0x2000
    ensures Pow2(14) == 0x4000 && Pow2(16) == 0x10000 && Pow2(17) == 0x20000 && Pow2(19) == 0x80000
    ensures Pow2(20) == 0x100000 && Pow2(23) == 0x800000 && Pow2(24) == 0x1000000 && Pow2(26) == 0x4000000
    ensures Pow2(27) == 0x8000000 && Pow2(29) == 0x20000000 && Pow2(30) == 0x40000000 && Pow2(32) == 0x100000000
  {
    SmallPowers();
    hide Pow2;
    Pow2Add(4, 2);
    Pow2Add(6, 1);
    Pow2Add(7, 2);
    Pow2Add(9, 1);
    Pow2Add(10, 3);
    Pow2Add(13, 1);
    Pow2Add(14, 2);
    Pow2Add(16, 1);
    Pow2Add(17, 2);
    Pow2Add(19, 1);
    Pow2Add(20, 3);
    Pow2Add(23, 1);
    Pow2Add(24, 2);
    Pow2Add(26, 1);
    Pow2Add(27, 2);
    Pow2Add(29, 1);
    Pow2Add(30, 2);
  }

  lemma {:induction false} PowersHigh()
    ensures Pow2(33) == 0x200000000 && Pow2(34) == 0x400000000 && Pow2(36) == 0x1000000000 && Pow2(37) == 0x2000000000
    ensures Pow2(39) == 0x8000000000 && Pow2(40) == 0x10000000000 && Pow2(43) == 0x80000000000 && Pow2(44) == 0x100000000000
    ensures Pow2(46) == 0x400000000000 && Pow2(47) == 0x800000000000 && Pow2(49) == 0x2000000000000 && Pow2(50) == 0x4000000000000
    ensures Pow2(53) == 0x20000000000000 && Pow2(54) == 0x40000000000000 && Pow2(56) == 0x100000000000000 && Pow2(57) == 0x200000000000000
    ensures Pow2(59) == 0x800000000000000 && Pow2(60) == 0x1000000000000000 && Pow2(63) == 0x8000000000000000 && Pow2(64) == 0x10000000000000000
  {
    SmallPowers();
    assert Pow2(32) == 0x1_0000_0000 by { PowersLow(); }
    hide Pow2;
    Pow2Add(32, 1);
    Pow2Add(33, 1);
    Pow2Add(34, 2);
    Pow2Add(36, 1);
    Pow2Add(37, 2);
    Pow2Add(39, 1);
    Pow2Add(40, 3);
    Pow2Add(43, 1);
    Pow2Add(44, 2);
    Pow2Add(46, 1);
    Pow2Add(47, 2);
    Pow2Add(49, 1);
    Pow2Add(50, 3);
    Pow2Add(53, 1);
    Pow2Add(54, 2);
    Pow2Add(56, 1);
    Pow2Add(57, 2);
    Pow2Add(59, 1);
    Pow2Add(60, 3);
    Pow2Add(63, 1);
  }

  lemma {:induction false} TenPowers()
    ensures Pow10(0) == 1 && Pow10(1) == 10 && Pow10(2) == 100 && Pow10(3) == 1000
    ensures Pow10(4) == 10000 && Pow10(5) == 100000 && Pow10(6) == 1000000 && Pow10(7) == 10000000
    ensures Pow10(8) == 100000000 && Pow10(9) == 1000000000 && Pow10(10) == 10000000000 && Pow10(11) == 100000000000
    ensures Pow10(12) == 1000000000000 && Pow10(13) == 10000000000000 && Pow10(14) == 100000000000000 && Pow10(15) == 1000000000000000
    ensures Pow10(16) == 10000000000000000 && Pow10(17) == 100000000000000000 && Pow10(18) == 1000000000000000000 && Pow10(19) == 10000000000000000000
  {
    assert Pow10(1) == 10 * Pow10(0);
    assert Pow10(2) == 10 * Pow10(1);
    assert Pow10(3) == 10 * Pow10(2);
    assert Pow10(4) == 10 * Pow10(3);
    assert Pow10(5) == 10 * Pow10(4);
    assert Pow10(6) == 10 * Pow10(5);
    assert Pow10(7) == 10 * Pow10(6);
    assert Pow10(8) == 10 * Pow10(7);
    assert Pow10(9) == 10 * Pow10(8);
    assert Pow10(10) == 10 * Pow10(9);
    assert Pow10(11) == 10 * Pow10(10);
    assert Pow10(12) == 10 * Pow10(11);
    assert Pow10(13) == 10 * Pow10(12);
    assert Pow10(14) == 10 * Pow10(13);
    assert Pow10(15) == 10 * Pow10(14);
    assert Pow10(16) == 10 * Pow10(15);
    assert Pow10(17) == 10 * Pow10(16);
    assert Pow10(18) == 10 * Pow10(17);
    assert Pow10(19) == 10 * Pow10(18);
  }

  lemma {:induction false} Rows32(i: nat)
    requires 0 <= i < 10
    ensures ForDivisor(POW_DIV_32[i], Pow10(i), BITS[i], 32)
  {
    PowersLow();
    PowersHigh();
    TenPowers();
    hide Pow2, Pow10;
    assert i in {0, 1, 2, 3, 4, 5, 6, 7, 8, 9};
  }

  lemma {:induction false} Rows64Low(i: nat)
    requires 0 <= i < 10
    ensures ForDivisor(POW_DIV_64[i], Pow10(i), BITS[i], 64)
  {
    PowersLow();
    PowersHigh();
    TenPowers();
    hide Pow2, Pow10;
    assert i in {0, 1, 2, 3, 4, 5, 6, 7, 8, 9};
  }

  lemma {:induction false} Rows64High(i: nat)
    requires 10 <= i < 19
    ensures ForDivisor(POW_DIV_64[i], Pow10(i), BITS[i], 64)
  {
    PowersLow();
    PowersHigh();
    TenPowers();
    hide Pow2, Pow10;
    assert i in {10, 11, 12, 13, 14, 15, 16, 17, 18};
  }

  /**
  The last 64-bit row is not what the formula gives, and its error is above the bound that the
  formula guarantees. It still divides exactly, because a word holds only quotients 0 and 1.
  */
  lemma {:induction false} LastRow(a: nat)
    requires a < Pow2(64)
    ensures !ForDivisor(POW_DIV_64[19], Pow10(19), 64, 64) && FastUdiv(a, POW_DIV_64[19], 64) == a / Pow10(19)
  {
    PowersLow();
    PowersHigh();
    TenPowers();
    hide Pow2, Pow10;
    var d, e := 10000000000000000000, 26625392568231788544;
    assert POW_DIV_64[19].m1 != Multiplier(0x10000000000000000, d, 0x10000000000000000);
    var q := if a >= d then 1 else 0;
    QuotientIs(a, d, q, a - q * d);
    FastUdivExact(a, POW_DIV_64[19], d, 64, 64, Pow2(64) * Pow2(64), e, q, a - q * d);
  }

  /** fast_shr_dec: division by any power of ten in the tables is exact. */
  lemma {:induction false} FastShrDec(a: nat, i: nat)
    ensures i < 10 && a < Pow2(32) ==> FastUdiv(a, POW_DIV_32[i], 32) == a / Pow10(i)
    ensures i < 20 && a < Pow2(64) ==> FastUdiv(a, POW_DIV_64[i], 64) == a / Pow10(i)
  {
    hide Pow2, FastUdiv, Pow10;
    if i < 10 && a < Pow2(32) {
      Rows32(i);
      FastUdivCorrect(a, POW_DIV_32[i], Pow10(i), BITS[i], 32);
    }
    if i < 20 && a < Pow2(64) {
      if i == 19 {
        LastRow(a);
      } else {
        if i < 10 {
          Rows64Low(i);
        } else {
          Rows64High(i);
        }
        FastUdivCorrect(a, POW_DIV_64[i], Pow10(i), BITS[i], 64);
      }
    }
  }
}
