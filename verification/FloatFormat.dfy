/**
The numbers of a floating-point format and what is left in a result, written out: the exponents of
the format, the modes, and the flags.
*/
module FloatFormat {
  import opened Arith
  import opened Limbs
  import opened LimbOps
  import opened RoundSpec
  import opened LimbBits
  import opened BigFloats
  import opened FloatExact

  /** y is a multiple of the unit, on the side of x that the mode asks for or nearest to it. */
  ghost predicate RoundsTo(mode: Mode, neg: bool, x: real, unit: real, y: real) {
    exists c: int :: y == c as real * unit && Placed(mode, neg, x, unit, y, c)
  }

  ghost predicate Placed(mode: Mode, neg: bool, x: real, unit: real, y: real, c: int) {
    match mode
    case RNDZ => y <= x < y + unit
    case RNDA => y - unit < x <= y
    case RNDD => if neg then y - unit < x <= y else y <= x < y + unit
    case RNDU => if neg then y <= x < y + unit else y - unit < x <= y
    case RNDN => -unit <= 2.0 * (x - y) <= unit && (2.0 * (x - y) == unit || 2.0 * (y - x) == unit ==> c % 2 == 0)
    case RNDNA => -unit <= 2.0 * (x - y) < unit
  }

  /**
  The exponent of the last place kept in a number below 2^e: prec1 bits, but not below the last place
  of the smallest normal number if subnormal numbers are wanted; or prec1 bits after the radix point.
  */
  function LastPlace(flags: Flags, prec1: nat, e: int): int
    requires flags.expBits >= 1
  {
    if flags.radpnt && prec1 != PREC_INF then -(prec1 as int)
    else if flags.radpnt || !flags.subnormal || e >= 3 - Pow2(flags.expBits - 1) then e - prec1
    else 3 - Pow2(flags.expBits - 1) - prec1
  }

  lemma {:induction false} LastPlaceIs(flags: Flags, prec1: nat, e: int)
    requires flags.expBits >= 1
    ensures LastPlace(flags, prec1, e) == e - Precision(flags, prec1, e)
  {
    hide Pow2;
  }

  /** Zero, or a normalized number with the value y. */
  ghost predicate IsNumber(r: BigFloat, lb: nat, y: real)
    requires r.Valid()
    reads r, r.tab
  {
    if y == 0.0 then r.IsZero(r.neg) else r.Normal(lb) && r.Magnitude(lb) == y
  }

  /** A number y with at least one bit: too small for the format, too large, or the result. */
  ghost predicate Settled(y: real, prec1: nat, flags: Flags, lb: nat, ret0: Status, lost: bool, r: BigFloat, ret: Status)
    requires flags.expBits >= 1 && r.Valid()
    reads r, r.tab
  {
    var top := Pow2(flags.expBits - 1);
    var tiny, inexact := y < P2(2 - top), ret0.inexact || lost;
    if tiny && !flags.subnormal then ret == ret0.(underflow := true, inexact := true) && r.IsZero(r.neg)
    else if y >= P2(top) then ret == OK.(overflow := true, inexact := true) && Largest(r, lb, prec1, flags)
    else
      ret == ret0.(inexact := inexact, underflow := ret0.underflow || (inexact && tiny)) && r.Normal(lb) && r.Magnitude(lb) == y
  }

  /**
  The result as a function of the exact value alone, which is below 2^e: that value rounded to a multiple
  of its last place, to zero or one unit if no bit is kept, and settled in the format.
  */
  ghost predicate Delivered(exact: real, e: int, neg: bool, prec1: nat, flags: Flags, lb: nat, ret0: Status, r: BigFloat, ret: Status)
    requires flags.expBits >= 1 && r.Valid()
    reads r, r.tab
  {
    var q := LastPlace(flags, prec1, e);
    var y := RoundReal(flags.mode, neg, exact, P2(q));
    P2(e - 1) <= exact < P2(e) && r.neg == neg && RoundsTo(flags.mode, neg, exact, P2(q), y) &&
    if e <= q then ret == ret0.(underflow := true, inexact := true) && IsNumber(r, lb, y)
    else IsRounding(flags.mode, neg, e - q, exact, y) && Settled(y, prec1, flags, lb, ret0, y != exact, r, ret)
  }

  /** Rounding to a multiple of a unit does that, in every mode. */
  lemma {:induction false} RoundRealMeans(mode: Mode, neg: bool, x: real, unit: real)
    requires unit > 0.0
    ensures RoundsTo(mode, neg, x, unit, RoundReal(mode, neg, x, unit))
  {
    hide RoundsTo, UpReal, Placed;
    var z := x / unit;
    var q := z.Floor;
    var c := RealUnits(mode, neg, z);
    Multiplied(x, unit, z);
    var y, rem := RoundReal(mode, neg, x, unit), z - q as real;
    assert y == c as real * unit;
    FractionOf(z, q as real, rem, c as real, unit, x, y, rem * unit);
    UnitsPlaced(mode, neg, x, unit, y, c, q, rem, rem * unit);
    IsPlaced(mode, neg, x, unit, y, c);
  }

  lemma {:induction false} Multiplied(x: real, unit: real, z: real)
    requires unit > 0.0 && z == x / unit
    ensures x == z * unit
  {
  }

  lemma {:induction false} UnitsPlaced(mode: Mode, neg: bool, x: real, unit: real, y: real, c: int, q: int, rem: real, low: real)
    requires c == q + (if UpReal(mode, neg, q, rem) then 1 else 0) && 0.0 <= low < unit && (rem == 0.0 <==> low == 0.0)
    requires (rem > 0.5 <==> 2.0 * low > unit) && (rem == 0.5 <==> 2.0 * low == unit)
    requires if c == q then x - y == low else y - x == unit - low
    ensures Placed(mode, neg, x, unit, y, c)
  {
  }

  lemma {:induction false} IsPlaced(mode: Mode, neg: bool, x: real, unit: real, y: real, c: int)
    requires y == c as real * unit && Placed(mode, neg, x, unit, y, c)
    ensures RoundsTo(mode, neg, x, unit, y)
  {
  }

  lemma {:induction false} FractionOf(z: real, q: real, rem: real, c: real, unit: real, x: real, y: real, low: real)
    requires unit > 0.0 && z == q + rem && 0.0 <= rem < 1.0 && x == z * unit && y == c * unit && low == rem * unit
    ensures c == q ==> x - y == low
    ensures c == q + 1.0 ==> y - x == unit - low
    ensures 0.0 <= low < unit && (rem == 0.0 <==> low == 0.0)
    ensures (rem > 0.5 <==> 2.0 * low > unit) && (rem == 0.5 <==> 2.0 * low == unit)
  {
    RealPlus3(q, rem, unit);
    RealPlus3(q, 1.0, unit);
    SameOrder(1.0, rem, unit, low, unit);
    SameOrder(0.0, rem, unit, low, 0.0);
    SameOrder(0.5, rem, unit, low, 0.5 * unit);
  }

  /** The exponent of the exact sum is that of the truncated one. */
  lemma {:induction false} SameBinade(s: nat, q: nat, low: nat, w: nat, v: nat, n: nat, shift: nat, g: int)
    requires Truncated(s, q, low, w, v, n, shift) && (low == 0 || n - shift >= 2)
    ensures P2(g - shift + n - 1) <= Float(s, g - w) < P2(g - shift + n)
  {
    hide Pow2, P2, Float;
    var nb := n - shift;
    Unscale(Sticky(q, low), nb, shift);
    if low == 0 {
      BiggerScale(q, nb, w);
    } else {
      StickyBits(q, low, w, nb);
    }
    BinadeOf(s, nb + w, g - w);
  }

  lemma {:induction false} BinadeOf(s: nat, n: nat, f: int)
    requires n >= 1 && Pow2(n - 1) <= s < Pow2(n)
    ensures P2(f + n - 1) <= Float(s, f) < P2(f + n)
  {
    hide Pow2, P2;
    P2Shift(f, n - 1);
    P2Shift(f, n);
    RealBetween(Pow2(n - 1), s, Pow2(n), P2(f), P2(f + n - 1), P2(f + n));
  }

  lemma {:induction false} RealBetween(lo: int, s: int, hi: int, p: real, plo: real, phi: real)
    requires lo <= s < hi && p > 0.0 && plo == lo as real * p && phi == hi as real * p
    ensures plo <= s as real * p < phi
  {
    RealOrder(lo, s, p);
    RealOrder(hi, s, p);
  }

  /** From the rounding of the truncated number to the rounding of the exact one. */
  lemma {:induction false} FinishSum(s: nat, q: nat, low: nat, w: nat, v: nat, l: nat, shift: nat, g: int, e: int, neg: bool,
                                     prec: nat, flags: Flags, lb: nat, ret0: Status, r: BigFloat, ret: Status)
    requires Binary(lb) && lb >= 1 && flags.expBits >= 1 && (low == 0 || !flags.radpnt) && prec >= 1 && r.Valid() && r.neg == neg && l * lb >= 1
    requires Truncated(s, q, low, w, v, l * lb, shift) && (low == 0 || l * lb - shift >= prec + 2) && e - l * lb == g - shift
    requires Outcome(v, l, lb, e, neg, prec, flags, ret0, r, ret)
    ensures Delivered(Float(s, g - w), e, neg, prec, flags, lb, ret0, r, ret)
  {
    hide Pow, Pow2, P2, Float, RoundedAt, RoundReal, RoundsTo, Largest, Sticky, IsRounding, Landed, LastPlace, Settled;
    var p, n := Precision(flags, prec, e), l * lb;
    LastPlaceIs(flags, prec, e);
    RoundRealMeans(flags.mode, neg, Float(s, g - w), P2(e - p));
    var exact, y := Float(s, g - w), RoundedAt(flags.mode, neg, v, n - p);
    SameBinade(s, q, low, w, v, n, shift, g);
    RoundedExact(flags.mode, neg, p, s, q, low, w, v, n, shift, g);
    if p <= 0 {
      TinyNumber(y, n, p, e, lb, neg, r);
    } else {
      SumRounds(flags.mode, neg, p, s, q, low, w, v, n, shift, g);
      RoundedRange(flags.mode, neg, v, n, p);
      LandedNumber(y, l, lb, e, neg, prec, flags, ret0, y != v, r, ret);
    }
  }

  lemma {:induction false} TinyNumber(y: nat, n: nat, p: int, e: int, lb: nat, neg: bool, r: BigFloat)
    requires Binary(lb) && lb >= 1 && p <= 0 && r.Valid() && r.neg == neg
    requires if y == 0 then r.IsZero(neg) else r.len == 1 && r.Mant() == Pow2(lb - 1) && r.expn == e + 1 - p && y == Pow2(n - p)
    ensures IsNumber(r, lb, Float(y, e - n))
  {
    hide Pow, Pow2, P2, Float;
    FloatOrder(y, 0, e - n);
    FloatOfZero(e - n);
    if y != 0 {
      FloatShift(1, e - n, n - p);
      FloatShift(1, e + 1 - p - lb, lb - 1);
      OneLimbSet(r, lb);
    }
  }

  lemma {:induction false} FloatOfZero(f: int)
    ensures Float(0, f) == 0.0
  {
  }

  lemma {:induction false} OneLimbSet(r: BigFloat, lb: nat)
    requires r.Valid() && r.len == 1 && lb >= 1 && r.Mant() == Pow2(lb - 1)
    ensures r.Normal(lb)
  {
    hide Pow2;
    assert r.tab[..1] == [r.tab[0]];
    OneLimb(r.tab[0]);
  }

  /** A rounded number keeps its exponent, or becomes the next power of two. */
  lemma {:induction false} RoundedRange(mode: Mode, neg: bool, v: nat, n: nat, p: nat)
    requires p >= 1 && n >= 1 && Pow2(n - 1) <= v < Pow2(n)
    ensures Pow2(n - 1) <= RoundedAt(mode, neg, v, n - p) <= Pow2(n)
  {
    hide Pow2, RoundUnits;
    if p <= n {
      RoundRange(mode, neg, v, n, p);
    }
  }

  lemma {:induction false} LandedNumber(y: nat, l: nat, lb: nat, e: int, neg: bool, prec: nat, flags: Flags, ret0: Status, lost: bool, r: BigFloat, ret: Status)
    requires Binary(lb) && lb >= 1 && flags.expBits >= 1 && r.Valid() && r.neg == neg && l * lb >= 1 && Pow2(l * lb - 1) <= y <= Pow2(l * lb)
    requires var n := l * lb;
             Landed(if y == Pow2(n) then Pow2(n - 1) else y, if y == Pow2(n) then e + 1 else e, l, lb, neg, prec, flags,
                    ret0.(inexact := ret0.inexact || lost), r, ret)
    ensures Settled(Float(y, e - l * lb), prec, flags, lb, ret0, lost, r, ret)
  {
    hide Pow, Pow2, P2, Float, Largest;
    var n := l * lb;
    var carry := y == Pow2(n);
    var y1, e1 := if carry then Pow2(n - 1) else y, if carry then e + 1 else e;
    if carry {
      FloatShift(1, e - n, n);
      FloatShift(1, e + 1 - n, n - 1);
    }
    assert Float(y, e - n) == Float(y1, e1 - n);
    assert Pow2(n - 1) < Pow2(n) by { Doubles(n); }
    BinadeOf(y1, n, e1 - n);
    var top: int := Pow2(flags.expBits - 1);
    InBinade(Float(y, e - n), e1, 3 - top);
    InBinade(Float(y, e - n), e1, top + 1);
    if e1 <= top && (e1 >= 3 - top || flags.subnormal) {
      LandedMagnitude(y1, l, lb, e1, r);
    }
  }

  lemma {:induction false} InBinade(y: real, e: int, k: int)
    requires P2(e - 1) <= y < P2(e)
    ensures y < P2(k - 1) <==> e < k
  {
    hide P2;
    if e < k {
      P2Mono(e, k - 1);
    } else {
      P2Mono(k - 1, e - 1);
    }
  }

  lemma {:induction false} LandedMagnitude(y: nat, l: nat, lb: nat, e: int, r: BigFloat)
    requires Binary(lb) && r.Valid() && r.len <= l && r.expn == e && r.Mant() * Pow(l - r.len) == y
    ensures r.Magnitude(lb) == Float(y, e - l * lb)
  {
    hide Pow, Pow2, P2, Float;
    MulDist(l, r.len, lb);
    PowIsPow2(lb, l - r.len);
    FloatShift(r.Mant(), e - l * lb, (l - r.len) * lb);
  }

  lemma {:induction false} FloatOrder(x: nat, y: nat, g: int)
    ensures (x > y <==> Float(x, g) > Float(y, g)) && (x == y <==> Float(x, g) == Float(y, g)) && Float(y, g) >= 0.0
  {
    hide P2;
    RealOrder(x, y, P2(g));
    RealOrder(0, y, P2(g));
  }

  /** What a rounded number becomes, as a function of its exact value. */
  lemma {:induction false} OutcomeDelivers(v: nat, l: nat, lb: nat, e: int, neg: bool, prec1: nat, flags: Flags, ret0: Status, r: BigFloat, ret: Status)
    requires Binary(lb) && lb >= 1 && flags.expBits >= 1 && prec1 >= 1 && r.Valid() && r.neg == neg && l * lb >= 1
    requires Pow2(l * lb - 1) <= v < Pow2(l * lb) && Outcome(v, l, lb, e, neg, prec1, flags, ret0, r, ret)
    ensures Delivered(Float(v, e - l * lb), e, neg, prec1, flags, lb, ret0, r, ret)
  {
    hide Pow, Pow2, Float, Outcome, Delivered, Truncated;
    WholeTruncated(v, l * lb);
    FinishSum(v, v, 0, 0, v, l, 0, e - l * lb, e, neg, prec1, flags, lb, ret0, r, ret);
  }

  lemma {:induction false} WholeTruncated(v: nat, n: nat)
    requires n >= 1 && Pow2(n - 1) <= v < Pow2(n)
    ensures Truncated(v, v, 0, 0, v, n, 0)
  {
    assert Pow2(0) == 1;
    hide Pow2;
  }
}
