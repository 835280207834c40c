/** Rounding and overflow as IEEE 754-2008 defines them: the best among the numbers of the format. */
module FloatBest {
  import opened Arith
  import opened Limbs
  import opened RoundSpec
  import opened BigFloats
  import opened FloatFormat

  /**
  z is a non-negative number with at most prec bits, not too large, and with no place below the last one of
  the format if subnormal numbers belong to it.
  */
  ghost predicate InFormat(z: real, prec: nat, expBits: nat, sub: bool)
    requires expBits >= 1
  {
    z < P2(Pow2(expBits - 1)) && exists m: nat, f: int :: m < Pow2(prec) && (sub ==> f >= 3 - Pow2(expBits - 1) - prec) && z == Float(m, f)
  }

  /** Of w and z, the mode prefers w for x; `even` tells whether w ends in an even place. */
  ghost predicate AtLeast(mode: Mode, neg: bool, x: real, w: real, z: real, even: bool) {
    match mode
    case RNDZ => w <= x && (z <= x ==> z <= w)
    case RNDA => z >= x ==> w <= z
    case RNDD => if neg then z >= x ==> w <= z else w <= x && (z <= x ==> z <= w)
    case RNDU => if neg then w <= x && (z <= x ==> z <= w) else z >= x ==> w <= z
    case RNDN => Gap(x, w) <= Gap(x, z) && (Gap(x, w) == Gap(x, z) && w != z ==> even)
    case RNDNA => Gap(x, w) <= Gap(x, z) && (Gap(x, w) == Gap(x, z) ==> z <= w)
  }

  /** The rounded value is the best of the multiples of the unit. */
  lemma {:induction false} BestMultiple(mode: Mode, neg: bool, x: real, unit: real, y: real, c: int, z: real, d: int)
    requires unit > 0.0 && y == c as real * unit && Placed(mode, neg, x, unit, y, c) && z == d as real * unit
    ensures AtLeast(mode, neg, x, y, z, c % 2 == 0)
  {
    hide Placed, AtLeast;
    if d == c {
      SameValue(mode, neg, x, unit, y, c);
    } else {
      UnitApart(unit, y, c, z, d);
      Further(mode, neg, x, unit, y, c, z);
    }
  }

  /** Multiples of p compare like their factors. */
  lemma {:induction false} Multiples(x: int, y: int, p: real, a: real, b: real)
    requires p > 0.0 && a == x as real * p && b == y as real * p
    ensures (x <= y <==> a <= b) && (y <= x <==> b <= a)
  {
    RealOrder(x, y, p);
    RealOrder(y, x, p);
  }

  lemma {:induction false} NextMultiples(unit: real, y: real, c: int)
    requires y == c as real * unit
    ensures (c + 1) as real * unit == y + unit && (c - 1) as real * unit == y - unit
  {
    RealPlus3(c as real, 1.0, unit);
    RealDist(c as real, 1.0, unit);
  }

  lemma {:induction false} UnitApart(unit: real, y: real, c: int, z: real, d: int)
    requires unit > 0.0 && y == c as real * unit && z == d as real * unit && d != c
    ensures z >= y + unit || z <= y - unit
  {
    NextMultiples(unit, y, c);
    if d > c {
      Multiples(c + 1, d, unit, y + unit, z);
    } else {
      Multiples(d, c - 1, unit, z, y - unit);
    }
  }

  lemma {:induction false} Further(mode: Mode, neg: bool, x: real, unit: real, y: real, c: int, z: real)
    requires unit > 0.0 && Placed(mode, neg, x, unit, y, c) && (z >= y + unit || z <= y - unit)
    ensures AtLeast(mode, neg, x, y, z, c % 2 == 0)
  {
  }

  lemma {:induction false} SameValue(mode: Mode, neg: bool, x: real, unit: real, y: real, c: int)
    requires unit > 0.0 && Placed(mode, neg, x, unit, y, c)
    ensures AtLeast(mode, neg, x, y, y, c % 2 == 0)
  {
  }

  /** Below a multiple t of the unit that is not above x, nothing is better. */
  lemma {:induction false} BelowMultiple(mode: Mode, neg: bool, x: real, w: real, t: real, z: real, even: bool)
    requires AtLeast(mode, neg, x, w, t, even) && z < t <= x
    ensures AtLeast(mode, neg, x, w, z, even)
  {
  }

  /** The last place kept in a number below 2^e of the format. */
  function Place(prec: nat, expBits: nat, sub: bool, e: int): int
    requires expBits >= 1
  {
    (if sub && e < 3 - Pow2(expBits - 1) then 3 - Pow2(expBits - 1) else e) - prec
  }

  /** A number of the format is a multiple of that place, or below a multiple that is not above x. */
  lemma {:induction false} FormatMultiple(z: real, prec: nat, expBits: nat, sub: bool, x: real, e: int) returns (d: int)
    requires expBits >= 1 && prec >= 1 && InFormat(z, prec, expBits, sub) && P2(e - 1) <= x
    ensures var t := d as real * P2(Place(prec, expBits, sub, e)); z == t || z < t <= x
  {
    hide Pow2, P2, Float;
    var q := Place(prec, expBits, sub, e);
    var m: nat, f: int :| m < Pow2(prec) && (sub ==> f >= 3 - Pow2(expBits - 1) - prec) && z == Float(m, f);
    if f >= q {
      d := m * Pow2(f - q);
      FloatShift(m, q, f - q);
      FloatIs(d, q);
    } else {
      d := Pow2(prec - 1);
      ShortOfPlace(m, f, prec, q);
      P2Mono(f + prec, e - 1);
    }
  }

  lemma {:induction false} FloatIs(m: nat, f: int)
    ensures Float(m, f) == m as real * P2(f)
  {
  }

  lemma {:induction false} ShortOfPlace(m: nat, f: int, prec: nat, q: int)
    requires prec >= 1 && m < Pow2(prec)
    ensures Float(m, f) < P2(f + prec) && Pow2(prec - 1) as real * P2(q) == P2(q + prec - 1)
  {
    hide Pow2, P2;
    P2Shift(q, prec - 1);
    P2Shift(f, prec);
    RealOrder(Pow2(prec), m, P2(f));
  }

  /** The number in r, with 2^(2^(expBits - 1)) for infinity. */
  ghost function ValueOf(r: BigFloat, lb: nat, expBits: nat): real
    requires r.Valid() && expBits >= 1
    reads r, r.tab
  {
    if IsInf(r) then P2(Pow2(expBits - 1)) else r.Magnitude(lb)
  }

  ghost predicate IsInf(r: BigFloat)
    reads r
  {
    r.len == 0 && r.expn == EXP_INF
  }

  ghost predicate EvenPlace(w: real, unit: real) {
    exists c: int :: c % 2 == 0 && w == c as real * unit
  }

  lemma {:induction false} PowerMultiple(k: int, q: int) returns (d: nat)
    requires q <= k
    ensures P2(k) == d as real * P2(q) && d == Pow2(k - q)
  {
    hide P2, Pow2;
    d := Pow2(k - q);
    P2Shift(q, k - q);
  }

  /** A rounded value does not pass a multiple above x. */
  lemma {:induction false} NotPast(mode: Mode, neg: bool, x: real, unit: real, y: real, c: int, k: int)
    requires unit > 0.0 && y == c as real * unit && Placed(mode, neg, x, unit, y, c) && x <= k as real * unit
    ensures c <= k
  {
    hide Placed;
    Within(mode, neg, x, unit, y, c);
    if c > k {
      UnitAbove(unit, k as real * unit, k, y, c);
    }
  }

  lemma {:induction false} UnitAbove(unit: real, t: real, k: int, y: real, c: int)
    requires unit > 0.0 && t == k as real * unit && y == c as real * unit && c > k
    ensures y >= t + unit
  {
    NextMultiples(unit, t, k);
    Multiples(k + 1, c, unit, t + unit, y);
  }

  lemma {:induction false} Within(mode: Mode, neg: bool, x: real, unit: real, y: real, c: int)
    requires unit > 0.0 && Placed(mode, neg, x, unit, y, c)
    ensures x - unit < y < x + unit
  {
  }

  lemma {:induction false} NotNegative(mode: Mode, neg: bool, x: real, unit: real, y: real, c: int)
    requires unit > 0.0 && y == c as real * unit && Placed(mode, neg, x, unit, y, c) && x > 0.0
    ensures c >= 0
  {
    hide Placed;
    Within(mode, neg, x, unit, y, c);
    if c < 0 {
      Multiples(c, -1, unit, y, -unit);
    }
  }

  /** A rounded value is a number of the format, unless it is too large. */
  lemma {:induction false} RoundedInFormat(mode: Mode, neg: bool, x: real, e: int, prec: nat, expBits: nat, sub: bool, y: real, c: int)
    requires expBits >= 3 && prec >= 1 && P2(e - 1) <= x < P2(e) && y < P2(Pow2(expBits - 1))
    requires var u := P2(Place(prec, expBits, sub, e)); y == c as real * u && Placed(mode, neg, x, u, y, c)
    ensures InFormat(y, prec, expBits, sub)
  {
    hide P2, Pow2, Placed;
    var q := Place(prec, expBits, sub, e);
    NotNegative(mode, neg, x, P2(q), y, c);
    var k := q + prec;
    P2Mono(e, k);
    var d := PowerMultiple(k, q);
    NotPast(mode, neg, x, P2(q), y, c, d);
    if c < Pow2(prec) {
      assert y == Float(c, q);
    } else {
      OneFloat(k);
      MoreThanOne(prec);
      assert y == Float(1, k);
    }
  }

  lemma {:induction false} OneFloat(k: int)
    ensures Float(1, k) == P2(k)
  {
    hide P2;
  }

  lemma {:induction false} MoreThanOne(prec: nat)
    requires prec >= 1
    ensures 1 < Pow2(prec)
  {
  }

  /** The largest number of the format. */
  lemma {:induction false} LargestInFormat(prec: nat, expBits: nat, sub: bool, w: real)
    requires expBits >= 3 && prec >= 1 && w == Float(Pow2(prec) - 1, Pow2(expBits - 1) - prec)
    ensures InFormat(w, prec, expBits, sub) && w < P2(Pow2(expBits - 1))
  {
    TopIsLarge(expBits);
    hide P2, Pow2;
    var top: int := Pow2(expBits - 1);
    P2Shift(top - prec, prec);
    RealOrder(Pow2(prec) - 1, Pow2(prec), P2(top - prec));
    RealOrder(Pow2(prec), Pow2(prec) - 1, P2(top - prec));
  }

  lemma {:induction false} TopIsLarge(expBits: nat)
    requires expBits >= 3
    ensures Pow2(expBits - 1) >= 4
  {
    Pow2Mono(2, expBits - 1);
    assert Pow2(2) == 4;
  }

  lemma {:induction false} NoLarger(prec: nat, expBits: nat, sub: bool, w: real, z: real)
    requires expBits >= 3 && prec >= 1 && w == Float(Pow2(prec) - 1, Pow2(expBits - 1) - prec) && InFormat(z, prec, expBits, sub)
    ensures z <= w
  {
    hide P2, Pow2, Float;
    var top: int := Pow2(expBits - 1);
    var g := top - prec;
    var m: nat, f: int :| m < Pow2(prec) && (sub ==> f >= 3 - Pow2(expBits - 1) - prec) && z == Float(m, f);
    FloatIs(Pow2(prec) - 1, g);
    if f >= g {
      var d := m * Pow2(f - g);
      FloatShift(m, g, f - g);
      FloatIs(d, g);
      P2Shift(g, prec);
      AtMostTop(d, Pow2(prec), Pow2(prec) - 1, P2(g), z, w, P2(top));
    } else {
      FloatIs(m, f);
      P2Mono(f, g);
      NotLarger(m, Pow2(prec) - 1, P2(f), P2(g));
    }
  }

  lemma {:induction false} NotLarger(m: nat, n: nat, p: real, g: real)
    requires m <= n && 0.0 < p <= g
    ensures m as real * p <= n as real * g
  {
    RealOrder(m, n, p);
    ScaledUp(n, p, g);
  }

  lemma {:induction false} AtMostTop(d: nat, n: nat, k: nat, p: real, z: real, w: real, t: real)
    requires p > 0.0 && n == k + 1 && z == d as real * p && w == k as real * p && t == n as real * p && z < t
    ensures z <= w
  {
    Multiples(n, d, p, t, z);
    Multiples(d, k, p, z, w);
  }

  lemma {:induction false} ScaledUp(m: nat, p: real, g: real)
    requires p <= g
    ensures m as real * p <= m as real * g
  {
  }

  /** A result that was rounded, and not too large. */
  lemma {:induction false} RoundedBest(mode: Mode, neg: bool, x: real, e: int, prec: nat, expBits: nat, sub: bool, y: real, c: int, z: real)
    requires expBits >= 1 && prec >= 1 && P2(e - 1) <= x && InFormat(z, prec, expBits, sub)
    requires var u := P2(Place(prec, expBits, sub, e)); y == c as real * u && Placed(mode, neg, x, u, y, c)
    ensures AtLeast(mode, neg, x, y, z, EvenPlace(y, P2(Place(prec, expBits, sub, e))))
  {
    hide P2, Pow2, Placed, AtLeast, Place, InFormat;
    var u := P2(Place(prec, expBits, sub, e));
    var d := FormatMultiple(z, prec, expBits, sub, x, e);
    var t := d as real * u;
    BestMultiple(mode, neg, x, u, y, c, t, d);
    if z != t {
      BelowMultiple(mode, neg, x, y, t, z, c % 2 == 0);
    }
    MoreEven(mode, neg, x, y, z, c % 2 == 0, EvenPlace(y, u));
  }

  lemma {:induction false} MoreEven(mode: Mode, neg: bool, x: real, w: real, z: real, even: bool, even': bool)
    requires AtLeast(mode, neg, x, w, z, even) && (even ==> even')
    ensures AtLeast(mode, neg, x, w, z, even')
  {
  }

  /** A result that was too large: infinity, or the largest number. */
  lemma {:induction false} OverflowBest(mode: Mode, neg: bool, x: real, e: int, prec: nat, expBits: nat, sub: bool, y: real, c: int, z: real, w: real, inf: bool)
    requires expBits >= 3 && prec >= 1 && P2(e - 1) <= x < P2(e) && InFormat(z, prec, expBits, sub) && y >= P2(Pow2(expBits - 1))
    requires var u := P2(Place(prec, expBits, sub, e)); y == c as real * u && Placed(mode, neg, x, u, y, c)
    requires inf == !(mode == RNDZ || (mode == RNDD && !neg) || (mode == RNDU && neg))
    requires w == if inf then P2(Pow2(expBits - 1)) else Float(Pow2(prec) - 1, Pow2(expBits - 1) - prec)
    ensures AtLeast(mode, neg, x, w, z, EvenPlace(w, P2(Place(prec, expBits, sub, e))))
  {
    hide P2, Pow2, Placed, AtLeast, EvenPlace, InFormat, Float;
    if x >= P2(Pow2(expBits - 1)) {
      Beyond(mode, neg, x, prec, expBits, sub, z, w, inf, EvenPlace(w, P2(Place(prec, expBits, sub, e))));
    } else {
      RoundedToTop(mode, neg, x, e, prec, expBits, sub, y, c);
      RoundedBest(mode, neg, x, e, prec, expBits, sub, y, c, z);
    }
  }

  /** Below the limit, a value that is rounded to the limit or more is rounded to it, and upwards. */
  lemma {:induction false} RoundedToTop(mode: Mode, neg: bool, x: real, e: int, prec: nat, expBits: nat, sub: bool, y: real, c: int)
    requires expBits >= 3 && prec >= 1 && P2(e - 1) <= x < P2(Pow2(expBits - 1)) <= y
    requires var u := P2(Place(prec, expBits, sub, e)); y == c as real * u && Placed(mode, neg, x, u, y, c)
    ensures y == P2(Pow2(expBits - 1)) && !(mode == RNDZ || (mode == RNDD && !neg) || (mode == RNDU && neg))
  {
    hide P2, Pow2, Placed, Place;
    PlaceBelowTop(x, e, prec, expBits, sub);
    var q, top := Place(prec, expBits, sub, e), P2(Pow2(expBits - 1));
    var k := PowerMultiple(Pow2(expBits - 1), q);
    AtMultiple(mode, neg, x, P2(q), y, c, top, k);
  }

  lemma {:induction false} PlaceBelowTop(x: real, e: int, prec: nat, expBits: nat, sub: bool)
    requires expBits >= 3 && prec >= 1 && P2(e - 1) <= x < P2(Pow2(expBits - 1))
    ensures Place(prec, expBits, sub, e) <= Pow2(expBits - 1)
  {
    TopIsLarge(expBits);
    hide P2, Pow2;
    if e > Pow2(expBits - 1) {
      P2Mono(Pow2(expBits - 1), e - 1);
    }
  }

  lemma {:induction false} AtMultiple(mode: Mode, neg: bool, x: real, unit: real, y: real, c: int, t: real, k: int)
    requires unit > 0.0 && y == c as real * unit && Placed(mode, neg, x, unit, y, c) && t == k as real * unit && x < t <= y
    ensures y == t && !(mode == RNDZ || (mode == RNDD && !neg) || (mode == RNDU && neg))
  {
    hide Placed;
    NotPast(mode, neg, x, unit, y, c, k);
    Multiples(c, k, unit, y, t);
    NotDown(mode, neg, x, unit, y, c);
  }

  lemma {:induction false} NotDown(mode: Mode, neg: bool, x: real, unit: real, y: real, c: int)
    requires Placed(mode, neg, x, unit, y, c) && x < y
    ensures !(mode == RNDZ || (mode == RNDD && !neg) || (mode == RNDU && neg))
  {
  }

  lemma {:induction false} Beyond(mode: Mode, neg: bool, x: real, prec: nat, expBits: nat, sub: bool, z: real, w: real, inf: bool, even: bool)
    requires expBits >= 3 && prec >= 1 && InFormat(z, prec, expBits, sub) && x >= P2(Pow2(expBits - 1))
    requires inf == !(mode == RNDZ || (mode == RNDD && !neg) || (mode == RNDU && neg))
    requires w == if inf then P2(Pow2(expBits - 1)) else Float(Pow2(prec) - 1, Pow2(expBits - 1) - prec)
    ensures AtLeast(mode, neg, x, w, z, even)
  {
    hide P2, Pow2, Float;
    if !inf {
      LargestInFormat(prec, expBits, sub, w);
      NoLarger(prec, expBits, sub, w, z);
    }
  }

  /**
  Whatever is delivered, unless it was flushed to zero below the smallest normal number, is a number of the
  format or infinity, and none of the numbers of the format is better in the rounding mode.
  */
  lemma {:induction false} AmongFormat(exact: real, e: int, neg: bool, prec: nat, flags: Flags, lb: nat, ret0: Status, r: BigFloat, ret: Status, z: real)
    requires flags.expBits >= 3 && !flags.radpnt && 1 <= prec && prec != PREC_INF && r.Valid()
    requires Delivered(exact, e, neg, prec, flags, lb, ret0, r, ret)
    ensures !flags.subnormal && r.IsZero(neg) ==> exact < P2(2 - Pow2(flags.expBits - 1)) && ret.underflow && ret.inexact
    ensures IsInf(r) ==> ret.overflow && flags.mode != RNDZ && flags.mode != (if neg then RNDU else RNDD)
    ensures flags.subnormal || !r.IsZero(neg) ==>
              (!IsInf(r) ==> InFormat(r.Magnitude(lb), prec, flags.expBits, flags.subnormal)) &&
              (!IsInf(r) && (flags.mode == RNDA || flags.mode == (if neg then RNDD else RNDU)) ==> r.Magnitude(lb) >= exact) &&
              (InFormat(z, prec, flags.expBits, flags.subnormal) ==>
                 AtLeast(flags.mode, neg, exact, ValueOf(r, lb, flags.expBits), z,
                         EvenPlace(ValueOf(r, lb, flags.expBits), P2(Place(prec, flags.expBits, flags.subnormal, e)))))
  {
    hide P2, Pow2, Float, RoundReal, AtLeast, InFormat, EvenPlace, Placed, IsRounding;
    var top: int, q := Pow2(flags.expBits - 1), Place(prec, flags.expBits, flags.subnormal, e);
    var y := RoundReal(flags.mode, neg, exact, P2(q));
    assert q == LastPlace(flags, prec, e);
    var c: int :| y == c as real * P2(q) && Placed(flags.mode, neg, exact, P2(q), y, c);
    var w := ValueOf(r, lb, flags.expBits);
    if e > q && !flags.subnormal && y < P2(2 - top) {
      BelowNormal(flags.mode, neg, exact, e, prec, P2(q), q, y, c, 2 - top);
    } else if e > q && y >= P2(top) {
      LargestIs(r, lb, prec, flags);
      if InFormat(z, prec, flags.expBits, flags.subnormal) {
        OverflowBest(flags.mode, neg, exact, e, prec, flags.expBits, flags.subnormal, y, c, z, w, IsInf(r));
      }
    } else {
      NumberIs(r, lb, y);
      UpIsAbove(flags.mode, neg, exact, P2(q), y, c);
      if e <= q {
        TinyBelow(flags.mode, neg, exact, e, prec, flags.expBits, flags.subnormal, y, c);
      }
      RoundedInFormat(flags.mode, neg, exact, e, prec, flags.expBits, flags.subnormal, y, c);
      if InFormat(z, prec, flags.expBits, flags.subnormal) {
        RoundedBest(flags.mode, neg, exact, e, prec, flags.expBits, flags.subnormal, y, c, z);
      }
    }
  }

  /** A value that is rounded below a power of two is below it. */
  lemma {:induction false} BelowNormal(mode: Mode, neg: bool, x: real, e: int, prec: nat, unit: real, q: int, y: real, c: int, k: int)
    requires prec >= 1 && q == e - prec && unit == P2(q) && P2(e - 1) <= x < P2(e)
    requires y == c as real * unit && Placed(mode, neg, x, unit, y, c) && y < P2(k)
    ensures x < P2(k)
  {
    hide P2, Pow2, Placed;
    var d := PowerMultiple(e - 1, q);
    var t := P2(e - 1);
    Within(mode, neg, x, unit, y, c);
    if c < d {
      UnitAbove(unit, y, c, t, d);
    }
    Multiples(d, c, unit, t, y);
    if e > k {
      P2Mono(k, e - 1);
    } else {
      P2Mono(e, k);
    }
  }

  lemma {:induction false} UpIsAbove(mode: Mode, neg: bool, x: real, unit: real, y: real, c: int)
    requires Placed(mode, neg, x, unit, y, c)
    ensures mode == RNDA || mode == (if neg then RNDD else RNDU) ==> y >= x
  {
  }

  lemma {:induction false} NumberIs(r: BigFloat, lb: nat, y: real)
    requires r.Valid() && (IsNumber(r, lb, y) || (r.Normal(lb) && r.Magnitude(lb) == y))
    ensures !IsInf(r) && r.Magnitude(lb) == y
  {
    if r.len == 0 {
      assert r.tab[..0] == [];
    }
  }

  lemma {:induction false} LargestIs(r: BigFloat, lb: nat, prec: nat, flags: Flags)
    requires flags.expBits >= 3 && 1 <= prec && prec != PREC_INF && r.Valid() && Largest(r, lb, prec, flags)
    ensures IsInf(r) == !(flags.mode == RNDZ || (flags.mode == RNDD && !r.neg) || (flags.mode == RNDU && r.neg))
    ensures !IsInf(r) ==> r.Magnitude(lb) == Float(Pow2(prec) - 1, Pow2(flags.expBits - 1) - prec) && InFormat(r.Magnitude(lb), prec, flags.expBits, flags.subnormal)
  {
    hide Pow2, Float, P2, InFormat;
    if !IsInf(r) {
      LargestInFormat(prec, flags.expBits, flags.subnormal, r.Magnitude(lb));
    }
  }

  /** With no bit kept, at most one unit of the last place. */
  lemma {:induction false} TinyBelow(mode: Mode, neg: bool, x: real, e: int, prec: nat, expBits: nat, sub: bool, y: real, c: int)
    requires expBits >= 3 && prec >= 1 && x < P2(e) && e <= Place(prec, expBits, sub, e)
    requires var u := P2(Place(prec, expBits, sub, e)); y == c as real * u && Placed(mode, neg, x, u, y, c)
    ensures y < P2(Pow2(expBits - 1))
  {
    TopIsLarge(expBits);
    hide P2, Pow2, Placed;
    var top: int := Pow2(expBits - 1);
    var q := Place(prec, expBits, sub, e);
    P2Mono(e, q);
    NotPast(mode, neg, x, P2(q), y, c, 1);
    Multiples(c, 1, P2(q), y, P2(q));
    P2Succ(q);
    P2Mono(q + 1, top);
  }
}
