/** Rounding to a given precision as section 4.3 of IEEE 754-2008 defines it, and on integers. */
module RoundSpec {
  import opened Arith

  datatype Mode = RNDN | RNDZ | RNDD | RNDU | RNDNA | RNDA

  function Pow2(k: nat): (p: nat)
    ensures p >= 1
  {
    if k == 0 then 1 else 2 * Pow2(k - 1)
  }

  lemma {:induction false} Pow2Add(i: nat, j: nat)
    ensures Pow2(i + j) == Pow2(i) * Pow2(j)
  {
    if i > 0 {
      Pow2Add(i - 1, j);
      MulAssoc(2, Pow2(i - 1), Pow2(j));
    }
  }

  lemma {:induction false} Pow2Mono(i: nat, j: nat)
    requires i <= j
    ensures Pow2(i) <= Pow2(j)
  {
    if i < j {
      Pow2Mono(i, j - 1);
    }
  }

  /** In magnitude the mode rounds down, up, or to nearest. */
  predicate Downward(mode: Mode, neg: bool) {
    mode == RNDZ || (mode == RNDD && !neg) || (mode == RNDU && neg)
  }

  predicate Upward(mode: Mode, neg: bool) {
    mode == RNDA || (mode == RNDD && neg) || (mode == RNDU && !neg)
  }

  /** Whether q * unit + rem is rounded up to (q + 1) * unit. */
  predicate Up(mode: Mode, neg: bool, q: nat, rem: nat, unit: nat) {
    if Downward(mode, neg) then false
    else if Upward(mode, neg) then rem != 0
    else if mode == RNDN then 2 * rem > unit || (2 * rem == unit && q % 2 == 1)
    else 2 * rem >= unit
  }

  function RoundUnits(mode: Mode, neg: bool, x: nat, unit: nat): nat
    requires unit >= 1
  {
    var q, rem := x / unit, x % unit;
    q + if Up(mode, neg, q, rem, unit) then 1 else 0
  }

  /** x rounded to a multiple of unit. */
  function RoundInt(mode: Mode, neg: bool, x: nat, unit: nat): nat
    requires unit >= 1
  {
    RoundUnits(mode, neg, x, unit) * unit
  }

  lemma {:induction false} RoundIs(mode: Mode, neg: bool, x: nat, unit: nat, q: nat, rem: nat)
    requires x == q * unit + rem && rem < unit
    ensures RoundUnits(mode, neg, x, unit) == q + if Up(mode, neg, q, rem, unit) then 1 else 0
    ensures x / unit == q && x % unit == rem
  {
    DivUnique(x / unit, x % unit, q, rem, unit);
  }

  /** What rounding to a multiple of `unit` means, for every other multiple. */
  lemma {:induction false} RoundAmongMultiples(mode: Mode, neg: bool, x: nat, unit: nat, c: nat, u: nat, y: nat, z: nat)
    requires unit >= 1 && u == RoundUnits(mode, neg, x, unit) && y == u * unit && z == c * unit
    ensures BestInt(mode, neg, x, y, z, u)
  {
    hide Up;
    var q, rem := DivMod(x, unit);
    RoundIs(mode, neg, x, unit, q, rem);
    MulDist(q, 1, unit);
    if c <= q {
      MulMono(c, q, unit);
    } else {
      MulMono(q + 1, c, unit);
    }
    RoundCore(mode, neg, q, rem, unit, q * unit, z);
  }

  lemma {:induction false} RoundCore(mode: Mode, neg: bool, q: nat, rem: nat, unit: nat, floor: nat, z: nat)
    requires rem < unit && (z <= floor || z >= floor + unit)
    ensures var up := Up(mode, neg, q, rem, unit);
            BestInt(mode, neg, floor + rem, if up then floor + unit else floor, z, if up then q + 1 else q)
  {
  }

  function Dist(x: int, y: int): nat {
    if x >= y then x - y else y - x
  }

  /** A float of at most prec bits that is at least 2^(n-1) is a multiple of 2^(n-prec). */
  lemma {:induction false} FloatIsMultiple(prec: nat, n: nat, m: nat, e: nat) returns (c: nat)
    requires 1 <= prec <= n && m < Pow2(prec) && m * Pow2(e) >= Pow2(n - 1)
    ensures m * Pow2(e) == c * Pow2(n - prec)
  {
    var k := n - prec;
    if e < k {
      MulStrict(m, Pow2(prec), Pow2(e));
      Pow2Add(prec, e);
      Pow2Mono(prec + e, n - 1);
      assert false;
    }
    Pow2Add(e - k, k);
    MulAssoc(m, Pow2(e - k), Pow2(k));
    c := m * Pow2(e - k);
  }

  /** Rounding an n-bit number to prec bits is correct among all floats of prec bits. */
  lemma {:induction false} RoundAmongFloats(mode: Mode, neg: bool, x: nat, n: nat, prec: nat, m: nat, e: nat,
                                            u: nat, y: nat, z: nat)
    requires 1 <= prec <= n && Pow2(n - 1) <= x < Pow2(n) && m < Pow2(prec)
    requires u == RoundUnits(mode, neg, x, Pow2(n - prec)) && y == u * Pow2(n - prec) && z == m * Pow2(e)
    ensures Pow2(prec - 1) <= u <= Pow2(prec) && BestInt(mode, neg, x, y, z, u)
  {
    hide RoundUnits;
    var unit := Pow2(n - prec);
    RoundRange(mode, neg, x, n, prec);
    if m * Pow2(e) >= Pow2(n - 1) {
      var c := FloatIsMultiple(prec, n, m, e);
      RoundAmongMultiples(mode, neg, x, unit, c, u, y, z);
    } else {
      Pow2Add(prec - 1, n - prec);
      RoundAmongMultiples(mode, neg, x, unit, Pow2(prec - 1), u, y, Pow2(n - 1));
    }
  }

  lemma {:induction false} RoundRange(mode: Mode, neg: bool, x: nat, n: nat, prec: nat)
    requires 1 <= prec <= n && Pow2(n - 1) <= x < Pow2(n)
    ensures var u, y := RoundUnits(mode, neg, x, Pow2(n - prec)), RoundInt(mode, neg, x, Pow2(n - prec));
            Pow2(prec - 1) <= u <= Pow2(prec) && Pow2(n - 1) <= y <= Pow2(n)
  {
    var unit := Pow2(n - prec);
    var q, rem := x / unit, x % unit;
    assert x == q * unit + rem;
    var u := RoundUnits(mode, neg, x, unit);
    Pow2Add(prec, n - prec);
    Pow2Add(prec - 1, n - prec);
    if q < Pow2(prec - 1) {
      MulMono(q + 1, Pow2(prec - 1), unit);
      MulDist(q, 1, unit);
      assert false;
    }
    if q >= Pow2(prec) {
      MulMono(Pow2(prec), q, unit);
      assert false;
    }
    MulMono(Pow2(prec - 1), u, unit);
    MulMono(u, Pow2(prec), unit);
  }

  /** Rounding does not depend on the scale. */
  lemma {:induction false} RoundScale(mode: Mode, neg: bool, x: nat, unit: nat, w: nat)
    requires unit >= 1 && w >= 1
    ensures unit * w >= 1 && RoundUnits(mode, neg, x * w, unit * w) == RoundUnits(mode, neg, x, unit)
  {
    var q, rem := x / unit, x % unit;
    assert x == q * unit + rem;
    MulStrict(rem, unit, w);
    MulDist(q * unit, rem, w);
    MulAssoc(q, unit, w);
    MulMono(1, unit, w);
    RoundIs(mode, neg, x * w, unit * w, q, rem * w);
    UpScale(mode, neg, q, rem, unit, w);
  }

  lemma {:induction false} UpScale(mode: Mode, neg: bool, q: nat, rem: nat, unit: nat, w: nat)
    requires w >= 1
    ensures Up(mode, neg, q, rem * w, unit * w) == Up(mode, neg, q, rem, unit)
  {
    MulAssoc(2, rem, w);
    Scale3(2 * rem, unit, w);
    Scale3(rem, 0, w);
  }

  lemma {:induction false} Scale3(x: int, y: int, w: int)
    requires w >= 1
    ensures x < y <==> x * w < y * w
    ensures x == y <==> x * w == y * w
  {
    if x < y {
      MulStrict(x, y, w);
    } else if y < x {
      MulStrict(y, x, w);
    }
  }

  /** The lowest bit set if anything was lost below it. */
  function Sticky(q: nat, low: nat): nat {
    if low != 0 && q % 2 == 0 then q + 1 else q
  }

  /**
  Two extra bits and a sticky bit are enough: rounding the truncated number rounds the exact
  one, in every mode.
  */
  lemma {:induction false} StickyRounds(mode: Mode, neg: bool, x: nat, w: nat, low: nat, k: nat)
    requires k >= 2 && low < w
    ensures Pow2(k) * w >= 1
    ensures RoundUnits(mode, neg, x * w + low, Pow2(k) * w) == RoundUnits(mode, neg, Sticky(x, low), Pow2(k))
  {
    hide RoundUnits, Sticky;
    var h := Pow2(k - 2);
    assert Pow2(k) == 4 * h by { assert Pow2(k - 1) == 2 * h; }
    var q, r := DivMod(x, 4 * h);
    StickyCore(mode, neg, x, q, r, h, w, low);
  }

  lemma {:induction false} DivMod(x: nat, u: nat) returns (q: nat, r: nat)
    requires u >= 1
    ensures x == q * u + r && r < u
  {
    q, r := x / u, x % u;
  }

  lemma {:induction false} StickyCore(mode: Mode, neg: bool, x: nat, q: nat, r: nat, h: nat, w: nat, low: nat)
    requires x == q * (4 * h) + r && r < 4 * h && low < w
    ensures 4 * h * w >= 1
    ensures RoundUnits(mode, neg, x * w + low, 4 * h * w) == RoundUnits(mode, neg, Sticky(x, low), 4 * h)
  {
    hide Up, RoundUnits, Sticky;
    StickyParts(x, q, r, h, low);
    RoundIs(mode, neg, Sticky(x, low), 4 * h, q, Sticky(r, low));
    MulMono(1, 4 * h, w);
    LowPart(q, r, 4 * h, w, low);
    RoundIs(mode, neg, x * w + low, 4 * h * w, q, r * w + low);
    StickyUp(mode, neg, q, r, h, w, low);
  }

  lemma {:induction false} StickyParts(x: nat, q: nat, r: nat, h: nat, low: nat)
    requires x == q * (4 * h) + r && r < 4 * h
    ensures Sticky(x, low) == q * (4 * h) + Sticky(r, low) && Sticky(r, low) < 4 * h
  {
    EvenMultiple(q, h);
    StickyEven(q * (4 * h), r, 4 * h, low);
  }

  lemma {:induction false} StickyEven(c: nat, r: nat, u: nat, low: nat)
    requires c % 2 == 0 && u % 2 == 0 && r < u
    ensures Sticky(c + r, low) == c + Sticky(r, low) && Sticky(r, low) < u
  {
  }

  lemma {:induction false} EvenMultiple(q: nat, h: nat)
    ensures (q * (4 * h)) % 2 == 0
  {
    assert q * (4 * h) == 2 * (q * (2 * h)) by { MulAssoc(q, 2 * h, 2); }
  }

  lemma {:induction false} LowPart(q: nat, r: nat, unit: nat, w: nat, low: nat)
    requires r < unit && low < w
    ensures r * w + low < unit * w
    ensures (q * unit + r) * w + low == q * (unit * w) + (r * w + low)
  {
    MulDist(q * unit, r, w);
    MulAssoc(q, unit, w);
    MulMono(r + 1, unit, w);
    MulDist(r, 1, w);
  }

  lemma {:induction false} StickyUp(mode: Mode, neg: bool, q: nat, r: nat, h: nat, w: nat, low: nat)
    requires low < w && r < 4 * h
    ensures Up(mode, neg, q, r * w + low, 4 * h * w) == Up(mode, neg, q, Sticky(r, low), 4 * h)
  {
    MulAssoc(2, 2 * h, w);
    if r < 2 * h {
      MulMono(r + 1, 2 * h, w);
      MulDist(r, 1, w);
    } else {
      MulMono(2 * h, r, w);
      if r > 2 * h {
        MulMono(2 * h + 1, r, w);
        MulDist(2 * h, 1, w);
      }
    }
    Scale3(r, 0, w);
  }

  /** 2^e for any integer e. */
  function P2(e: int): (p: real)
    ensures p > 0.0
  {
    if e >= 0 then Pow2(e) as real else 1.0 / (Pow2(-e) as real)
  }

  lemma {:induction false} P2Succ(e: int)
    ensures P2(e + 1) == 2.0 * P2(e)
  {
    if e < -1 {
      var p := Pow2(-e - 1) as real;
      assert Pow2(-e) as real == 2.0 * p;
      Halve(p);
    }
  }

  lemma {:induction false} Halve(p: real)
    requires p > 0.0
    ensures 1.0 / p == 2.0 * (1.0 / (2.0 * p))
  {
  }

  lemma {:induction false} P2Shift(e: int, k: nat)
    ensures P2(e + k) == Pow2(k) as real * P2(e)
    decreases k
  {
    hide P2;
    if k > 0 {
      P2Shift(e, k - 1);
      P2Succ(e + (k - 1));
      RealAssoc(2.0, Pow2(k - 1) as real, P2(e));
    }
  }

  lemma {:induction false} RealAssoc(x: real, y: real, z: real)
    ensures x * y * z == x * (y * z)
  {
  }

  lemma {:induction false} RealOrder(x: int, y: int, p: real)
    requires p > 0.0
    ensures x <= y <==> x as real * p <= y as real * p
    ensures x == y <==> x as real * p == y as real * p
  {
    RealCancel(x as real, y as real, p);
  }

  lemma {:induction false} RealCancel(x: real, y: real, p: real)
    requires p > 0.0
    ensures x <= y <==> x * p <= y * p
    ensures x == y <==> x * p == y * p
  {
    if x < y {
      RealStrict(x, y, p);
    } else if y < x {
      RealStrict(y, x, p);
    }
  }

  lemma {:induction false} RealStrict(x: real, y: real, p: real)
    requires p > 0.0 && x < y
    ensures x * p < y * p
  {
  }

  function Gap(x: real, y: real): real {
    if x >= y then x - y else y - x
  }

  /** m * 2^f */
  function Float(m: nat, f: int): real {
    m as real * P2(f)
  }

  /**
  u * 2^e is the rounding of the magnitude x > 0 to prec bits: the largest float below, the
  smallest above, or the nearest, with ties to the even significand or away from zero.
  */
  ghost predicate Correct(mode: Mode, neg: bool, prec: nat, x: real, u: nat, e: int)
    requires prec >= 1
  {
    Pow2(prec - 1) <= u <= Pow2(prec) &&
    forall m: nat, f: int :: m < Pow2(prec) ==> Best(mode, neg, x, Float(u, e), Float(m, f), u)
  }

  /** The rounding y of x, with significand u, is no worse than the candidate z. */
  ghost predicate Best(mode: Mode, neg: bool, x: real, y: real, z: real, u: nat) {
    (Downward(mode, neg) ==> y <= x && (z <= x ==> z <= y)) &&
    (Upward(mode, neg) ==> y >= x && (z >= x ==> z >= y)) &&
    (mode == RNDN || mode == RNDNA ==> Gap(x, y) <= Gap(x, z)) &&
    (mode == RNDN && Gap(x, y) == Gap(x, z) && y != z ==> u % 2 == 0) &&
    (mode == RNDNA && Gap(x, y) == Gap(x, z) ==> z <= y)
  }

  ghost predicate BestInt(mode: Mode, neg: bool, x: int, y: int, z: int, u: nat) {
    (Downward(mode, neg) ==> y <= x && (z <= x ==> z <= y)) &&
    (Upward(mode, neg) ==> y >= x && (z >= x ==> z >= y)) &&
    (mode == RNDN || mode == RNDNA ==> Dist(x, y) <= Dist(x, z)) &&
    (mode == RNDN && Dist(x, y) == Dist(x, z) && y != z ==> u % 2 == 0) &&
    (mode == RNDNA && Dist(x, y) == Dist(x, z) ==> z <= y)
  }

  lemma {:induction false} BestScales(mode: Mode, neg: bool, x: int, y: int, z: int, u: nat, p: real)
    requires BestInt(mode, neg, x, y, z, u) && p > 0.0
    ensures Best(mode, neg, x as real * p, y as real * p, z as real * p, u)
  {
    hide Gap, Dist;
    RealOrder(y, x, p);
    RealOrder(x, y, p);
    RealOrder(z, x, p);
    RealOrder(x, z, p);
    RealOrder(z, y, p);
    RealOrder(y, z, p);
    GapScale(x, y, p);
    GapScale(x, z, p);
    RealOrder(Dist(x, y), Dist(x, z), p);
  }

  lemma {:induction false} GapScale(x: int, y: int, p: real)
    requires p > 0.0
    ensures Gap(x as real * p, y as real * p) == Dist(x, y) as real * p
  {
    RealOrder(y, x, p);
    RealDist(x as real, y as real, p);
  }

  lemma {:induction false} RealDist(x: real, y: real, p: real)
    ensures (x - y) * p == x * p - y * p && (y - x) * p == y * p - x * p
  {
  }

  /** Integer rounding, at scale 2^g, is correct in that scale. */
  lemma {:induction false} BestAtScale(mode: Mode, neg: bool, x: nat, n: nat, prec: nat, g: int, m: nat, e: nat,
                                       u: nat, rx: real, ry: real, rz: real)
    requires 1 <= prec <= n && Pow2(n - 1) <= x < Pow2(n) && m < Pow2(prec) && u == RoundUnits(mode, neg, x, Pow2(n - prec))
    requires rx == Float(x, g) && ry == Float(u, g + (n - prec)) && rz == Float(m, g + e)
    ensures Best(mode, neg, rx, ry, rz, u)
  {
    hide RoundUnits, P2, Pow2, BestInt, Gap, Downward, Upward;
    var k := n - prec;
    var y, z := u * Pow2(k), m * Pow2(e);
    RoundAmongFloats(mode, neg, x, n, prec, m, e, u, y, z);
    FloatShift(u, g, k);
    FloatShift(m, g, e);
    ScaledBest(mode, neg, x, y, z, u, P2(g), rx, ry, rz);
  }

  lemma {:induction false} ScaledBest(mode: Mode, neg: bool, x: int, y: int, z: int, u: nat, p: real, rx: real, ry: real, rz: real)
    requires BestInt(mode, neg, x, y, z, u) && p > 0.0 && rx == x as real * p && ry == y as real * p && rz == z as real * p
    ensures Best(mode, neg, rx, ry, rz, u)
  {
    hide BestInt, Gap, Downward, Upward;
    BestScales(mode, neg, x, y, z, u, p);
  }

  lemma {:induction false} FloatShift(u: nat, g: int, k: nat)
    ensures Float(u, g + k) == Float(u * Pow2(k), g)
  {
    hide P2, Pow2;
    P2Shift(g, k);
    IntMul(u, Pow2(k));
    RealAssoc(u as real, Pow2(k) as real, P2(g));
  }

  lemma {:induction false} IntMul(x: int, y: int)
    ensures (x * y) as real == x as real * y as real
  {
  }

  /** The integer rounding is correct at every scale. */
  lemma {:induction false} RoundIsCorrect(mode: Mode, neg: bool, x: nat, n: nat, prec: nat, g: int)
    requires 1 <= prec <= n && Pow2(n - 1) <= x < Pow2(n)
    ensures Correct(mode, neg, prec, Float(x, g), RoundUnits(mode, neg, x, Pow2(n - prec)), g + (n - prec))
  {
    hide RoundUnits, P2, Pow2, Best, Float;
    var k := n - prec;
    var u := RoundUnits(mode, neg, x, Pow2(k));
    RoundRange(mode, neg, x, n, prec);
    forall m: nat, f: int | m < Pow2(prec)
      ensures Best(mode, neg, Float(x, g), Float(u, g + k), Float(m, f), u)
    {
      if f >= g {
        BestAtScale(mode, neg, x, n, prec, g, m, f - g, u, Float(x, g), Float(u, g + k), Float(m, f));
      } else {
        var t: nat := g - f;
        BiggerScale(x, n, t);
        RoundScale(mode, neg, x, Pow2(k), Pow2(t));
        Pow2Add(k, t);
        FloatShift(x, f, t);
        BestAtScale(mode, neg, x * Pow2(t), n + t, prec, f, m, 0, u, Float(x, g), Float(u, g + k), Float(m, f));
      }
    }
  }

  lemma {:induction false} BiggerScale(x: nat, n: nat, t: nat)
    requires n >= 1 && Pow2(n - 1) <= x < Pow2(n)
    ensures Pow2(n + t - 1) <= x * Pow2(t) < Pow2(n + t)
  {
    Pow2Add(n - 1, t);
    Pow2Add(n, t);
    MulMono(Pow2(n - 1), x, Pow2(t));
    MulStrict(x, Pow2(n), Pow2(t));
  }

  /** Whether q + rem, with 0 <= rem < 1, is rounded up. */
  ghost predicate UpReal(mode: Mode, neg: bool, q: int, rem: real) {
    if Downward(mode, neg) then false
    else if Upward(mode, neg) then rem != 0.0
    else if mode == RNDN then rem > 0.5 || (rem == 0.5 && q % 2 == 1)
    else rem >= 0.5
  }

  /** x rounded to an integer. */
  ghost function RealUnits(mode: Mode, neg: bool, x: real): int {
    x.Floor + if UpReal(mode, neg, x.Floor, x - x.Floor as real) then 1 else 0
  }

  /** x rounded to a multiple of unit. */
  ghost function RoundReal(mode: Mode, neg: bool, x: real, unit: real): real
    requires unit > 0.0
  {
    RealUnits(mode, neg, x / unit) as real * unit
  }

  lemma {:induction false} RealUnitsIs(mode: Mode, neg: bool, x: real, q: int, rem: real)
    requires x == q as real + rem && 0.0 <= rem < 1.0
    ensures RealUnits(mode, neg, x) == q + if UpReal(mode, neg, q, rem) then 1 else 0
  {
    assert x.Floor == q;
  }

  /** The same rounding, of an integer to a multiple of a unit. */
  lemma {:induction false} RealUnitsOfInt(mode: Mode, neg: bool, s: nat, unit: nat)
    requires unit >= 1
    ensures RealUnits(mode, neg, s as real / unit as real) == RoundUnits(mode, neg, s, unit)
  {
    hide RoundUnits, RealUnits;
    var q, rem := DivMod(s, unit);
    RoundIs(mode, neg, s, unit, q, rem);
    var r := rem as real / unit as real;
    Fraction(s, q, rem, unit, r);
    RealUnitsIs(mode, neg, s as real / unit as real, q, r);
  }

  lemma {:induction false} Fraction(s: nat, q: nat, rem: nat, unit: nat, r: real)
    requires unit >= 1 && s == q * unit + rem && rem < unit && r == rem as real / unit as real
    ensures s as real / unit as real == q as real + r && 0.0 <= r < 1.0
    ensures (r != 0.0 <==> rem != 0) && (r > 0.5 <==> 2 * rem > unit) && (r == 0.5 <==> 2 * rem == unit) && (r >= 0.5 <==> 2 * rem >= unit)
  {
    var u := unit as real;
    assert r * u == rem as real;
    assert s as real == q as real * u + rem as real by { IntProduct(q, unit); }
    Quotients(s as real, q as real, rem as real, u, r);
    var x := rem as real;
    SameOrder(1.0, r, u, x, u);
    SameOrder(0.0, r, u, x, 0.0);
    SameOrder(0.5, r, u, x, 0.5 * u);
    FractionSides(rem, unit, r, x, u);
  }

  lemma {:induction false} FractionSides(rem: nat, unit: nat, r: real, x: real, u: real)
    requires rem < unit && u == unit as real && x == rem as real && SameSide(1.0, r, u, x) && SameSide(0.0, r, 0.0, x) && SameSide(0.5, r, 0.5 * u, x)
    ensures 0.0 <= r < 1.0 && (r != 0.0 <==> rem != 0) && (r > 0.5 <==> 2 * rem > unit) && (r == 0.5 <==> 2 * rem == unit)
  {
  }

  /** r compares with y as x with c. */
  ghost predicate SameSide(y: real, r: real, c: real, x: real) {
    (y < r <==> c < x) && (y == r <==> c == x)
  }

  lemma {:induction false} SameOrder(y: real, r: real, u: real, x: real, c: real)
    requires u > 0.0 && c == y * u && x == r * u
    ensures SameSide(y, r, c, x)
  {
    RealCancel(r, y, u);
  }

  lemma {:induction false} IntProduct(x: int, y: int)
    ensures (x * y) as real == x as real * y as real
  {
  }

  lemma {:induction false} Quotients(s: real, q: real, rem: real, u: real, r: real)
    requires u > 0.0 && s == q * u + rem && r * u == rem
    ensures s / u == q + r
  {
    assert (q + r) * u == s by { RealPlus3(q, r, u); }
    DivBack(q + r, u);
  }

  lemma {:induction false} RealPlus3(x: real, y: real, p: real)
    ensures (x + y) * p == x * p + y * p
  {
  }

  lemma {:induction false} DivBack(x: real, u: real)
    requires u > 0.0
    ensures x * u / u == x
  {
  }

  lemma {:induction false} P2Mono(i: int, j: int)
    requires i <= j
    ensures P2(i) <= P2(j)
  {
    hide P2, Pow2;
    P2Shift(i, j - i);
    RealCancel(1.0, Pow2(j - i) as real, P2(i));
  }

  /** Rounding a float to a multiple of a larger power of two. */
  lemma {:induction false} RoundRealUp(mode: Mode, neg: bool, s: nat, f: int, j: nat)
    ensures RoundReal(mode, neg, Float(s, f), P2(f + j)) == Float(RoundUnits(mode, neg, s, Pow2(j)), f + j)
  {
    hide RealUnits, RoundUnits, P2, Pow2;
    P2Shift(f, j);
    Ratio(s as real, Pow2(j) as real, P2(f));
    assert Float(s, f) / P2(f + j) == s as real / Pow2(j) as real;
    RealUnitsOfInt(mode, neg, s, Pow2(j));
  }

  lemma {:induction false} Ratio(s: real, u: real, p: real)
    requires u > 0.0 && p > 0.0 && u * p > 0.0
    ensures s * p / (u * p) == s / u
  {
    var x := s / u;
    assert x * u == s;
    assert x * (u * p) == s * p by { RealAssoc(x, u, p); }
    DivBack(x, u * p);
  }

  /** A multiple of the unit is not changed. */
  lemma {:induction false} RoundRealDown(mode: Mode, neg: bool, s: nat, f: int, j: nat)
    ensures RoundReal(mode, neg, Float(s, f), P2(f - j)) == Float(s, f)
  {
    hide RealUnits, P2, Pow2;
    var m, u := s * Pow2(j), P2(f - j);
    FloatShift(s, f - j, j);
    DivBack(m as real, u);
    assert Float(s, f) == m as real * u;
    assert Float(s, f) / u == m as real;
    RealUnitsIs(mode, neg, m as real, m, 0.0);
    NoRest(mode, neg, m);
  }

  lemma {:induction false} NoRest(mode: Mode, neg: bool, m: int)
    ensures !UpReal(mode, neg, m, 0.0)
  {
  }
}
