/** Arbitrary-precision binary floating-point numbers, and what rounding makes of them. */
module BigFloats {
  import opened Arith
  import opened Limbs
  import opened LimbOps
  import opened RoundSpec
  import opened LimbBits
  import opened Rounding

  const EXP_ZERO: int := -0x8000_0000_0000_0000
  const EXP_INF: int := 0x7fff_ffff_ffff_fffe
  const EXP_NAN: int := 0x7fff_ffff_ffff_ffff
  const PREC_INF: nat := 0x3fff_ffff_ffff_ffff

  /** Rounding mode, number of exponent bits, and the two precision flags. */
  datatype Flags = Flags(mode: Mode, expBits: nat, subnormal: bool, radpnt: bool)

  datatype Status = Status(inexact: bool, underflow: bool, overflow: bool, invalid: bool)

  const OK: Status := Status(false, false, false, false)

  function EMax(flags: Flags): int
    requires flags.expBits >= 1
  {
    Pow2(flags.expBits - 1)
  }

  function EMin(flags: Flags): int
    requires flags.expBits >= 1
  {
    3 - EMax(flags)
  }

  /** The number of bits to keep, which may be zero or negative. */
  function Precision(flags: Flags, prec1: nat, expn: int): int
    requires flags.expBits >= 1
  {
    if flags.radpnt then (if prec1 != PREC_INF then expn + prec1 else prec1)
    else if expn < EMin(flags) && flags.subnormal then prec1 - (EMin(flags) - expn)
    else prec1
  }

  /** v rounded to a multiple of 2^k. */
  ghost function RoundedAt(mode: Mode, neg: bool, v: nat, k: int): nat {
    if k <= 0 then v else RoundInt(mode, neg, v, Pow2(k))
  }

  /** y is the rounding of the magnitude x to prec bits. */
  ghost predicate IsRounding(mode: Mode, neg: bool, prec: nat, x: real, y: real)
    requires prec >= 1
  {
    exists u: nat, f: int :: Correct(mode, neg, prec, x, u, f) && y == Float(u, f)
  }

  /** Rounding at bit n - prec of an n-bit number is rounding to prec bits. */
  lemma {:induction false} RoundedIsRounding(mode: Mode, neg: bool, v: nat, n: nat, prec: nat, g: int)
    requires prec >= 1 && n >= 1 && Pow2(n - 1) <= v < Pow2(n)
    ensures IsRounding(mode, neg, prec, Float(v, g), Float(RoundedAt(mode, neg, v, n - prec), g))
  {
    hide Float, Correct, RoundUnits, Pow2;
    if prec <= n {
      var k := n - prec;
      var u := RoundUnits(mode, neg, v, Pow2(k));
      RoundIsCorrect(mode, neg, v, n, prec, g);
      FloatShift(u, g, k);
      if k == 0 {
        RoundExact(mode, neg, v);
      }
      assert Correct(mode, neg, prec, Float(v, g), u, g + k) && Float(RoundedAt(mode, neg, v, k), g) == Float(u, g + k);
    } else {
      var t := prec - n;
      BiggerScale(v, n, t);
      var w := v * Pow2(t);
      FloatShift(v, g - t, t);
      RoundExact(mode, neg, w);
      RoundIsCorrect(mode, neg, w, prec, prec, g - t);
      assert Correct(mode, neg, prec, Float(w, g - t), w, g - t);
    }
  }

  lemma {:induction false} RoundExact(mode: Mode, neg: bool, v: nat)
    ensures Pow2(0) == 1 && RoundUnits(mode, neg, v, 1) == v
  {
  }

  class BigFloat {
    var neg: bool
    var expn: int
    var tab: array<Limb>
    var len: nat

    ghost predicate Valid()
      reads this
    {
      len <= tab.Length
    }

    ghost function Mant(): nat
      requires Valid()
      reads this, tab
    {
      Val(tab[..len])
    }

    /** The absolute value, when finite. */
    ghost function Magnitude(lb: nat): real
      requires Valid()
      reads this, tab
    {
      Float(Mant(), expn - len * lb)
    }

    /** A non-zero number with its top bit and its lowest limb set. */
    ghost predicate Normal(lb: nat)
      reads this, tab
    {
      Valid() && len >= 1 && len * lb >= 1 && Mant() >= Pow2(len * lb - 1) && tab[0] != 0
    }

    ghost predicate IsZero(neg': bool)
      reads this
    {
      len == 0 && expn == EXP_ZERO && neg == neg'
    }

    method SetZero(neg': bool)
      requires Valid()
      modifies this`len, this`expn, this`neg
      ensures Valid() && IsZero(neg')
    {
      len, expn, neg := 0, EXP_ZERO, neg';
    }

    method SetInf(neg': bool)
      requires Valid()
      modifies this`len, this`expn, this`neg
      ensures Valid() && len == 0 && expn == EXP_INF && neg == neg'
    {
      len, expn, neg := 0, EXP_INF, neg';
    }

    method SetNan()
      requires Valid()
      modifies this`len, this`expn, this`neg
      ensures Valid() && len == 0 && expn == EXP_NAN && !neg
    {
      len, expn, neg := 0, EXP_NAN, false;
    }
  }

  predicate OverflowsToInf(prec1: nat, mode: Mode, neg: bool) {
    prec1 == PREC_INF || mode == RNDN || mode == RNDNA || Upward(mode, neg)
  }

  /** bf_set_overflow: infinity, or the largest number of prec1 bits below the next power of two. */
  method SetOverflow(r: BigFloat, lb: nat, prec1: nat, flags: Flags) returns (ret: Status)
    requires Binary(lb) && lb >= 1 && r.Valid() && prec1 >= 1 && flags.expBits >= 1
    modifies r
    ensures r.Valid() && ret == OK.(overflow := true, inexact := true) && r.neg == old(r.neg)
    ensures r.tab == old(r.tab) || fresh(r.tab)
    ensures prec1 != PREC_INF && (flags.mode == RNDZ || (flags.mode == RNDD && !r.neg) || (flags.mode == RNDU && r.neg)) ==>
              fresh(r.tab) && r.Normal(lb) && r.Magnitude(lb) == Float(Pow2(prec1) - 1, Pow2(flags.expBits - 1) - prec1)
    ensures prec1 == PREC_INF || flags.mode in {RNDN, RNDNA, RNDA} || flags.mode == (if r.neg then RNDD else RNDU) ==>
              r.len == 0 && r.expn == EXP_INF
  {
    hide Val, Pow, Pow2, Float;
    ret := OK.(overflow := true, inexact := true);
    if OverflowsToInf(prec1, flags.mode, r.neg) {
      r.SetInf(r.neg);
      return;
    }
    var l, p := CeilDiv(prec1, lb);
    var tab := MaxLimbs(l, lb, p);
    r.tab := tab;
    r.len := l;
    r.expn := EMax(flags);
    TopNumber(r, lb, prec1);
  }

  /** All ones but for the bits below the precision. */
  lemma {:induction false} TopNumber(r: BigFloat, lb: nat, prec1: nat)
    requires Binary(lb) && lb >= 1 && r.Valid() && prec1 >= 1 && r.len >= 1 && r.len * lb >= prec1 && r.tab[0] != 0
    requires r.Mant() + Pow2(r.len * lb - prec1) == Pow2(r.len * lb)
    ensures r.Normal(lb) && r.Magnitude(lb) == Float(Pow2(prec1) - 1, r.expn - prec1)
  {
    hide Val, Pow, Pow2, Float;
    var n := r.len * lb;
    MulMono(1, r.len, lb);
    Pow2Add(prec1, n - prec1);
    MulDist(Pow2(prec1), 1, Pow2(n - prec1));
    FloatShift(Pow2(prec1) - 1, r.expn - n, n - prec1);
    Pow2Mono(n - prec1, n - 1);
    Doubles(n);
  }

  lemma {:induction false} Doubles(n: nat)
    requires n >= 1
    ensures Pow2(n) == 2 * Pow2(n - 1)
  {
  }

  /** l limbs of ones, except for the lowest p bits. */
  method MaxLimbs(l: nat, lb: nat, p: nat) returns (tab: array<Limb>)
    requires Binary(lb) && l >= 1 && p < lb
    ensures fresh(tab) && tab.Length == l && tab[0] != 0 && Val(tab[..l]) + Pow2(p) == Pow2(l * lb)
  {
    hide Val, Pow, Pow2;
    BitInLimb(lb, p);
    BelowRadix(lb, p);
    tab := new Limb[l];
    tab[0] := B - Pow2(p);
    for i := 1 to l
      invariant tab[0] == B - Pow2(p) && forall j :: 1 <= j < i ==> tab[j] == B - 1
    {
      tab[i] := B - 1;
    }
    MaxValue(tab[..l], lb, p);
  }

  lemma {:induction false} BelowRadix(lb: nat, p: nat)
    requires Binary(lb) && p < lb
    ensures Pow2(p) < B
  {
    Pow2Mono(p, lb - 1);
  }

  lemma {:induction false} MaxValue(s: seq<Limb>, lb: nat, p: nat)
    requires Binary(lb) && |s| >= 1 && Pow2(p) <= B && s[0] == B - Pow2(p) && forall j :: 1 <= j < |s| ==> s[j] == B - 1
    ensures Val(s) + Pow2(p) == Pow2(|s| * lb)
  {
    hide Val, Pow, Pow2;
    var t := s[1..];
    assert s == [s[0]] + t;
    ValCons(s[0], t);
    AllOnes(t);
    PowIsPow2(lb, |s|);
    PowStep(|t|);
    MulDist(Pow(|t|), 1, B);
  }

  /** l * lb == prec + p with 0 <= p < lb */
  method CeilDiv(prec: nat, lb: nat) returns (l: nat, p: nat)
    requires prec >= 1 && lb >= 1
    ensures l * lb == prec + p && p < lb && l >= 1
  {
    var q, r := SplitPos(prec + lb - 1, lb);
    l := q;
    p := lb - 1 - r;
    if q == 0 {
      assert false;
    }
  }

  lemma {:induction false} PowStep(k: nat)
    ensures Pow(k + 1) == Pow(k) * B
  {
  }

  lemma {:induction false} AllOnes(s: seq<Limb>)
    requires forall j :: 0 <= j < |s| ==> s[j] == B - 1
    ensures Val(s) == Pow(|s|) - 1
  {
    if |s| > 0 {
      AllOnes(s[..|s| - 1]);
      MulDist(B, 1, Pow(|s| - 1));
    }
  }

  /** The number in tab[0..l) after the addition of a unit, if any, against the rounded one. */
  ghost predicate Prepared(mode: Mode, neg: bool, v: nat, n: nat, k: int, w: nat, carry: bool)
    requires n >= 1
  {
    var y := RoundedAt(mode, neg, v, k);
    carry == (y == Pow2(n)) && Cleared(w, k) == (if carry then Pow2(n - 1) else y) && (carry ==> k < n)
  }

  lemma {:induction false} PreparedSame(mode: Mode, neg: bool, v: nat, n: nat, k: int)
    requires n >= 1 && v < Pow2(n) && (k >= 1 ==> !Up(mode, neg, Quo(v, k), Rem(v, k), Pow2(k)))
    ensures Prepared(mode, neg, v, n, k, v, false)
  {
    if k >= 1 {
      hide Pow2, Quo, Rem, Up, RoundUnits;
      SplitAt(v, k);
      RoundBits(mode, neg, v, k);
    }
  }

  lemma {:induction false} PreparedUp(mode: Mode, neg: bool, v: nat, n: nat, k: nat, w: nat, carry: bool)
    requires 1 <= k < n && v < Pow2(n) && Up(mode, neg, Quo(v, k), Rem(v, k), Pow2(k))
    requires carry == (v + Pow2(k) >= Pow2(n))
    requires !carry ==> w == v + Pow2(k)
    requires carry ==> Pow2(n - 1) <= w < Pow2(n - 1) + Pow2(k)
    ensures Prepared(mode, neg, v, n, k, w, carry)
  {
    hide Pow2, Quo, Rem, Up, RoundUnits;
    var q, rem, unit := Quo(v, k), Rem(v, k), Pow2(k);
    SplitAt(v, k);
    RoundBits(mode, neg, v, k);
    MulDist(q, 1, unit);
    Pow2Add(n - k, k);
    if carry {
      Pow2Add(n - 1 - k, k);
      SplitIs(w, k, Pow2(n - 1 - k), w - Pow2(n - 1));
      OnlyMultiple(q, rem, unit, Pow2(n - k));
    } else {
      SplitIs(w, k, q + 1, rem);
    }
  }

  lemma {:induction false} OnlyMultiple(q: nat, rem: nat, unit: nat, t: nat)
    requires rem < unit && q * unit + rem < t * unit <= q * unit + rem + unit
    ensures q + 1 == t
  {
    if q + 1 < t {
      MulMono(q + 2, t, unit);
      MulDist(q, 2, unit);
    } else if q + 1 > t {
      MulMono(t, q, unit);
    }
  }

  /** Rounding changes a number exactly when a bit is lost. */
  lemma {:induction false} ChangesIff(mode: Mode, neg: bool, v: nat, k: int)
    ensures RoundedAt(mode, neg, v, k) != v <==> k >= 1 && Rem(v, k) != 0
  {
    if k >= 1 {
      hide Pow2, Quo, Rem, RoundUnits;
      var q, rem, unit := Quo(v, k), Rem(v, k), Pow2(k);
      SplitAt(v, k);
      RoundBits(mode, neg, v, k);
      MulDist(q, 1, unit);
      HalfUp(mode, neg, q, unit);
    }
  }

  lemma {:induction false} HalfUp(mode: Mode, neg: bool, q: nat, unit: nat)
    requires unit >= 1
    ensures !Up(mode, neg, q, 0, unit)
  {
  }

  /** What rounding does: to zero or one unit if no bit is kept, else to the rounded number y. */
  ghost predicate Outcome(v: nat, l: nat, lb: nat, e: int, neg: bool, prec1: nat, flags: Flags, ret0: Status, r: BigFloat, ret: Status)
    requires flags.expBits >= 1 && l * lb >= 1 && lb >= 1 && r.Valid()
    reads r, r.tab
  {
    var n, prec := l * lb, Precision(flags, prec1, e);
    var y := RoundedAt(flags.mode, neg, v, n - prec);
    if prec <= 0 then
      ret == ret0.(underflow := true, inexact := true) &&
      if y == 0 then r.IsZero(neg) else r.len == 1 && r.Mant() == Pow2(lb - 1) && r.expn == e + 1 - prec && y == Pow2(n - prec)
    else
      Landed(if y == Pow2(n) then Pow2(n - 1) else y, if y == Pow2(n) then e + 1 else e, l, lb, neg, prec1, flags,
             ret0.(inexact := ret0.inexact || y != v), r, ret)
  }

  /** The number y * 2^(e1 - l*lb), unless its exponent is out of range. */
  ghost predicate Landed(y: nat, e1: int, l: nat, lb: nat, neg: bool, prec1: nat, flags: Flags, ret0: Status, r: BigFloat, ret: Status)
    requires flags.expBits >= 1 && r.Valid()
    reads r, r.tab
  {
    if e1 < EMin(flags) && !flags.subnormal then
      r.IsZero(neg) && ret == ret0.(underflow := true, inexact := true)
    else if e1 > EMax(flags) then
      ret == OK.(overflow := true, inexact := true) && Largest(r, lb, prec1, flags)
    else
      ret == ret0.(underflow := ret0.underflow || (e1 < EMin(flags) && ret0.inexact)) &&
      r.expn == e1 && r.Normal(lb) && r.len <= l && r.Mant() * Pow(l - r.len) == y
  }

  /** Infinity, or the largest number of prec1 bits below 2^(2^(expBits - 1)) if the mode is towards zero. */
  ghost predicate Largest(r: BigFloat, lb: nat, prec1: nat, flags: Flags)
    requires r.Valid() && flags.expBits >= 1
    reads r, r.tab
  {
    if prec1 != PREC_INF && (flags.mode == RNDZ || (flags.mode == RNDD && !r.neg) || (flags.mode == RNDU && r.neg)) then
      r.Normal(lb) && r.Magnitude(lb) == Float(Pow2(prec1) - 1, Pow2(flags.expBits - 1) - prec1)
    else r.len == 0 && r.expn == EXP_INF
  }

  lemma {:induction false} BoundV(s: seq<Limb>, lb: nat)
    requires Binary(lb)
    ensures Val(s) < Pow2(|s| * lb)
  {
    hide Val;
    ValBound(s);
    PowIsPow2(lb, |s|);
  }

  lemma {:induction false} LimbHalf(lb: nat)
    requires Binary(lb) && lb >= 1
    ensures Pow2(lb - 1) < B
  {
  }

  lemma {:induction false} OneLimb(x: Limb)
    ensures Val([x]) == x
  {
    ValSnoc([], x);
    assert [] + [x] == [x];
  }

  /** With no bit kept the result is zero or one unit. */
  lemma {:induction false} NoBitsKept(mode: Mode, neg: bool, v: nat, n: nat, k: nat)
    requires 1 <= n <= k && v < Pow2(n)
    ensures RoundedAt(mode, neg, v, k) == if Up(mode, neg, Quo(v, k), Rem(v, k), Pow2(k)) then Pow2(k) else 0
  {
    hide Up, Quo, Rem, RoundUnits, Pow2;
    Pow2Mono(n, k);
    SplitIs(v, k, 0, v);
    RoundBits(mode, neg, v, k);
  }

  lemma {:induction false} PreparedIs(mode: Mode, neg: bool, v: nat, n: nat, k: int, w: nat, carry: bool)
    requires n >= 1 && k < n && Pow2(n - 1) <= v < Pow2(n) && Prepared(mode, neg, v, n, k, w, carry)
    ensures var y := RoundedAt(mode, neg, v, k);
            carry == (y == Pow2(n)) && Cleared(w, k) == (if carry then Pow2(n - 1) else y) && Cleared(w, k) >= Pow2(n - 1)
  {
    hide Pow2, RoundUnits, Cleared;
    if k >= 1 {
      RoundRange(mode, neg, v, n, n - k);
    }
  }

  /** The trimmed number still has its top bit set. */
  lemma {:induction false} StillNormal(s: seq<Limb>, l: nat, lb: nat)
    requires Binary(lb) && lb >= 1 && 1 <= |s| <= l && l * lb >= 1 && Val(s) * Pow(l - |s|) >= Pow2(l * lb - 1)
    ensures |s| * lb >= 1 && Val(s) >= Pow2(|s| * lb - 1)
  {
    hide Val, Pow, Pow2;
    MulMono(1, |s|, lb);
    MulDist(l, |s|, lb);
    PowIsPow2(lb, l - |s|);
    Pow2Add(|s| * lb - 1, (l - |s|) * lb);
    if Val(s) < Pow2(|s| * lb - 1) {
      MulStrict(Val(s), Pow2(|s| * lb - 1), Pow(l - |s|));
    }
  }

  /** The exponent of the rounded number is in the range of the format. */
  ghost predicate InRange(v: nat, n: nat, e: int, neg: bool, prec1: nat, flags: Flags)
    requires flags.expBits >= 1
  {
    var prec := Precision(flags, prec1, e);
    var e1 := if RoundedAt(flags.mode, neg, v, n - prec) == Pow2(n) then e + 1 else e;
    prec > 0 && e1 <= EMax(flags) && (e1 >= EMin(flags) || flags.subnormal)
  }

  lemma {:induction false} FloatLimbs(s: seq<Limb>, l: nat, lb: nat, e: int)
    requires Binary(lb) && |s| <= l
    ensures Float(Val(s), e - |s| * lb) == Float(Val(s) * Pow(l - |s|), e - l * lb)
  {
    hide Float, Val, Pow, Pow2;
    MulDist(l, |s|, lb);
    PowIsPow2(lb, l - |s|);
    FloatShift(Val(s), e - l * lb, (l - |s|) * lb);
  }

  /** In range, the result is correctly rounded, and INEXACT tells whether it changed. */
  lemma {:induction false} OutcomeCorrect(v: nat, l: nat, lb: nat, e: int, neg: bool, prec1: nat, flags: Flags, ret0: Status,
                                          r: BigFloat, ret: Status)
    requires Binary(lb) && lb >= 1 && flags.expBits >= 1 && l * lb >= 1 && r.Valid() && Pow2(l * lb - 1) <= v < Pow2(l * lb)
    requires InRange(v, l * lb, e, neg, prec1, flags) && Outcome(v, l, lb, e, neg, prec1, flags, ret0, r, ret)
    ensures r.Normal(lb)
    ensures r.Magnitude(lb) == Float(RoundedAt(flags.mode, neg, v, l * lb - Precision(flags, prec1, e)), e - l * lb)
    ensures IsRounding(flags.mode, neg, Precision(flags, prec1, e), Float(v, e - l * lb), r.Magnitude(lb))
    ensures ret.inexact == (ret0.inexact || r.Magnitude(lb) != Float(v, e - l * lb)) && ret.overflow == ret0.overflow
  {
    hide Val, Pow, Pow2, Float, RoundedAt, Largest, EMin, EMax, Precision, IsRounding;
    var n, prec := l * lb, Precision(flags, prec1, e);
    var y, g := RoundedAt(flags.mode, neg, v, n - prec), e - n;
    RoundedIsRounding(flags.mode, neg, v, n, prec, g);
    FloatLimbs(r.tab[..r.len], l, lb, r.expn);
    DoublePow(n);
    FloatShift(Pow2(n - 1), g, 1);
    assert r.Magnitude(lb) == Float(y, g);
    SameFloat(y, v, g);
  }

  lemma {:induction false} DoublePow(n: nat)
    requires n >= 1
    ensures Pow2(n - 1) * Pow2(1) == Pow2(n)
  {
    Pow2Add(n - 1, 1);
  }

  lemma {:induction false} SameFloat(y: nat, v: nat, g: int)
    ensures Float(y, g) == Float(v, g) <==> y == v
  {
    hide P2;
    RealOrder(y, v, P2(g));
  }

  /** The number of leading zero bits of a non-zero limb. */
  method Clz(x: Limb, lb: nat) returns (shift: nat)
    requires Binary(lb) && x > 0
    ensures shift < lb && x * Pow2(shift) < B <= 2 * (x * Pow2(shift))
  {
    var y: nat := x;
    shift := 0;
    while 2 * y < B
      invariant y == x * Pow2(shift) && 0 < y < B
      decreases B - y
    {
      y := 2 * y;
      shift := shift + 1;
    }
    FewerThanLimb(x, shift, lb);
  }

  lemma {:induction false} FewerThanLimb(x: nat, shift: nat, lb: nat)
    requires Binary(lb) && x >= 1 && x * Pow2(shift) < B
    ensures shift < lb
  {
    if lb <= shift {
      Pow2Mono(lb, shift);
      MulMono(1, x, Pow2(shift));
    }
  }

  /** Shifts tab[0..l) left by fewer bits than a limb has; nothing is lost. */
  method ShiftLeft(tab: array<Limb>, l: nat, lb: nat, shift: nat)
    requires Binary(lb) && l <= tab.Length && 0 < shift < lb && Val(tab[..l]) * Pow2(shift) < Pow(l)
    modifies tab
    ensures OnlyRange(tab, 0, l) && Val(tab[..l]) == old(Val(tab[..l])) * Pow2(shift)
  {
    hide Val, Pow, Pow2, Carried, Quo, Rem;
    ghost var z, s: seq<Limb> := seq(l, i => 0), tab[..l];
    CarryStart(z, s, Pow2(shift), 0);
    assert tab[..0] == [];
    var v: Limb := 0;
    SplitIs(0, lb - shift, 0, 0);
    for i := 0 to l
      invariant OnlyRange(tab, 0, i) && Carried(tab[..i], Quo(v, lb - shift), z, s, Pow2(shift), 0)
    {
      var a := tab[i];
      assert a == s[i];
      ghost var k := Quo(v, lb - shift);
      ShiftLimb(a, v, lb, shift);
      var x: Limb := Rem(a, lb - shift) * Pow2(shift) + Quo(v, lb - shift);
      CarryStep(tab[..i], x, k, Quo(a, lb - shift), z, s, Pow2(shift), 0);
      tab[i] := x;
      assert tab[..i + 1] == tab[..i] + [x];
      v := a;
    }
    CarryEnd(tab[..l], Quo(v, lb - shift), z, s, Pow2(shift), 0);
    ValZeros(z);
    NoCarryOut(Val(tab[..l]), Quo(v, lb - shift), Pow(l), Val(s) * Pow2(shift));
  }

  lemma {:induction false} ShiftLimb(a: Limb, v: Limb, lb: nat, shift: nat)
    requires Binary(lb) && 0 < shift < lb
    ensures var t := lb - shift; Rem(a, t) * Pow2(shift) + Quo(v, t) < B
    ensures var t := lb - shift; Rem(a, t) * Pow2(shift) + Quo(v, t) + Quo(a, t) * B == Pow2(shift) * a + Quo(v, t)
  {
    hide Quo, Rem, Pow2;
    var t := lb - shift;
    Pow2Add(t, shift);
    SplitAt(a, t);
    SplitAt(v, t);
    ShiftArith(Quo(a, t), Rem(a, t), Pow2(t), Pow2(shift), Quo(v, t), Rem(v, t));
  }

  lemma {:induction false} ShiftArith(q: nat, m: nat, p: nat, w: nat, c: nat, n: nat)
    requires m < p && c * p + n < p * w
    ensures m * w + c < p * w
    ensures m * w + q * (p * w) == w * (q * p + m)
  {
    MulDist(q * p, m, w);
    MulAssoc(q, p, w);
    MulMono(m + 1, p, w);
    MulDist(m, 1, w);
    if c >= w {
      MulMono(w, c, p);
    }
  }

  lemma {:induction false} NoCarryOut(x: nat, k: nat, p: nat, y: nat)
    requires x + k * p == y < p
    ensures x == y
  {
    if k > 0 {
      MulMono(1, k, p);
    }
  }

  /** Drops zero limbs at the top. */
  method TopLimb(tab: array<Limb>, len: nat) returns (l: nat)
    requires len <= tab.Length
    ensures l <= len && Val(tab[..len]) == Val(tab[..l]) && (l > 0 ==> tab[l - 1] != 0)
  {
    hide Val, Pow;
    l := len;
    while l > 0 && tab[l - 1] == 0
      invariant l <= len && Val(tab[..len]) == Val(tab[..l])
    {
      assert tab[..l] == tab[..l - 1] + [tab[l - 1]];
      ValSnoc(tab[..l - 1], tab[l - 1]);
      l := l - 1;
    }
  }

  /** A vector shifted so that the top bit of its top limb is set. */
  lemma {:induction false} TopShifted(s: seq<Limb>, lb: nat, shift: nat)
    requires Binary(lb) && lb >= 1 && |s| >= 1 && s[|s| - 1] * Pow2(shift) < B <= 2 * (s[|s| - 1] * Pow2(shift)) && shift < lb
    ensures |s| * lb >= 1 && Pow2(|s| * lb - 1) <= Val(s) * Pow2(shift) < Pow2(|s| * lb) == Pow(|s|)
  {
    hide Val, Pow, Pow2;
    var l, x, w := |s|, s[|s| - 1], Pow2(shift);
    var p := Pow(l - 1);
    assert s == s[..l - 1] + [x];
    ValSnoc(s[..l - 1], x);
    ValBound(s[..l - 1]);
    HalfPow(lb, l);
    PowIsPow2(lb, l);
    PowStep(l - 1);
    BitInLimb(lb, shift);
    TopArith(Val(s[..l - 1]), x, p, w, B, Pow2(lb - shift));
  }

  lemma {:induction false} TopArith(lo: nat, x: nat, p: nat, w: nat, b: nat, c: nat)
    requires lo < p && x * w < b <= 2 * (x * w) && b == c * w && w >= 1
    ensures p * b <= 2 * ((lo + x * p) * w) && (lo + x * p) * w < p * b
  {
    assert x + 1 <= c by {
      if c <= x {
        MulMono(c, x, w);
      }
    }
    MulDist(lo, x * p, w);
    assert x * p * w == p * (x * w) by { MulAssoc(p, x, w); }
    MulMono(b, 2 * (x * w), p);
    assert 0 <= lo * w;
    MulStrict(lo, p, w);
    MulMono(x * w + w, b, p) by {
      MulMono(x + 1, c, w);
      MulDist(x, 1, w);
    }
    MulDist(x * w, w, p);
  }

  lemma {:induction false} NoShift(v: nat)
    ensures v * Pow2(0) == v
  {
  }
}
