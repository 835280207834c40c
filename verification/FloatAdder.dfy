/** bf_add: correctly rounded addition and subtraction of finite numbers, and the special cases. */
module FloatAdder {
  import opened Arith
  import opened Limbs
  import opened LimbOps
  import opened RoundSpec
  import opened LimbBits
  import opened Rounding
  import opened BigFloats
  import opened FloatAddition
  import opened FloatSum
  import opened FloatExact
  import opened FloatFormat
  import opened FloatRounding

  /** The limbs of the result, on top of the low ones. */
  method TopLimbs(tab: array<Limb>, a: BigFloat, b: BigFloat, lb: nat, d: nat, t: nat, rlen: nat, sub: bool, carry0: Limb,
                  ghost low: seq<Limb>) returns (carry: Limb)
    requires Binary(lb) && lb >= 1 && Window(a, b, lb, t, d) && rlen <= t && rlen <= tab.Length && tab != a.tab && tab != b.tab
    requires |low| == t - rlen && carry0 <= 1 && Summed(low, carry0, Wide(a, t), Narrow(b, lb, t, d), sub)
    modifies tab
    ensures carry <= 1 && OnlyRange(tab, 0, rlen)
    ensures Summed(low + tab[..rlen], carry, Wide(a, t), Narrow(b, lb, t, d), sub)
  {
    hide Val, Pow, Pow2, Summed, Binary, Wide, Narrow, BitsAt;
    ghost var x, y := Wide(a, t), Narrow(b, lb, t, d);
    var aOff, bOff: int := a.len - rlen, (b.len - rlen) * lb + d;
    carry := carry0;
    assert low + tab[..0] == low;
    for i := 0 to rlen
      invariant carry <= 1 && OnlyRange(tab, 0, i) && Summed(low + tab[..i], carry, x, y, sub)
      invariant x == Wide(a, t) && y == Narrow(b, lb, t, d)
    {
      var v1 := GetLimbz(a.tab, a.len, aOff + i);
      var v2 := GetBits(b.tab, b.len, lb, bOff + i * lb);
      PairAt(a, b, lb, d, t, rlen, i);
      ghost var before := carry;
      var u;
      u, carry := AddStep(v1, v2, sub, carry);
      SummedStep(low + tab[..i], u, before, carry, x, y, sub);
      tab[i] := u;
      assert low + tab[..i] + [u] == low + tab[..i + 1];
    }
  }

  lemma {:induction false} PairAt(a: BigFloat, b: BigFloat, lb: nat, d: nat, t: nat, rlen: nat, i: nat)
    requires Binary(lb) && Window(a, b, lb, t, d) && i < rlen <= t
    ensures Wide(a, t)[t - rlen + i] == Limbz(a.tab[..a.len], a.len - rlen + i)
    ensures Narrow(b, lb, t, d)[t - rlen + i] == BitsAt(Val(b.tab[..b.len]), lb, (b.len - rlen) * lb + d + i * lb)
  {
    hide Val, Pow, Pow2, BitsAt;
    LoweredAt(b.tab[..b.len], lb, t, d, t - rlen + i);
    MulDist(b.len - rlen, i, lb);
    assert (t - rlen + i) - (t - b.len) == b.len - rlen + i;
  }

  /** The exact sum or difference in the window. */
  ghost function Total(x: nat, y: nat, sub: bool): nat
    requires sub ==> y <= x
  {
    if sub then x - y else x + y
  }

  lemma {:induction false} SummedTotal(r: seq<Limb>, carry: int, x: seq<Limb>, y: seq<Limb>, sub: bool)
    requires |r| == |x| == |y| && Summed(r, carry, x, y, sub) && 0 <= carry <= 1 && (sub ==> Val(y) <= Val(x))
    ensures Val(r) + (if sub then 0 else carry * Pow(|r|)) == Total(Val(x), Val(y), sub)
    ensures sub ==> carry == 1
  {
    hide Val, Pow, Carried;
    CarryEnd(r, carry, x, Flip(y, sub), 1, if sub then 1 else 0);
    FlipValue(y);
    ValBound(r);
    ValBound(x);
    if carry == 0 && sub {
      assert false;
    }
  }

  /** The lowest bit of the result records what is below it. */
  lemma {:induction false} SetSticky(s: seq<Limb>, lb: nat, low: nat)
    requires Binary(lb) && lb >= 1 && |s| >= 1
    ensures s[0] % 2 == 0 ==> s[0] + 1 < B
    ensures var x: Limb := if low != 0 && s[0] % 2 == 0 then s[0] + 1 else s[0];
            Val(s[0 := x]) == Sticky(Val(s), low)
  {
    hide Val, Pow, Pow2;
    HalfRadix(lb);
    var t := s[1..];
    assert s == [s[0]] + t;
    ValCons(s[0], t);
    EvenAdd(s[0], B / 2, Val(t));
    var x: Limb := if low != 0 && s[0] % 2 == 0 then s[0] + 1 else s[0];
    assert s[0 := x] == [x] + t;
    ValCons(x, t);
  }

  /** The exact sum from the limbs above, with the carry limb, and the limbs below. */
  lemma {:induction false} SumParts(low: seq<Limb>, r: seq<Limb>, carry: int, x: seq<Limb>, y: seq<Limb>, sub: bool, s: seq<Limb>)
    requires |low + r| == |x| == |y| && Summed(low + r, carry, x, y, sub) && 0 <= carry <= 1 && (sub ==> Val(y) <= Val(x))
    requires s == if !sub && carry == 1 then r + [1] else r
    ensures Total(Val(x), Val(y), sub) == Val(s) * Pow(|low|) + Val(low) && Val(low) < Pow(|low|)
  {
    hide Val, Pow, Summed;
    SummedTotal(low + r, carry, x, y, sub);
    ValConcat(low, r);
    ValBound(low);
    PowAdd(|low|, |r|);
    ValSnoc(r, 1);
    MulDist(Val(r), Pow(|r|), Pow(|low|));
  }

  /** The whole sum, truncated to rlen limbs plus a carry limb, with a sticky bit. */
  method Sum(a: BigFloat, b: BigFloat, lb: nat, d: nat, t: nat, rlen: nat, sub: bool)
    returns (tab: array<Limb>, len: nat, ghost q: nat, ghost low: nat)
    requires Binary(lb) && lb >= 1 && Window(a, b, lb, t, d) && 1 <= rlen <= t
    requires sub ==> Val(Narrow(b, lb, t, d)) <= Val(Wide(a, t))
    ensures fresh(tab) && (len == rlen || (len == rlen + 1 && !sub)) && len <= tab.Length
    ensures Val(tab[..len]) == Sticky(q, low) && low < Pow(t - rlen)
    ensures Total(Val(Wide(a, t)), Val(Narrow(b, lb, t, d)), sub) == q * Pow(t - rlen) + low
  {
    hide Val, Pow, Pow2, Summed, Wide, Narrow, Window;
    WindowIs(a, b, lb, t, d);
    ghost var x, y := Wide(a, t), Narrow(b, lb, t, d);
    var carry, nz, lows := LowLimbs(a, b, lb, d, t, rlen, sub);
    tab := new Limb[rlen + 1];
    assert x == Wide(a, t) && y == Narrow(b, lb, t, d);
    carry := TopLimbs(tab, a, b, lb, d, t, rlen, sub, carry, lows);
    len := rlen;
    ghost var r := tab[..rlen];
    low := Val(lows);
    if !sub && carry == 1 {
      tab[rlen] := 1;
      len := rlen + 1;
    }
    ghost var s := tab[..len];
    assert s == if !sub && carry == 1 then r + [1] else r;
    SumParts(lows, r, carry, x, y, sub, s);
    q := Val(s);
    SetSticky(s, lb, low);
    if nz && tab[0] % 2 == 0 {
      tab[0] := tab[0] + 1;
    }
    assert tab[..len] == s[0 := tab[0]];
  }

  /** Two bits more than the precision are left after cancellation. */
  lemma {:induction false} EnoughPrecision(total: nat, q: nat, low: nat, lb: nat, t: nat, rlen: nat, c: nat, prec: nat, nb: nat)
    requires Binary(lb) && rlen <= t && total == q * Pow(t - rlen) + low && low < Pow(t - rlen)
    requires total * Pow2(c + 1) >= Pow2(t * lb) && rlen * lb >= c + prec + 2 && q < Pow2(nb)
    ensures nb >= prec + 2
  {
    hide Pow, Pow2;
    var w := Pow(t - rlen);
    MulDist(t, rlen, lb);
    PowIsPow2(lb, t - rlen);
    Pow2Add(rlen * lb, (t - rlen) * lb);
    var k := rlen * lb - c - 1;
    Pow2Add(k, c + 1);
    if nb <= k {
      Pow2Mono(nb, k);
      ScaledBelow(q, low, w, Pow2(k), Pow2(c + 1));
    }
  }

  lemma {:induction false} ScaledBelow(q: nat, low: nat, w: nat, k: nat, c: nat)
    requires low < w && q + 1 <= k && c >= 1
    ensures (q * w + low) * c < k * c * w
  {
    MulMono(q + 1, k, w);
    MulDist(q, 1, w);
    MulStrict(q * w + low, k * w, c);
    MulAssoc(k, w, c);
    MulAssoc(k, c, w);
  }

  /** a fills the top of the window, and b is below it by d bits. */
  lemma {:induction false} WindowTop(a: BigFloat, b: BigFloat, lb: nat, t: nat, d: nat)
    requires Binary(lb) && lb >= 1 && Window(a, b, lb, t, d) && a.Normal(lb)
    ensures t * lb >= 1 && t >= 1 && Val(Wide(a, t)) >= Pow2(t * lb - 1)
    ensures d <= t * lb && Val(Narrow(b, lb, t, d)) < Pow2(t * lb - d)
  {
    hide Val, Pow, Pow2;
    ExtendedValue(a.tab[..a.len], t);
    LoweredValue(b.tab[..b.len], lb, t, d);
    MulDist(t, a.len, lb);
    PowIsPow2(lb, t - a.len);
    Pow2Add(a.len * lb - 1, (t - a.len) * lb);
    MulMono(Pow2(a.len * lb - 1), a.Mant(), Pow(t - a.len));
  }

  /** The window in real numbers. */
  lemma {:induction false} WindowValue(a: BigFloat, b: BigFloat, lb: nat, t: nat, d: nat, sub: bool)
    requires Binary(lb) && Window(a, b, lb, t, d) && d == a.expn - b.expn
    requires sub ==> Val(Narrow(b, lb, t, d)) <= Val(Wide(a, t))
    ensures var x, y, g := Val(Wide(a, t)), Val(Narrow(b, lb, t, d)), a.expn - t * lb;
            Float(Total(x, y, sub), g) == if sub then a.Magnitude(lb) - b.Magnitude(lb) else a.Magnitude(lb) + b.Magnitude(lb)
  {
    hide Val, Pow, Pow2, Float;
    ExtendedValue(a.tab[..a.len], t);
    FloatLimbs(a.tab[..a.len], t, lb, a.expn);
    LoweredValue(b.tab[..b.len], lb, t, d);
    var g := a.expn - t * lb;
    MulDist(t, b.len, lb);
    FloatShift(b.Mant(), g, (t - b.len) * lb - d);
    FloatSums(Val(Wide(a, t)), Val(Narrow(b, lb, t, d)), g);
  }

  lemma {:induction false} FloatSums(x: nat, y: nat, g: int)
    ensures Float(x + y, g) == Float(x, g) + Float(y, g)
    ensures x >= y ==> Float(x - y, g) == Float(x, g) - Float(y, g)
  {
    hide P2;
    RealDist(x as real, y as real, P2(g));
    RealPlus(x as real, y as real, P2(g));
  }

  lemma {:induction false} RealPlus(x: real, y: real, p: real)
    ensures (x + y) * p == x * p + y * p
  {
  }

  /** Leading zeros of a sum, and of a difference when the exponents differ by two or more. */
  lemma {:induction false} SumTop(x: nat, y: nat, n: nat)
    requires n >= 1 && x >= Pow2(n - 1)
    ensures (x + y) * Pow2(0 + 1) >= Pow2(n)
  {
    TwoIsPow();
  }

  lemma {:induction false} DifferenceTop(x: nat, y: nat, n: nat, d: nat)
    requires 2 <= d <= n && x >= Pow2(n - 1) && y < Pow2(n - d)
    ensures y <= x && (x - y) * Pow2(1 + 1) >= Pow2(n)
  {
    Pow2Mono(n - d, n - 2);
    assert Pow2(n) == 2 * Pow2(n - 1) && Pow2(n - 1) == 2 * Pow2(n - 2);
    TwoIsPow();
    assert Pow2(2) == 2 * Pow2(1);
  }

  /** The larger operand first; for a difference, strictly larger. */
  ghost predicate Ordered(a: BigFloat, b: BigFloat, lb: nat, t: nat, sub: bool)
    requires Binary(lb)
    reads a, b, a.tab, b.tab
  {
    a.expn >= b.expn && Window(a, b, lb, t, a.expn - b.expn) &&
    (sub ==> Val(Wide(a, t)) > Val(Narrow(b, lb, t, a.expn - b.expn)))
  }

  /** How many leading zeros the sum or difference may have. */
  method Cancelled(a: BigFloat, b: BigFloat, lb: nat, d: nat, sub: bool, ghost t: nat) returns (c: nat)
    requires Binary(lb) && lb >= 1 && Ordered(a, b, lb, t, sub) && d == a.expn - b.expn && a.Normal(lb)
    ensures Total(Val(Wide(a, t)), Val(Narrow(b, lb, t, d)), sub) * Pow2(c + 1) >= Pow2(t * lb)
  {
    hide Val, Pow, Pow2, Wide, Narrow;
    WindowTop(a, b, lb, t, d);
    if sub {
      if d <= 1 {
        c := CountCancelled(a, b, lb, d, t);
      } else {
        DifferenceTop(Val(Wide(a, t)), Val(Narrow(b, lb, t, d)), t * lb, d);
        c := 1;
      }
    } else {
      SumTop(Val(Wide(a, t)), Val(Narrow(b, lb, t, d)), t * lb);
      c := 0;
    }
  }

  /** Adds or subtracts finite non-zero numbers with |a| >= |b|, and rounds. */
  method AddFinite(r: BigFloat, a: BigFloat, b: BigFloat, neg: bool, sub: bool, lb: nat, prec: nat, flags: Flags, t: nat)
    returns (ret: Status, ghost e: int)
    requires r != a && r != b && Binary(lb) && lb >= 1 && r.Valid() && a.Normal(lb) && b.Normal(lb)
    requires !flags.radpnt && flags.expBits >= 1 && prec >= 1 && Ordered(a, b, lb, t, sub)
    modifies r
    ensures r.Valid()
    ensures var exact := if sub then a.Magnitude(lb) - b.Magnitude(lb) else a.Magnitude(lb) + b.Magnitude(lb);
            Delivered(exact, e, neg, prec, flags, lb, OK, r, ret)
  {
    hide Val, Pow, Pow2, P2, Float, Wide, Narrow, Delivered, Outcome, Sticky;
    var d := a.expn - b.expn;
    var c := Cancelled(a, b, lb, d, sub, t);
    var precl, _ := CeilDiv(c + prec + 2, lb);
    var rlen := Min(precl, t);
    WindowTop(a, b, lb, t, d);
    WindowValue(a, b, lb, t, d, sub);
    ghost var s := Total(Val(Wide(a, t)), Val(Narrow(b, lb, t, d)), sub);
    var tab, len, q, low := Sum(a, b, lb, d, t, rlen, sub);
    ret, e := RoundSum(r, tab, len, a.expn, rlen, neg, lb, prec, flags, t, c, s, q, low);
  }

  /** Normalizes and rounds a truncated sum. */
  method RoundSum(r: BigFloat, tab: array<Limb>, len: nat, ea: int, rlen: nat, neg: bool, lb: nat, prec: nat, flags: Flags,
                  ghost t: nat, ghost c: nat, ghost s: nat, ghost q: nat, ghost low: nat) returns (ret: Status, ghost e: int)
    requires Binary(lb) && lb >= 1 && !flags.radpnt && flags.expBits >= 1 && prec >= 1
    requires 1 <= rlen <= t && len <= tab.Length && Val(tab[..len]) == Sticky(q, low)
    requires s == q * Pow(t - rlen) + low && low < Pow(t - rlen) && s * Pow2(c + 1) >= Pow2(t * lb)
    requires rlen == t || rlen * lb >= c + prec + 2
    modifies r, tab
    ensures r.Valid() && (r.tab == tab || fresh(r.tab))
    ensures Delivered(Float(s, ea - t * lb), e, neg, prec, flags, lb, OK, r, ret)
  {
    hide Val, Pow, Pow2, P2, Float, Delivered, Outcome, Sticky;
    r.neg := neg;
    r.tab, r.len := tab, len;
    r.expn := ea + (len - rlen) * lb;
    SumNonZero(s, q, low, lb, t, rlen, c);
    ghost var l, shift;
    ret, l, shift := NormalizeAndRound(r, lb, prec, flags);
    ghost var v := Sticky(q, low) * Pow2(shift);
    e := ea + (len - rlen) * lb - (len - l) * lb - shift;
    Exponents(ea, t, rlen, len, l, lb, shift);
    SumTruncated(s, q, low, lb, t, rlen, c, prec, v, l, shift);
    FinishSum(s, q, low, (t - rlen) * lb, v, l, shift, ea - rlen * lb, e, neg, prec, flags, lb, OK, r, ret);
  }

  lemma {:induction false} Exponents(ea: int, t: nat, rlen: nat, len: nat, l: nat, lb: nat, shift: nat)
    ensures ea + (len - rlen) * lb - (len - l) * lb - shift - l * lb == ea - rlen * lb - shift
    ensures ea - rlen * lb - (t - rlen) * lb == ea - t * lb
  {
    MulDist(len, rlen, lb);
    MulDist(len, l, lb);
    MulDist(t, rlen, lb);
  }

  lemma {:induction false} SumNonZero(s: nat, q: nat, low: nat, lb: nat, t: nat, rlen: nat, c: nat)
    requires rlen <= t && s == q * Pow(t - rlen) + low && s * Pow2(c + 1) >= Pow2(t * lb)
    ensures Sticky(q, low) > 0
  {
  }

  /** The truncated sum, normalized, has two bits to spare if anything was lost. */
  lemma {:induction false} SumTruncated(s: nat, q: nat, low: nat, lb: nat, t: nat, rlen: nat, c: nat, prec: nat, v: nat, l: nat, shift: nat)
    requires Binary(lb) && 1 <= rlen <= t && s == q * Pow(t - rlen) + low && low < Pow(t - rlen) && s * Pow2(c + 1) >= Pow2(t * lb)
    requires rlen == t || rlen * lb >= c + prec + 2
    requires l * lb >= 1 && v == Sticky(q, low) * Pow2(shift) && Pow2(l * lb - 1) <= v < Pow2(l * lb) && Sticky(q, low) > 0
    ensures Truncated(s, q, low, (t - rlen) * lb, v, l * lb, shift) && (low == 0 || l * lb - shift >= prec + 2)
  {
    hide Pow, Pow2, Sticky;
    var n := l * lb;
    PowIsPow2(lb, t - rlen);
    assert n > shift by {
      if n <= shift {
        Pow2Mono(n, shift);
        MulMono(1, Sticky(q, low), Pow2(shift));
      }
    }
    if rlen == t {
      PowZero();
    } else {
      Unscale(Sticky(q, low), n - shift, shift);
      StickyAbove(q, low);
      EnoughPrecision(s, q, low, lb, t, rlen, c, prec, n - shift);
    }
  }

  lemma {:induction false} StickyAbove(q: nat, low: nat)
    ensures Sticky(q, low) >= q
  {
  }

  /** A number as the library keeps it: normalized, or zero, infinity or NaN without limbs. */
  ghost predicate WellFormed(a: BigFloat, lb: nat)
    reads a, a.tab
  {
    a.Valid() &&
    if a.len == 0 then a.expn == EXP_ZERO || a.expn == EXP_INF || a.expn == EXP_NAN
    else a.Normal(lb) && EXP_ZERO < a.expn < EXP_INF
  }

  ghost function Signed(neg: bool, m: real): real {
    if neg then -m else m
  }

  function Abs(x: real): real {
    if x < 0.0 then -x else x
  }

  /** The total length of the window for a and b shifted down by d bits. */
  method TotalLength(a: BigFloat, b: BigFloat, lb: nat, d: nat) returns (t: nat)
    requires a.Valid() && b.Valid() && lb >= 1
    ensures Window(a, b, lb, t, d) && (d == 0 ==> t == Max(a.len, b.len))
  {
    var q, p := FloorPos(d + lb - 1, lb);
    if q < 0 {
      MulMono(q, -1, lb);
      assert false;
    }
    t := Max(a.len, b.len + q);
    MulMono(q, t - b.len, lb);
    if d == 0 && q >= 1 {
      MulMono(1, q, lb);
      assert false;
    }
  }

  /** The magnitudes of both numbers, in the units of the window. */
  lemma {:induction false} WindowMagnitudes(a: BigFloat, b: BigFloat, lb: nat, t: nat, d: nat)
    requires Binary(lb) && Window(a, b, lb, t, d) && d == a.expn - b.expn
    ensures var x, y := Val(Wide(a, t)), Val(Narrow(b, lb, t, d));
            (x > y <==> a.Magnitude(lb) > b.Magnitude(lb)) && (x == y <==> a.Magnitude(lb) == b.Magnitude(lb))
    ensures a.Magnitude(lb) == Float(Val(Wide(a, t)), a.expn - t * lb) && b.Magnitude(lb) >= 0.0
  {
    hide Val, Pow, Pow2, P2, Float;
    var x, y, g := Val(Wide(a, t)), Val(Narrow(b, lb, t, d)), a.expn - t * lb;
    ExtendedValue(a.tab[..a.len], t);
    FloatLimbs(a.tab[..a.len], t, lb, a.expn);
    LoweredValue(b.tab[..b.len], lb, t, d);
    MulDist(t, b.len, lb);
    FloatShift(b.Mant(), g, (t - b.len) * lb - d);
    FloatOrder(x, y, g);
  }

  /** Comparing exponents and then limbs compares magnitudes. */
  lemma {:induction false} Compared(a: BigFloat, b: BigFloat, lb: nat, t: nat, c: int)
    requires Binary(lb) && lb >= 1 && a.Normal(lb) && b.Valid() && a.expn >= b.expn && c >= 0
    requires Window(a, b, lb, t, a.expn - b.expn) && (a.expn == b.expn ==> t == Max(a.len, b.len))
    requires a.expn == b.expn ==> (c > 0 <==> Val(Extended(a.tab[..a.len], t)) > Val(Extended(b.tab[..b.len], t)))
    requires a.expn == b.expn && c == 0 ==> Val(Extended(a.tab[..a.len], t)) == Val(Extended(b.tab[..b.len], t))
    requires a.expn > b.expn ==> c > 0
    ensures var x, y := Val(Wide(a, t)), Val(Narrow(b, lb, t, a.expn - b.expn)); (c > 0 <==> x > y) && (c == 0 <==> x == y)
  {
    hide Val, Pow, Pow2, Extended;
    var d := a.expn - b.expn;
    WindowTop(a, b, lb, t, d);
    LoweredValue(b.tab[..b.len], lb, t, d);
    ExtendedValue(b.tab[..b.len], t);
    PowIsPow2(lb, t - b.len);
    if d > 0 {
      Pow2Mono(t * lb - d, t * lb - 1);
    }
  }

  /** The sum of two finite non-zero numbers with |a| >= |b|; aNeg and bNeg are their signs. */
  method AddOrdered(r: BigFloat, a: BigFloat, b: BigFloat, aNeg: bool, bNeg: bool, c: int, lb: nat, prec: nat, flags: Flags)
    returns (ret: Status, ghost e: int)
    requires r != a && r != b && Binary(lb) && lb >= 1 && r.Valid() && a.Normal(lb) && b.Normal(lb)
    requires !flags.radpnt && flags.expBits >= 1 && prec >= 1 && a.expn >= b.expn && c >= 0 && (c == 0 ==> aNeg == bNeg)
    requires a.expn > b.expn ==> c > 0
    requires a.expn == b.expn ==>
               var t := Max(a.len, b.len);
               var x, y := Val(Extended(a.tab[..a.len], t)), Val(Extended(b.tab[..b.len], t));
               (c > 0 <==> x > y) && (c == 0 ==> x == y)
    modifies r
    ensures r.Valid()
    ensures var s := Signed(aNeg, a.Magnitude(lb)) + Signed(bNeg, b.Magnitude(lb));
            s != 0.0 && Delivered(Abs(s), e, s < 0.0, prec, flags, lb, OK, r, ret)
  {
    hide Val, Pow, Pow2, P2, Float, Wide, Narrow, Delivered, Extended;
    var t := TotalLength(a, b, lb, a.expn - b.expn);
    Compared(a, b, lb, t, c);
    WindowMagnitudes(a, b, lb, t, a.expn - b.expn);
    PositiveMagnitude(a, lb);
    ret, e := AddFinite(r, a, b, aNeg, aNeg != bNeg, lb, prec, flags, t);
  }

  lemma {:induction false} PositiveMagnitude(a: BigFloat, lb: nat)
    requires a.Normal(lb)
    ensures a.Magnitude(lb) > 0.0
  {
    hide P2, Val;
    RealOrder(a.Mant(), 0, P2(a.expn - a.len * lb));
  }

  /** A finite number plus zero: the number itself, rounded. */
  ghost predicate OnlyRounded(a: BigFloat, neg: bool, lb: nat, prec: nat, flags: Flags, r: BigFloat, ret: Status)
    requires a.Valid() && r.Valid() && flags.expBits >= 1
    reads a, a.tab, r, r.tab
  {
    exists l: nat, shift: nat, e: int ::
      l * lb >= 1 && Outcome(a.Mant() * Pow2(shift), l, lb, e, neg, prec, flags, OK, r, ret) &&
      Pow2(l * lb - 1) <= a.Mant() * Pow2(shift) < Pow2(l * lb) && e - l * lb + shift == a.expn - a.len * lb
  }

  /** Zero, infinity and NaN operands, with the operand of larger exponent first. */
  method AddSpecial(r: BigFloat, a: BigFloat, b: BigFloat, aNeg: bool, sub: bool, lb: nat, prec: nat, flags: Flags) returns (ret: Status)
    requires r != a && r != b && Binary(lb) && lb >= 1 && r.Valid() && WellFormed(a, lb) && WellFormed(b, lb)
    requires flags.expBits >= 1 && prec >= 1 && a.expn >= b.expn && (a.len == 0 || b.len == 0)
    modifies r
    ensures r.Valid()
    ensures a.expn == EXP_NAN ==> r.expn == EXP_NAN && r.len == 0 && ret == OK
    ensures a.expn == EXP_INF ==>
              if b.expn == EXP_INF && sub then r.expn == EXP_NAN && r.len == 0 && ret == OK.(invalid := true)
              else r.expn == EXP_INF && r.len == 0 && r.neg == aNeg && ret == OK
    ensures a.expn == EXP_ZERO ==> r.IsZero(aNeg) && ret == OK
    ensures a.len > 0 ==> OnlyRounded(a, aNeg, lb, prec, flags, r, ret) && r.neg == aNeg
  {
    hide Val, Pow, Pow2, Outcome;
    ret := OK;
    if a.expn >= EXP_INF {
      if a.expn == EXP_NAN {
        r.SetNan();
      } else if b.expn == EXP_INF && sub {
        r.SetNan();
        ret := OK.(invalid := true);
      } else {
        r.SetInf(aNeg);
      }
      return;
    }
    var tab := new Limb[a.len];
    for i := 0 to a.len
      invariant tab[..i] == a.tab[..i]
    {
      tab[i] := a.tab[i];
      assert tab[..i + 1] == tab[..i] + [tab[i]] && a.tab[..i + 1] == a.tab[..i] + [a.tab[i]];
    }
    r.tab, r.len, r.expn, r.neg := tab, a.len, a.expn, aNeg;
    if a.len == 0 {
      ValZeros(tab[..0]);
    }
    ghost var l, shift;
    ret, l, shift := NormalizeAndRound(r, lb, prec, flags);
    if a.len > 0 {
      ghost var e := a.expn - (a.len - l) * lb - shift;
      MulDist(a.len, l, lb);
      NormalNonZero(a, lb);
      assert Outcome(a.Mant() * Pow2(shift), l, lb, e, aNeg, prec, flags, OK, r, ret);
    }
  }

  lemma {:induction false} NormalNonZero(a: BigFloat, lb: nat)
    requires a.Normal(lb)
    ensures a.Mant() > 0
  {
  }

  /** A number plus zero is an exact sum. */
  lemma {:induction false} PlusZero(a: BigFloat, b: BigFloat, neg: bool, lb: nat, prec: nat, flags: Flags, r: BigFloat, ret: Status) returns (e: int)
    requires Binary(lb) && lb >= 1 && a.Normal(lb) && WellFormed(b, lb) && b.len == 0 && r.Valid() && r.neg == neg
    requires flags.expBits >= 1 && !flags.radpnt && prec >= 1 && OnlyRounded(a, neg, lb, prec, flags, r, ret)
    ensures a.Magnitude(lb) > 0.0 && b.Magnitude(lb) == 0.0 && Delivered(a.Magnitude(lb), e, neg, prec, flags, lb, OK, r, ret)
  {
    hide Val, Pow, Pow2, P2, Float, Delivered, Outcome, Sticky;
    PositiveMagnitude(a, lb);
    NoMagnitude(b, lb);
    var l: nat, shift: nat, e': int :|
      l * lb >= 1 && Outcome(a.Mant() * Pow2(shift), l, lb, e', neg, prec, flags, OK, r, ret) &&
      Pow2(l * lb - 1) <= a.Mant() * Pow2(shift) < Pow2(l * lb) && e' - l * lb + shift == a.expn - a.len * lb;
    e := e';
    var s, g := a.Mant(), a.expn - a.len * lb;
    ExactlyTruncated(s, l * lb, shift);
    FinishSum(s, s, 0, 0, s * Pow2(shift), l, shift, g, e, neg, prec, flags, lb, OK, r, ret);
  }

  lemma {:induction false} NoMagnitude(b: BigFloat, lb: nat)
    requires b.Valid() && b.len == 0
    ensures b.Magnitude(lb) == 0.0
  {
    assert b.tab[..0] == [];
  }

  lemma {:induction false} ExactlyTruncated(s: nat, n: nat, shift: nat)
    requires n >= 1 && s > 0 && Pow2(n - 1) <= s * Pow2(shift) < Pow2(n)
    ensures Truncated(s, s, 0, 0, s * Pow2(shift), n, shift)
  {
    OneIsPow();
    hide Pow2;
    if n <= shift {
      Pow2Mono(n, shift);
      MulMono(1, s, Pow2(shift));
    }
  }

  /**
  bf_add_internal: adds b, or subtracts it if bFlip. A finite result is the exact sum correctly
  rounded; an exact zero is positive, except when rounding towards minus infinity.
  */
  method AddInternal(r: BigFloat, a: BigFloat, b: BigFloat, prec: nat, flags: Flags, bFlip: bool, lb: nat)
    returns (ret: Status, ghost e: int)
    requires r != a && r != b && Binary(lb) && lb >= 1 && r.Valid() && WellFormed(a, lb) && WellFormed(b, lb)
    requires !flags.radpnt && flags.expBits >= 1 && prec >= 1
    modifies r
    ensures r.Valid()
    ensures a.expn < EXP_INF && b.expn < EXP_INF && (a.len > 0 || b.len > 0) ==>
              var s := Signed(a.neg, a.Magnitude(lb)) + Signed(b.neg != bFlip, b.Magnitude(lb));
              if s == 0.0 then r.IsZero(flags.mode == RNDD) && ret == OK
              else Delivered(Abs(s), e, s < 0.0, prec, flags, lb, OK, r, ret)
    ensures a.expn == EXP_NAN || b.expn == EXP_NAN ==> r.expn == EXP_NAN && r.len == 0 && ret == OK
    ensures a.expn == EXP_INF && b.expn == EXP_INF ==>
              if a.neg != (b.neg != bFlip) then r.expn == EXP_NAN && ret == OK.(invalid := true)
              else r.expn == EXP_INF && r.neg == a.neg && ret == OK
    ensures a.expn == EXP_INF && b.expn < EXP_INF ==> r.expn == EXP_INF && r.neg == a.neg && ret == OK
    ensures b.expn == EXP_INF && a.expn < EXP_INF ==> r.expn == EXP_INF && r.neg == (b.neg != bFlip) && ret == OK
    ensures a.expn == EXP_ZERO && b.expn == EXP_ZERO ==>
              r.IsZero(if a.neg == (b.neg != bFlip) then a.neg else flags.mode == RNDD) && ret == OK
  {
    hide Val, Pow, Pow2, P2, Float, Delivered, Extended, Outcome, OnlyRounded;
    e := 0;
    var bNeg := b.neg != bFlip;
    var sub := a.neg != bNeg;
    var c := CmpU(a, b);
    if c == 0 && sub && a.expn < EXP_INF {
      if a.len > 0 && b.len > 0 {
        EqualMagnitudes(a, b, lb);
      }
      r.SetZero(flags.mode == RNDD);
      ret := OK;
    } else if a.len == 0 || b.len == 0 {
      if c < 0 {
        ret := AddSpecial(r, b, a, bNeg, sub, lb, prec, flags);
        if b.len > 0 {
          e := PlusZero(b, a, bNeg, lb, prec, flags, r, ret);
        }
      } else {
        ret := AddSpecial(r, a, b, a.neg, sub, lb, prec, flags);
        if a.len > 0 {
          e := PlusZero(a, b, a.neg, lb, prec, flags, r, ret);
        }
      }
    } else if c < 0 {
      ret, e := AddOrdered(r, b, a, bNeg, a.neg, -c, lb, prec, flags);
    } else {
      ret, e := AddOrdered(r, a, b, a.neg, bNeg, c, lb, prec, flags);
    }
  }

  lemma {:induction false} EqualMagnitudes(a: BigFloat, b: BigFloat, lb: nat)
    requires Binary(lb) && a.Valid() && b.Valid() && a.expn == b.expn
    requires var t := Max(a.len, b.len); Val(Extended(a.tab[..a.len], t)) == Val(Extended(b.tab[..b.len], t))
    ensures a.Magnitude(lb) == b.Magnitude(lb)
  {
    hide Val, Pow, Float, Extended;
    var t := Max(a.len, b.len);
    ExtendedValue(a.tab[..a.len], t);
    ExtendedValue(b.tab[..b.len], t);
    FloatLimbs(a.tab[..a.len], t, lb, a.expn);
    FloatLimbs(b.tab[..b.len], t, lb, b.expn);
  }
}
