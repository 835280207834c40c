/** Correctly rounded addition and subtraction. */
module FloatAddition {
  import opened Arith
  import opened Limbs
  import opened LimbOps
  import opened RoundSpec
  import opened LimbBits
  import opened Rounding
  import opened BigFloats

  /** Digit j of x in limbs of lb bits. */
  function Digit(x: nat, lb: nat, j: nat): nat {
    Rem(Quo(x, j * lb), lb)
  }

  /** The lb bits of v at a bit position, which may be negative. */
  function BitsAt(v: nat, lb: nat, pos: int): nat {
    if pos >= 0 then Rem(Quo(v, pos), lb) else Rem(v * Pow2(-pos), lb)
  }

  lemma {:induction false} QuoQuo(x: nat, i: nat, j: nat)
    ensures Quo(Quo(x, i), j) == Quo(x, i + j)
  {
    hide Quo, Rem, Pow2;
    var q, r := Quo(x, i), Rem(x, i);
    SplitAt(x, i);
    SplitAt(q, j);
    Pow2Add(j, i);
    var c, s, u, w := Quo(q, j), Rem(q, j), Pow2(i), Pow2(j);
    LowPart(c, s, w, u, r);
    SplitIs(x, i + j, c, s * u + r);
  }

  lemma {:induction false} QuoScale(v: nat, s: nat, i: nat)
    ensures i >= s ==> Quo(v * Pow2(s), i) == Quo(v, i - s)
    ensures i <= s ==> Quo(v * Pow2(s), i) == v * Pow2(s - i)
  {
    hide Quo, Rem, Pow2;
    if i <= s {
      Pow2Add(s - i, i);
      MulAssoc(v, Pow2(s - i), Pow2(i));
      SplitIs(v * Pow2(s), i, v * Pow2(s - i), 0);
    } else {
      SplitIs(v * Pow2(s), s, v, 0);
      QuoQuo(v * Pow2(s), s, i - s);
    }
    if i == s {
      QuoOne(v);
    }
  }

  lemma {:induction false} QuoOne(v: nat)
    ensures Quo(v, 0) == v && v * Pow2(0) == v
  {
  }

  /** Digits of a shifted number are bits of the number. */
  lemma {:induction false} DigitOfShifted(v: nat, s: nat, lb: nat, j: nat)
    ensures Digit(v * Pow2(s), lb, j) == BitsAt(v, lb, j * lb - s)
  {
    hide Quo, Rem, Pow2;
    QuoScale(v, s, j * lb);
    QuoOne(v);
  }

  /** Digits of a multiple of 2^lb. */
  lemma {:induction false} RemMultiple(x: nat, c: nat, lb: nat)
    requires x < Pow2(lb)
    ensures Rem(x + c * Pow2(lb), lb) == x
  {
    hide Quo, Rem, Pow2;
    SplitIs(x + c * Pow2(lb), lb, c, x);
  }

  lemma {:induction false} BitsFarBelow(v: nat, lb: nat, pos: int)
    requires lb >= 1 && pos + lb <= 0
    ensures BitsAt(v, lb, pos) == 0
  {
    hide Quo, Rem, Pow2;
    var s: nat := -pos;
    Pow2Add(s - lb, lb);
    MulAssoc(v, Pow2(s - lb), Pow2(lb));
    SplitIs(v * Pow2(s), lb, v * Pow2(s - lb), 0);
  }

  lemma {:induction false} BitsAbove(s: seq<Limb>, lb: nat, pos: int)
    requires Binary(lb) && pos >= |s| * lb
    ensures BitsAt(Val(s), lb, pos) == 0
  {
    hide Val, Pow, Pow2, Quo, Rem;
    BoundV(s, lb);
    Pow2Mono(|s| * lb, pos);
    SplitIs(Val(s), pos, 0, Val(s));
    SplitIs(0, lb, 0, 0);
  }

  /** Limb i of a vector that is zero outside its bounds. */
  function Limbz(s: seq<Limb>, i: int): Limb {
    if 0 <= i < |s| then s[i] else 0
  }

  lemma {:induction false} LimbzUp(s: seq<Limb>, i: nat)
    ensures i <= |s| ==> Val(s[i..]) == Limbz(s, i) + B * (if i < |s| then Val(s[i + 1..]) else 0)
  {
    if i < |s| {
      assert s[i..] == [s[i]] + s[i + 1..];
      ValCons(s[i], s[i + 1..]);
    }
  }

  /** Bits of a vector straddle at most two limbs. */
  lemma {:induction false} BitsOfLimbs(s: seq<Limb>, lb: nat, i: nat, p: nat)
    requires Binary(lb) && p < lb && i < |s|
    ensures BitsAt(Val(s), lb, i * lb + p) == Quo(s[i], p) + Rem(Limbz(s, i + 1), p) * Pow2(lb - p)
  {
    hide Val, Pow, Pow2, Quo, Rem;
    CutAt(s, lb, i, p);
    LimbzUp(s, i + 1);
    var a0, a1 := s[i], Limbz(s, i + 1);
    var h := if i + 1 < |s| then Val(s[i + 2..]) else 0;
    Pow2Add(lb - p, p);
    SplitAt(a1, p);
    SplitAt(a0, p);
    QuoBelow(a0, p, Pow2(lb - p));
    Straddle(Quo(a0, p), Pow2(lb - p), Pow2(p), Quo(a1, p), Rem(a1, p), h, Val(s[i + 1..]), lb);
  }

  lemma {:induction false} QuoBelow(a: nat, p: nat, w: nat)
    requires a < w * Pow2(p)
    ensures Quo(a, p) < w
  {
    hide Quo, Rem, Pow2;
    SplitAt(a, p);
    if Quo(a, p) >= w {
      MulMono(w, Quo(a, p), Pow2(p));
    }
  }

  lemma {:induction false} Straddle(x: nat, w: nat, u: nat, q: nat, r: nat, h: nat, v: nat, lb: nat)
    requires w * u == Pow2(lb) && x < w && r < u && v == q * u + r + Pow2(lb) * h
    ensures Rem(x + w * v, lb) == x + r * w
  {
    hide Quo, Rem, Pow2;
    StraddleArith(x, w, u, q, r, h);
    RemMultiple(x + r * w, q + w * h, lb);
  }

  lemma {:induction false} StraddleArith(x: nat, w: nat, u: nat, q: nat, r: nat, h: nat)
    requires r < u
    ensures x + w * (q * u + r + w * u * h) == x + r * w + (q + w * h) * (w * u)
    ensures x < w ==> x + r * w < w * u
  {
    MulDist(q * u + r, w * u * h, w);
    MulDist(q * u, r, w);
    MulDist(q, w * h, w * u);
    assert w * (q * u) == q * (w * u) by { MulAssoc(w, q, u); MulAssoc(q, w, u); }
    assert w * (w * u * h) == w * h * (w * u) by { MulAssoc(w, w * u, h); MulAssoc(w, h, w * u); }
    MulMono(r + 1, u, w);
    MulDist(r, 1, w);
  }

  /** get_limbz */
  method GetLimbz(tab: array<Limb>, len: nat, i: int) returns (x: Limb)
    requires len <= tab.Length
    ensures x == Limbz(tab[..len], i)
  {
    if i < 0 || i >= len {
      return 0;
    }
    x := tab[i];
  }

  /** pos = i * lb + p, rounding down for negative positions. */
  method FloorPos(pos: int, lb: nat) returns (i: int, p: nat)
    requires lb >= 1
    ensures pos == i * lb + p && p < lb
  {
    i, p := pos / lb, pos % lb;
  }

  /** get_bits: LIMB_BITS bits at a position, zero outside the number. */
  method GetBits(tab: array<Limb>, len: nat, lb: nat, pos: int) returns (x: Limb)
    requires Binary(lb) && lb >= 1 && len <= tab.Length
    ensures x == BitsAt(Val(tab[..len]), lb, pos)
  {
    hide Val, Pow, Pow2, Quo, Rem, BitsAt;
    ghost var s := tab[..len];
    var i, p := FloorPos(pos, lb);
    var a0 := GetLimbz(tab, len, i);
    BitsAtLimb(s, lb, i, p);
    if p == 0 {
      return a0;
    }
    var a1 := GetLimbz(tab, len, i + 1);
    x := Quo(a0, p) + Rem(a1, p) * Pow2(lb - p);
  }

  /** The bits at any position, from the two limbs around it. */
  lemma {:induction false} BitsAtLimb(s: seq<Limb>, lb: nat, i: int, p: nat)
    requires Binary(lb) && lb >= 1 && p < lb
    ensures BitsAt(Val(s), lb, i * lb + p) == Quo(Limbz(s, i), p) + Rem(Limbz(s, i + 1), p) * Pow2(lb - p) < B
    ensures p == 0 ==> BitsAt(Val(s), lb, i * lb + p) == Limbz(s, i)
  {
    hide Val, Pow, Pow2, Quo, Rem;
    QuoOne(Limbz(s, i));
    RemZero(Limbz(s, i + 1));
    SplitIs(0, p, 0, 0);
    if i >= |s| {
      MulMono(|s|, i, lb);
      BitsAbove(s, lb, i * lb + p);
    } else if i >= 0 {
      BitsOfLimbs(s, lb, i, p);
      BitsSmall(Val(s), lb, i * lb + p);
    } else if i < -1 {
      MulMono(i, -2, lb);
      BitsFarBelow(Val(s), lb, i * lb + p);
    } else {
      BelowIsAbove(s, lb, p);
    }
  }

  lemma {:induction false} BitsSmall(v: nat, lb: nat, pos: int)
    requires Binary(lb)
    ensures BitsAt(v, lb, pos) < B
  {
    hide Quo, Rem, Pow2;
    if pos >= 0 {
      SplitAt(Quo(v, pos), lb);
    } else {
      SplitAt(v * Pow2(-pos), lb);
    }
  }

  /** Just below a vector: as if one more zero limb were there. */
  lemma {:induction false} BelowIsAbove(s: seq<Limb>, lb: nat, p: nat)
    requires Binary(lb) && lb >= 1 && p < lb
    ensures BitsAt(Val(s), lb, p - lb) == Rem(Limbz(s, 0), p) * Pow2(lb - p) < B
  {
    hide Val, Pow, Pow2, Quo, Rem;
    var t: seq<Limb> := [0] + s;
    ValCons(0, s);
    BitsOfLimbs(t, lb, 0, p);
    SplitIs(0, p, 0, 0);
    assert Limbz(t, 1) == Limbz(s, 0);
    QuoScale(Val(s), lb, p);
    BitsSmall(Val(s), lb, p - lb);
  }

  /** The digits of x. */
  ghost function Digits(x: nat, lb: nat, t: nat): (s: seq<Limb>)
    requires Binary(lb)
    ensures |s| == t
  {
    hide Pow2, Quo, Rem;
    seq(t, j requires 0 <= j < t => DigitLimb(x, lb, j))
  }

  ghost function DigitLimb(x: nat, lb: nat, j: nat): (d: Limb)
    requires Binary(lb)
    ensures d == Digit(x, lb, j)
  {
    hide Pow2, Quo, Rem;
    SplitAt(Quo(x, j * lb), lb);
    Digit(x, lb, j)
  }

  lemma {:induction false} DigitsValue(x: nat, lb: nat, t: nat)
    requires Binary(lb)
    ensures Val(Digits(x, lb, t)) == Rem(x, t * lb)
  {
    hide Val, Pow, Pow2, Quo, Rem, Digit;
    if t == 0 {
      RemZero(x);
      ValZeros(Digits(x, lb, 0));
    } else {
      DigitsValue(x, lb, t - 1);
      var s, d := Digits(x, lb, t - 1), DigitLimb(x, lb, t - 1);
      assert Digits(x, lb, t) == s + [d];
      ValSnoc(s, d);
      PowIsPow2(lb, t - 1);
      OneMoreDigit(x, lb, t - 1);
    }
  }

  lemma {:induction false} OneMoreDigit(x: nat, lb: nat, j: nat)
    ensures Rem(x, (j + 1) * lb) == Rem(x, j * lb) + Digit(x, lb, j) * Pow2(j * lb)
    ensures Quo(x, j * lb) == Quo(x, (j + 1) * lb) * Pow2(lb) + Digit(x, lb, j)
  {
    hide Pow2, Quo, Rem;
    var k := j * lb;
    MulDist(j, 1, lb);
    SplitAt(x, k);
    var q, d := Quo(x, k), Digit(x, lb, j);
    SplitAt(q, lb);
    Pow2Add(lb, k);
    LowPart(Quo(q, lb), d, Pow2(lb), Pow2(k), Rem(x, k));
    SplitIs(x, k + lb, Quo(q, lb), d * Pow2(k) + Rem(x, k));
  }

  /** A vector extended with zero limbs at the bottom to a window of t limbs. */
  ghost function Extended(s: seq<Limb>, t: nat): (w: seq<Limb>)
    requires |s| <= t
    ensures |w| == t && forall j :: 0 <= j < t ==> w[j] == Limbz(s, j - (t - |s|))
  {
    seq(t - |s|, j => 0) + s
  }

  lemma {:induction false} ExtendedValue(s: seq<Limb>, t: nat)
    requires |s| <= t
    ensures Val(Extended(s, t)) == Val(s) * Pow(t - |s|)
  {
    hide Val, Pow;
    var z: seq<Limb> := seq(t - |s|, j => 0);
    ValConcat(z, s);
    ValZeros(z);
  }

  /** The same number moved down by d bits in the window. */
  ghost function Lowered(s: seq<Limb>, lb: nat, t: nat, d: nat): (w: seq<Limb>)
    requires Binary(lb) && (t - |s|) * lb >= d
    ensures |w| == t
  {
    Digits(Val(s) * Pow2((t - |s|) * lb - d), lb, t)
  }

  lemma {:induction false} LoweredValue(s: seq<Limb>, lb: nat, t: nat, d: nat)
    requires Binary(lb) && |s| <= t && (t - |s|) * lb >= d
    ensures d <= t * lb
    ensures Val(Lowered(s, lb, t, d)) == Val(s) * Pow2((t - |s|) * lb - d) < Pow2(t * lb - d)
  {
    hide Val, Pow, Pow2, Quo, Rem;
    var k := (t - |s|) * lb - d;
    var x := Val(s) * Pow2(k);
    MulDist(t, |s|, lb);
    assert 0 <= |s| * lb;
    BoundV(s, lb);
    MulStrict(Val(s), Pow2(|s| * lb), Pow2(k));
    Pow2Add(|s| * lb, k);
    DigitsValue(x, lb, t);
    Pow2Mono(t * lb - d, t * lb);
    SplitIs(x, t * lb, 0, x);
  }

  lemma {:induction false} LoweredAt(s: seq<Limb>, lb: nat, t: nat, d: nat, j: nat)
    requires Binary(lb) && (t - |s|) * lb >= d && j < t
    ensures Lowered(s, lb, t, d)[j] == BitsAt(Val(s), lb, (j - (t - |s|)) * lb + d)
  {
    hide Val, Pow, Pow2, Quo, Rem, BitsAt;
    DigitOfShifted(Val(s), (t - |s|) * lb - d, lb, j);
    MulDist(j, t - |s|, lb);
  }

  function Max(x: int, y: int): int {
    if x >= y then x else y
  }

  /** bf_cmpu, for numbers that are not zero: by exponent, then by the limbs from the top. */
  method CmpU(a: BigFloat, b: BigFloat) returns (c: int)
    requires a.Valid() && b.Valid()
    ensures a.expn < b.expn ==> c < 0
    ensures a.expn > b.expn ==> c > 0
    ensures a.expn == b.expn ==>
              var t := Max(a.len, b.len);
              var x, y := Val(Extended(a.tab[..a.len], t)), Val(Extended(b.tab[..b.len], t));
              (c < 0 <==> x < y) && (c > 0 <==> x > y)
  {
    hide Val, Pow, Extended;
    if a.expn != b.expn {
      return if a.expn < b.expn then -1 else 1;
    }
    var t := Max(a.len, b.len);
    ghost var x, y := Extended(a.tab[..a.len], t), Extended(b.tab[..b.len], t);
    var i := t;
    while i > 0
      invariant 0 <= i <= t && x[i..] == y[i..]
    {
      i := i - 1;
      var v1 := GetLimbz(a.tab, a.len, a.len - t + i);
      var v2 := GetLimbz(b.tab, b.len, b.len - t + i);
      if v1 != v2 {
        if v1 < v2 {
          TopDiffers(x, y, i);
          return -1;
        } else {
          TopDiffers(y, x, i);
          return 1;
        }
      }
      assert x[i..] == [x[i]] + x[i + 1..] && y[i..] == [y[i]] + y[i + 1..];
    }
    assert x[0..] == x && y[0..] == y;
    return 0;
  }

  /** clz within a field of f bits. */
  method LeadingZeros(x: nat, f: nat) returns (q: nat)
    requires x < Pow2(f)
    ensures q <= f && x < Pow2(f - q) && (q < f ==> x >= Pow2(f - q - 1))
  {
    hide Pow2;
    q := 0;
    while q < f && x < Pow2(f - q - 1)
      invariant q <= f && x < Pow2(f - q)
    {
      q := q + 1;
    }
  }

  /** The position of the highest bit in which v1 > v2 differ: clz(v1 ^ v2), from below. */
  method FirstDifference(v1: Limb, v2: Limb, lb: nat) returns (pb: nat)
    requires Binary(lb) && lb >= 1 && v1 > v2
    ensures pb < lb && v1 - v2 == Pow2(pb) + Rem(v1, pb) - Rem(v2, pb)
    ensures Rem(v1, pb) < Pow2(pb) && Rem(v2, pb) < Pow2(pb)
  {
    hide Pow2, Quo, Rem;
    pb := lb - 1;
    SplitIs(v1, lb, 0, v1);
    SplitIs(v2, lb, 0, v2);
    while Quo(v1, pb) == Quo(v2, pb)
      invariant 0 <= pb < lb && Quo(v1, pb + 1) == Quo(v2, pb + 1)
      decreases pb
    {
      if pb == 0 {
        QuoOne(v1);
        QuoOne(v2);
        assert false;
      }
      pb := pb - 1;
    }
    HalfQuo(v1, pb + 1);
    HalfQuo(v2, pb + 1);
    SplitAt(v1, pb);
    SplitAt(v2, pb);
    DiffBit(v1, v2, Quo(v1, pb), Quo(v2, pb), Rem(v1, pb), Rem(v2, pb), Pow2(pb));
  }

  lemma {:induction false} HalfQuo(x: nat, k: nat)
    requires k >= 1
    ensures 2 * Quo(x, k) <= Quo(x, k - 1) <= 2 * Quo(x, k) + 1
  {
    hide Pow2, Quo, Rem;
    QuoQuo(x, k - 1, 1);
    SplitAt(Quo(x, k - 1), 1);
    TwoIsPow();
  }

  lemma {:induction false} TwoIsPow()
    ensures Pow2(1) == 2
  {
    assert Pow2(0) == 1;
  }

  lemma {:induction false} DiffBit(v1: nat, v2: nat, q1: nat, q2: nat, r1: nat, r2: nat, u: nat)
    requires v1 == q1 * u + r1 && v2 == q2 * u + r2 && r1 < u && r2 < u && v1 > v2 && q1 != q2 && -1 <= q1 - q2 <= 1
    ensures v1 - v2 == u + r1 - r2
  {
    if q1 < q2 {
      MulMono(q1 + 1, q2, u);
      MulDist(q1, 1, u);
      assert false;
    }
    MulDist(q2, 1, u);
  }

  /** Above index i, x is y or one more than y. */
  lemma {:induction false} DifferenceAt(x: seq<Limb>, y: seq<Limb>, i: nat, delta: int)
    requires i <= |x| == |y| && Val(x[i..]) == Val(y[i..]) + delta
    ensures Val(x) - Val(y) == Pow(i) * delta + Val(x[..i]) - Val(y[..i])
    ensures Val(x) - Val(y) > Pow(i) * (delta - 1)
  {
    hide Val, Pow;
    ValSplit(x, i);
    ValSplit(y, i);
    ValBound(y[..i]);
    MulDist(Val(x[i..]), Val(y[i..]), Pow(i));
    MulDist(delta, 1, Pow(i));
  }

  /** Index i - 1, given index i. */
  lemma {:induction false} DifferenceStep(x: seq<Limb>, y: seq<Limb>, i: nat, delta: int)
    requires 1 <= i <= |x| == |y| && Val(x[i..]) == Val(y[i..]) + delta
    ensures Val(x[i - 1..]) == Val(y[i - 1..]) + (B * delta + x[i - 1] - y[i - 1])
  {
    hide Val, Pow;
    assert x[i - 1..] == [x[i - 1]] + x[i..] && y[i - 1..] == [y[i - 1]] + y[i..];
    ValCons(x[i - 1], x[i..]);
    ValCons(y[i - 1], y[i..]);
  }

  /** A difference of at least 2^k + 1 limbs' units, as a bound on the leading zeros. */
  lemma {:induction false} EnoughBits(diff: int, lb: nat, t: nat, i: nat, k: nat, n: nat)
    requires Binary(lb) && diff >= Pow(i) * Pow2(k) && n + 1 + i * lb + k == t * lb
    ensures diff * Pow2(n + 1) >= Pow2(t * lb)
  {
    hide Pow, Pow2;
    PowIsPow2(lb, i);
    Pow2Add(i * lb, k);
    Pow2Add(i * lb + k, n + 1);
    MulMono(Pow2(i * lb + k), diff, Pow2(n + 1));
  }

  /** The field in which 1000.. over 0111.. stops: the rest of the difference is at least 2^(f-q-1). */
  lemma {:induction false} FieldBound(v1: nat, v2: nat, f: nat, q1: nat, q2: nat)
    requires v1 < Pow2(f) && v2 < Pow2(f) && q1 <= f && q2 <= f
    requires q1 < f ==> v1 >= Pow2(f - q1 - 1)
    requires q2 < f ==> Pow2(f) - 1 - v2 >= Pow2(f - q2 - 1)
    requires q1 == f ==> v1 == 0
    requires q2 == f ==> v2 == Pow2(f) - 1
    ensures var q := if q1 <= q2 then q1 else q2;
            if q < f then Pow2(f) + v1 - v2 - 1 >= Pow2(f - q - 1) else Pow2(f) + v1 - v2 == 1
  {
  }

  /** The window of t limbs holds both numbers, b lowered by d bits. */
  ghost predicate Window(a: BigFloat, b: BigFloat, lb: nat, t: nat, d: nat)
    reads a, b
  {
    a.Valid() && b.Valid() && a.len <= t && b.len <= t && (t - b.len) * lb >= d
  }

  ghost function Wide(a: BigFloat, t: nat): (w: seq<Limb>)
    requires a.Valid() && a.len <= t
    reads a, a.tab
    ensures |w| == t
  {
    Extended(a.tab[..a.len], t)
  }

  ghost function Narrow(b: BigFloat, lb: nat, t: nat, d: nat): (w: seq<Limb>)
    requires Binary(lb) && b.Valid() && (t - b.len) * lb >= d
    reads b, b.tab
    ensures |w| == t
  {
    Lowered(b.tab[..b.len], lb, t, d)
  }

  /** The limbs of both numbers at index j of the window, zero below it. */
  method LimbPair(a: BigFloat, b: BigFloat, lb: nat, d: nat, c: nat, ghost t: nat) returns (v1: Limb, v2: Limb)
    requires Binary(lb) && lb >= 1 && Window(a, b, lb, t, d)
    ensures c < t ==> v1 == Wide(a, t)[t - 1 - c] && v2 == Narrow(b, lb, t, d)[t - 1 - c]
    ensures c >= t ==> v1 == 0 && v2 == 0
  {
    hide Val, Pow, Pow2, Quo, Rem, BitsAt;
    v1 := GetLimbz(a.tab, a.len, a.len - 1 - c);
    v2 := GetBits(b.tab, b.len, lb, (b.len - 1 - c) * lb + d);
    if c < t {
      LoweredAt(b.tab[..b.len], lb, t, d, t - 1 - c);
    } else {
      BelowWindow(b.len, t, c, lb, d);
      BitsFarBelow(Val(b.tab[..b.len]), lb, (b.len - 1 - c) * lb + d);
    }
  }

  lemma {:induction false} BelowWindow(len: nat, t: nat, c: nat, lb: nat, d: nat)
    requires c >= t && (t - len) * lb >= d
    ensures (len - 1 - c) * lb + d + lb <= 0
  {
    MulMono(len - 1 - c, len - 1 - t, lb);
    MulDist(len - t, 1, lb);
    MulDist(0, t - len, lb);
  }

  /** n is at least the number of leading zero bits of x - y in a window of t limbs. */
  ghost predicate Covers(n: nat, x: nat, y: nat, lb: nat, t: nat) {
    (x - y) * Pow2(n + 1) >= Pow2(t * lb)
  }

  /** count_cancelled_bits */
  method CountCancelled(a: BigFloat, b: BigFloat, lb: nat, d: nat, ghost t: nat) returns (n: nat)
    requires Binary(lb) && lb >= 1 && Window(a, b, lb, t, d) && Val(Wide(a, t)) > Val(Narrow(b, lb, t, d))
    ensures Covers(n, Val(Wide(a, t)), Val(Narrow(b, lb, t, d)), lb, t)
  {
    hide Val, Pow, Pow2, Quo, Rem, Wide, Narrow;
    ghost var x, y := Wide(a, t), Narrow(b, lb, t, d);
    var c := 0;
    var v1, v2 := LimbPair(a, b, lb, d, c, t);
    assert x[t..] == y[t..];
    assert t > 0;
    while v1 == v2
      invariant c < t && x[t - c..] == y[t - c..] && v1 == x[t - 1 - c] && v2 == y[t - 1 - c]
      decreases t - c
    {
      ghost var i := t - 1 - c;
      assert x[i..] == [v1] + x[t - c..] && y[i..] == [v2] + y[t - c..];
      if i == 0 {
        assert false;
      }
      c := c + 1;
      v1, v2 := LimbPair(a, b, lb, d, c, t);
    }
    ghost var i := t - 1 - c;
    assert v1 > v2 by {
      if v1 < v2 {
        TopDiffers(x, y, i);
      }
    }
    DifferenceStep(x, y, t - c, 0);
    n := AfterDifference(a, b, lb, d, c, v1, v2, x, y, t);
  }

  /** From the first differing limb on: search for 0 bits in a and 1 bits in b. */
  method AfterDifference(a: BigFloat, b: BigFloat, lb: nat, d: nat, c: nat, v1: Limb, v2: Limb,
                         ghost x: seq<Limb>, ghost y: seq<Limb>, ghost t: nat) returns (n: nat)
    requires Binary(lb) && lb >= 1 && Window(a, b, lb, t, d) && x == Wide(a, t) && y == Narrow(b, lb, t, d)
    requires c < t && v1 > v2 && Val(x[t - 1 - c..]) == Val(y[t - 1 - c..]) + (v1 - v2)
    ensures Covers(n, Val(x), Val(y), lb, t)
  {
    hide Val, Pow, Pow2, Quo, Rem, Wide, Narrow, Window, Extended, Lowered;
    ghost var i := t - 1 - c;
    var p := FirstDifference(v1, v2, lb);
    n := c * lb + (lb - p);
    var q1 := LeadingZeros(Rem(v1, p), p);
    var q2 := LeadingZeros(Pow2(p) - 1 - Rem(v2, p), p);
    OneIsPow();
    FieldBound(Rem(v1, p), Rem(v2, p), p, q1, q2);
    var q := if q1 <= q2 then q1 else q2;
    n := n + q;
    if q < p {
      StopsEarly(x, y, lb, t, c, v1 - v2, p, q);
      return;
    }
    MulDist(c, 1, lb);
    n := CountRun(a, b, lb, d, c + 1, n, x, y, t);
  }

  lemma {:induction false} StopsEarly(x: seq<Limb>, y: seq<Limb>, lb: nat, t: nat, c: nat, delta: int, p: nat, q: nat)
    requires Binary(lb) && c < t == |x| == |y| && Val(x[t - 1 - c..]) == Val(y[t - 1 - c..]) + delta
    requires q < p < lb && delta - 1 >= Pow2(p - q - 1)
    ensures Covers(c * lb + (lb - p) + q, Val(x), Val(y), lb, t)
  {
    hide Val, Pow, Pow2;
    var i := t - 1 - c;
    DifferenceAt(x, y, i, delta);
    WindowBits(t, c, lb);
    MulMono(Pow2(p - q - 1), delta - 1, Pow(i));
    EnoughBits(Val(x) - Val(y), lb, t, i, p - q - 1, c * lb + (lb - p) + q);
  }

  lemma {:induction false} OneIsPow()
    ensures Pow2(0) == 1
  {
  }

  lemma {:induction false} WindowBits(t: nat, c: nat, lb: nat)
    requires c < t
    ensures c * lb + lb + (t - 1 - c) * lb == t * lb
  {
    MulDist(c + 1, t - 1 - c, lb);
    MulDist(c, 1, lb);
  }

  /** Whole limbs of 0 bits in a and 1 bits in b, and the first that is not. */
  method CountRun(a: BigFloat, b: BigFloat, lb: nat, d: nat, c0: nat, n0: nat, ghost x: seq<Limb>, ghost y: seq<Limb>, ghost t: nat)
    returns (n: nat)
    requires Binary(lb) && lb >= 1 && Window(a, b, lb, t, d) && x == Wide(a, t) && y == Narrow(b, lb, t, d)
    requires c0 <= t && n0 == c0 * lb && Val(x[t - c0..]) == Val(y[t - c0..]) + 1
    ensures Covers(n, Val(x), Val(y), lb, t)
  {
    hide Val, Pow, Pow2, Quo, Rem, Wide, Narrow, Window, Extended, Lowered;
    var c := c0;
    n := n0;
    while true
      invariant c <= t && n == c * lb && Val(x[t - c..]) == Val(y[t - c..]) + 1
      decreases t - c
    {
      var v1, v2 := LimbPair(a, b, lb, d, c, t);
      if v1 != 0 || v2 != B - 1 {
        var q1 := LeadingZeros(v1, lb);
        var q2 := LeadingZeros(B - 1 - v2, lb);
        RunEnds(x, y, lb, t, c, v1, v2, q1, q2);
        n := n + if q1 <= q2 then q1 else q2;
        return;
      }
      DifferenceStep(x, y, t - c, 1);
      MulDist(c, 1, lb);
      n := n + lb;
      c := c + 1;
    }
  }

  /** The run of 0 over 1 bits ends in this limb, or below the window. */
  lemma {:induction false} RunEnds(x: seq<Limb>, y: seq<Limb>, lb: nat, t: nat, c: nat, v1: Limb, v2: Limb, q1: nat, q2: nat)
    requires Binary(lb) && c <= t == |x| == |y| && Val(x[t - c..]) == Val(y[t - c..]) + 1 && (v1 != 0 || v2 != B - 1)
    requires if c == t then v1 == 0 && v2 == 0 else v1 == x[t - 1 - c] && v2 == y[t - 1 - c]
    requires q1 <= lb && v1 < Pow2(lb - q1) && (q1 < lb ==> v1 >= Pow2(lb - q1 - 1))
    requires q2 <= lb && B - 1 - v2 < Pow2(lb - q2) && (q2 < lb ==> B - 1 - v2 >= Pow2(lb - q2 - 1))
    ensures Covers(c * lb + if q1 <= q2 then q1 else q2, Val(x), Val(y), lb, t)
  {
    hide Val, Pow, Pow2;
    OneIsPow();
    var q := if q1 <= q2 then q1 else q2;
    if c == t {
      DifferenceAt(x, y, 0, 1);
      assert x[..0] == [] && y[..0] == [];
      PowZero();
      LastBit(Val(x) - Val(y), c * lb + q, t * lb);
    } else {
      FieldBound(v1, v2, lb, q1, q2);
      DifferenceStep(x, y, t - c, 1);
      RunStops(x, y, lb, t, c, B + v1 - v2, q);
    }
  }

  lemma {:induction false} RunStops(x: seq<Limb>, y: seq<Limb>, lb: nat, t: nat, c: nat, delta: int, q: nat)
    requires Binary(lb) && c < t == |x| == |y| && Val(x[t - 1 - c..]) == Val(y[t - 1 - c..]) + delta
    requires q < lb && delta - 1 >= Pow2(lb - q - 1)
    ensures Covers(c * lb + q, Val(x), Val(y), lb, t)
  {
    hide Val, Pow, Pow2;
    var i := t - 1 - c;
    DifferenceAt(x, y, i, delta);
    WindowBits(t, c, lb);
    MulMono(Pow2(lb - q - 1), delta - 1, Pow(i));
    EnoughBits(Val(x) - Val(y), lb, t, i, lb - q - 1, c * lb + q);
  }

  lemma {:induction false} LastBit(diff: int, n: nat, m: nat)
    requires diff >= 1 && n >= m
    ensures diff * Pow2(n + 1) >= Pow2(m)
  {
    Pow2Mono(m, n + 1);
    MulMono(1, diff, Pow2(n + 1));
  }
}
