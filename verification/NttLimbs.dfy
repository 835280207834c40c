/** From mixed-radix digits to limbs: Horner's rule, the carry between coefficients, and the bits of the result. */
module NttLimbs {
  import opened Arith
  import opened Limbs
  import opened LimbOps
  import opened RoundSpec
  import opened LimbBits
  import opened Rounding
  import opened BigFloats
  import opened FloatAddition
  import opened RadixConversion
  import opened ModularReduction
  import opened NttReconstruction
  import opened NttSizes

  /** Digits and moduli fit limbs. */
  ghost predicate FitLimbs(s: seq<nat>) {
    forall i :: 0 <= i < |s| ==> s[i] < B
  }

  lemma {:induction false} MixedFrom(y: seq<nat>, m: seq<nat>, j: nat)
    requires |y| == |m| && j < |y|
    ensures Mixed(y[j..], m[j..]) == y[j] + m[j] * Mixed(y[j + 1..], m[j + 1..])
  {
    assert y[j..][1..] == y[j + 1..] && m[j..][1..] == m[j + 1..];
  }

  /** Horner's rule from the last digit down to the second one. */
  method Horner(u: array<Limb>, y: seq<nat>, m: seq<nat>)
    requires |y| == |m| >= 2 && u.Length >= |m| && FitLimbs(y) && FitLimbs(m)
    modifies u
    ensures Val(u[..|m| - 1]) == Mixed(y[1..], m[1..])
  {
    hide Val, Pow, Mixed;
    var n := |m|;
    u[0] := y[n - 1];
    assert u[..1] == [u[0]];
    OneLimb(u[0]);
    MixedFrom(y, m, n - 1);
    MixedNone(y[n..], m[n..]);
    var l, j := 1, n - 2;
    while j >= 1
      invariant 0 <= j <= n - 2 && l == n - 1 - j && Val(u[..l]) == Mixed(y[j + 1..], m[j + 1..])
      decreases j
    {
      assert u[0..0 + l] == u[..l];
      var h := MpMul1(u, 0, u, 0, l, m[j], y[j]);
      ghost var low := u[..l];
      assert u[0..0 + l] == low;
      u[l] := h;
      assert u[..l + 1] == low + [h];
      ValSnoc(low, h);
      MixedFrom(y, m, j);
      l := l + 1;
      j := j - 1;
    }
  }

  lemma {:induction false} MixedNone(y: seq<nat>, m: seq<nat>)
    requires |y| == |m| == 0
    ensures Mixed(y, m) == 0
  {
  }

  /** The last step of Horner's rule, which also adds the carry of the previous coefficient. */
  method AddLast(u: array<Limb>, carry: array<Limb>, n: nat, m0: Limb, y0: Limb, ghost h: nat)
    requires u != carry && n >= 1 && u.Length == n == carry.Length && Val(u[..n - 1]) == h && h * m0 + y0 + Val(carry[..]) < Pow(n)
    modifies u
    ensures Val(u[..]) == h * m0 + y0 + Val(carry[..])
  {
    hide Val, Pow, Carried;
    var l := n - 1;
    ghost var s, t := carry[..l], u[..l];
    CarryStart(s, t, m0, y0);
    var r: Limb := y0;
    assert u[..0] == [];
    for k := 0 to l
      invariant Carried(u[..k], r, s, t, m0, y0) && forall i :: k <= i < l ==> u[i] == t[i]
    {
      var x, r' := MulDigit(carry[k], u[k], m0, r);
      CarryStep(u[..k], x, r, r', s, t, m0, y0);
      u[k] := x;
      assert u[..k + 1] == u[..k] + [x];
      r := r';
    }
    ghost var low := u[..l];
    CarryEnd(low, r, s, t, m0, y0);
    assert carry[..] == s + [carry[l]];
    ValSnoc(s, carry[l]);
    MulDist(r, carry[l], Pow(l));
    PowStep(l);
    NoOverflow(Val(low), r + carry[l], Pow(l), B, h * m0 + y0 + Val(carry[..]));
    u[l] := r + carry[l];
    assert u[..] == low + [u[l]];
    ValSnoc(low, u[l]);
  }

  lemma {:induction false} NoOverflow(low: nat, x: nat, p: nat, b: nat, t: nat)
    requires low + x * p == t < p * b && p >= 1
    ensures x < b
  {
    if x >= b {
      MulMono(b, x, p);
    }
  }

  /** carry[] = u[] >> dpl */
  method ShiftCarry(carry: array<Limb>, u: array<Limb>, n: nat, lb: nat, dpl: nat)
    requires u != carry && Binary(lb) && lb >= 1 && u.Length == n == carry.Length
    modifies carry
    ensures Val(carry[..]) == Quo(Val(u[..]), dpl)
  {
    hide Val, Pow, Pow2, Quo, Rem, BitsAt;
    ghost var t := Val(u[..]);
    assert u[..n] == u[..];
    for k := 0 to n
      invariant forall i :: 0 <= i < k ==> carry[i] == Digit(Quo(t, dpl), lb, i)
    {
      var x := GetBits(u, n, lb, dpl + k * lb);
      ShiftedDigit(t, lb, dpl, k);
      carry[k] := x;
    }
    SameDigits(carry[..], Quo(t, dpl), lb);
    QuoFits(u[..], lb, dpl);
  }

  lemma {:induction false} ShiftedDigit(t: nat, lb: nat, dpl: nat, k: nat)
    ensures BitsAt(t, lb, dpl + k * lb) == Digit(Quo(t, dpl), lb, k)
  {
    hide Quo, Rem;
    QuoQuo(t, dpl, k * lb);
  }

  lemma {:induction false} SameDigits(s: seq<Limb>, x: nat, lb: nat)
    requires Binary(lb) && forall i :: 0 <= i < |s| ==> s[i] == Digit(x, lb, i)
    ensures Val(s) == Rem(x, |s| * lb)
  {
    hide Val, Pow, Pow2, Quo, Rem, Digit;
    assert s == Digits(x, lb, |s|);
    DigitsValue(x, lb, |s|);
  }

  lemma {:induction false} QuoFits(s: seq<Limb>, lb: nat, dpl: nat)
    requires Binary(lb)
    ensures Rem(Quo(Val(s), dpl), |s| * lb) == Quo(Val(s), dpl)
  {
    hide Val, Pow, Pow2, Quo, Rem;
    BoundV(s, lb);
    SplitAt(Val(s), dpl);
    var q := Quo(Val(s), dpl);
    MulMono(1, Pow2(dpl), q);
    SplitIs(q, |s| * lb, 0, q);
  }

  /** The low limb and the high part of x * 2^p. */
  lemma {:induction false} PutParts(x: Limb, lb: nat, p: nat)
    requires Binary(lb) && p < lb
    ensures var lo, hi := Rem(x, lb - p) * Pow2(p), Quo(x, lb - p);
            x * Pow2(p) == lo + B * hi && lo + Pow2(p) <= B && hi < Pow2(p)
  {
    hide Quo, Rem, Pow2;
    Pow2Add(lb - p, p);
    SplitAt(x, lb - p);
    QuoBelow2(x, lb - p, Pow2(p));
    PartsArith(Quo(x, lb - p), Rem(x, lb - p), Pow2(lb - p), Pow2(p));
  }

  lemma {:induction false} QuoBelow2(x: nat, k: nat, w: nat)
    requires x < Pow2(k) * w
    ensures Quo(x, k) < w
  {
    hide Pow2;
    QuoBelow(x, k, w);
  }

  lemma {:induction false} PartsArith(q: nat, r: nat, v: nat, w: nat)
    requires r < v
    ensures (q * v + r) * w == r * w + v * w * q && r * w + w <= v * w
  {
    MulDist(q * v, r, w);
    assert q * v * w == v * w * q by { MulAssoc(q, v, w); }
    MulMono(r + 1, v, w);
    MulDist(r, 1, w);
  }

  /** All bits from pos on are zero: the limb that holds pos, and everything above it. */
  lemma {:induction false} ZeroAbove(s: seq<Limb>, lb: nat, i: nat, p: nat)
    requires Binary(lb) && p < lb && i < |s| && Val(s) < Pow2(i * lb + p)
    ensures s[i] < Pow2(p) && Val(s) == Val(s[..i]) + Pow(i) * s[i] && Val(s[i + 1..]) == 0
    ensures i + 1 < |s| ==> s[i + 1] == 0
  {
    hide Val, Pow, Pow2, Quo, Rem;
    CutAt(s, lb, i, p);
    SplitIs(Val(s), i * lb + p, 0, Val(s));
    var h := Val(s[i + 1..]);
    if h > 0 {
      MulNonZero(Pow2(lb - p), h);
      assert false;
    }
    SplitAt(s[i], p);
    LimbAt(s, i);
    if i + 1 < |s| && s[i + 1] != 0 {
      NonZeroLimb(s[i + 1..], 0);
      assert false;
    }
  }

  /** val << p and val >> (LIMB_BITS - p). */
  method Spread(x: Limb, lb: nat, p: nat) returns (lo: Limb, hi: Limb)
    requires Binary(lb) && p < lb
    ensures x * Pow2(p) == lo + B * hi && lo + Pow2(p) <= B && (p == 0 ==> hi == 0)
  {
    hide Pow2, Quo, Rem;
    PutParts(x, lb, p);
    BitInLimb(lb, p);
    if p == 0 {
      OneIsPow();
    }
    lo, hi := Rem(x, lb - p) * Pow2(p), Quo(x, lb - p);
  }

  /** Stores the two halves; the upper one only when the position is inside a limb. */
  method Store(tab: array<Limb>, len: nat, i: nat, p: nat, low: Limb, hi: Limb)
    requires i < len <= tab.Length && (p == 0 ==> hi == 0) && (i + 1 < len ==> tab[i + 1] == 0)
    modifies tab
    ensures OnlyRange(tab, 0, len)
    ensures tab[..len] == if i + 1 < len then old(tab[..len])[i := low][i + 1 := hi] else old(tab[..len])[i := low]
  {
    tab[i] := low;
    if p != 0 && i + 1 < len {
      tab[i + 1] := hi;
    }
  }

  /** put_bits: ors a limb into place, where there are only zeros; what does not fit is dropped. */
  method PutBits(tab: array<Limb>, len: nat, lb: nat, pos: nat, x: Limb)
    requires Binary(lb) && lb >= 1 && len <= tab.Length && Val(tab[..len]) < Pow2(pos)
    modifies tab
    ensures OnlyRange(tab, 0, len)
    ensures Val(tab[..len]) == Rem(old(Val(tab[..len])) + x * Pow2(pos), len * lb)
  {
    hide Val, Pow, Pow2, Quo, Rem;
    ghost var s := tab[..len];
    var i, p := SplitPos(pos, lb);
    if i >= len {
      MulMono(len, i, lb);
      BoundV(s, lb);
      DropHigh(Val(s), x, len * lb, pos);
    } else {
      ZeroAbove(s, lb, i, p);
      var lo, hi := Spread(x, lb, p);
      var low := tab[i] + lo;
      Store(tab, len, i, p, low, hi);
      PutValue(s, tab[..len], lb, i, p, x, low, lo, hi);
    }
  }

  lemma {:induction false} PutValue(s: seq<Limb>, t: seq<Limb>, lb: nat, i: nat, p: nat, x: nat, low: Limb, lo: nat, hi: Limb)
    requires Binary(lb) && i < |s| && Val(s) == Val(s[..i]) + Pow(i) * s[i] && Val(s[i + 1..]) == 0
    requires x * Pow2(p) == lo + B * hi && s[i] + lo == low
    requires t == if i + 1 < |s| then s[i := low][i + 1 := hi] else s[i := low]
    ensures Val(t) == Rem(Val(s) + x * Pow2(i * lb + p), |s| * lb)
  {
    hide Val, Pow, Pow2, Rem;
    PutShift(x, lb, i, p, lo, hi);
    if i + 1 < |s| {
      PutBoth(s, t, lb, i, low, lo, hi, x * Pow2(i * lb + p));
    } else {
      PutLow(s, t, lb, i, low, lo, hi, x * Pow2(i * lb + p));
    }
  }

  lemma {:induction false} DropHigh(v: nat, x: nat, k: nat, pos: nat)
    requires v < Pow2(k) && k <= pos
    ensures v == Rem(v + x * Pow2(pos), k)
  {
    hide Pow2, Rem;
    Pow2Add(pos - k, k);
    MulAssoc(x, Pow2(pos - k), Pow2(k));
    RemMultiple(v, x * Pow2(pos - k), k);
  }

  lemma {:induction false} PutShift(x: nat, lb: nat, i: nat, p: nat, lo: nat, hi: nat)
    requires Binary(lb) && x * Pow2(p) == lo + B * hi
    ensures x * Pow2(i * lb + p) == Pow(i) * lo + Pow(i + 1) * hi
  {
    hide Pow, Pow2;
    PowIsPow2(lb, i);
    Pow2Add(i * lb, p);
    PowStep(i);
    ShiftArith(x, Pow2(p), Pow(i), lo, hi, B);
  }

  lemma {:induction false} ShiftArith(x: nat, w: nat, p: nat, lo: nat, hi: nat, b: nat)
    requires x * w == lo + b * hi
    ensures x * (p * w) == p * lo + p * b * hi
  {
    assert x * (p * w) == p * (x * w) by { MulAssoc(x, p, w); MulAssoc(p, x, w); }
    MulDist(lo, b * hi, p);
    MulAssoc(p, b, hi);
  }

  lemma {:induction false} PutBoth(s: seq<Limb>, t: seq<Limb>, lb: nat, i: nat, low: Limb, lo: nat, hi: Limb, add: nat)
    requires Binary(lb) && i + 1 < |s| && Val(s) == Val(s[..i]) + Pow(i) * s[i] && Val(s[i + 1..]) == 0
    requires s[i] + lo == low && add == Pow(i) * lo + Pow(i + 1) * hi && t == s[i := low][i + 1 := hi]
    ensures Val(t) == Rem(Val(s) + add, |s| * lb)
  {
    hide Val, Pow, Pow2, Rem;
    UpperLimb(s, t, i, hi);
    assert t[..i] == s[..i];
    MulDist(s[i], lo, Pow(i));
    BoundV(t, lb);
    SplitSmall(Val(t), |s| * lb);
  }

  lemma {:induction false} PutLow(s: seq<Limb>, t: seq<Limb>, lb: nat, i: nat, low: Limb, lo: nat, hi: nat, add: nat)
    requires Binary(lb) && i + 1 == |s| && Val(s) == Val(s[..i]) + Pow(i) * s[i]
    requires s[i] + lo == low && add == Pow(i) * lo + Pow(i + 1) * hi && t == s[i := low]
    ensures Val(t) == Rem(Val(s) + add, |s| * lb)
  {
    hide Val, Pow, Pow2, Rem;
    assert t == s[..i] + [low];
    ValSnoc(s[..i], low);
    LowArith(Val(s[..i]), Pow(i), s[i], lo, low, hi, Pow(i + 1));
    BoundV(t, lb);
    PowIsPow2(lb, |s|);
    RemMultiple(Val(t), hi, |s| * lb);
  }

  lemma {:induction false} LowArith(v: nat, p: nat, x: nat, lo: nat, low: nat, hi: nat, w: nat)
    requires low == x + lo
    ensures v + low * p + hi * w == (v + p * x) + (p * lo + w * hi)
  {
    MulDist(x, lo, p);
  }

  lemma {:induction false} SplitSmall(x: nat, k: nat)
    requires x < Pow2(k)
    ensures Rem(x, k) == x
  {
    hide Pow2, Rem;
    SplitIs(x, k, 0, x);
  }

  lemma {:induction false} UpperLimb(s: seq<Limb>, t: seq<Limb>, i: nat, hi: Limb)
    requires i + 1 < |s| == |t| && t[i + 1] == hi && t[i + 2..] == s[i + 2..] && Val(s[i + 1..]) == 0
    ensures Val(t) == Val(t[..i]) + Pow(i) * t[i] + Pow(i + 1) * hi
  {
    hide Val, Pow;
    LimbAt(t, i);
    var u, v := s[i + 1..], t[i + 1..];
    assert u == [s[i + 1]] + s[i + 2..] && v == [hi] + s[i + 2..];
    ValCons(s[i + 1], s[i + 2..]);
    ValCons(hi, s[i + 2..]);
    PowStep(i);
    MulDist(t[i], B * hi, Pow(i));
    MulAssoc(Pow(i), B, hi);
  }

  lemma {:induction false} RemAdd(y: nat, z: nat, k: nat)
    ensures Rem(Rem(y, k) + z, k) == Rem(y + z, k)
  {
    hide Pow2, Quo, Rem;
    SplitAt(y, k);
    SplitAt(Rem(y, k) + z, k);
    var q, r := Quo(Rem(y, k) + z, k), Rem(Rem(y, k) + z, k);
    MulDist(Quo(y, k), q, Pow2(k));
    SplitIs(y + z, k, Quo(y, k) + q, r);
  }

  /** The first len limbs hold the low bits of out, which ends below pos. */
  ghost predicate Holds(s: seq<Limb>, lb: nat, out: nat, pos: nat) {
    out < Pow2(pos) && Val(s) == Rem(out, |s| * lb)
  }

  /** Appends some bits to what is there. */
  method PutNext(tab: array<Limb>, len: nat, lb: nat, pos: nat, x: Limb, ghost bits: nat, ghost out: nat)
    requires Binary(lb) && lb >= 1 && len <= tab.Length && x < Pow2(bits) && Holds(tab[..len], lb, out, pos)
    modifies tab
    ensures OnlyRange(tab, 0, len) && Holds(tab[..len], lb, out + x * Pow2(pos), pos + bits)
  {
    hide Val, Pow, Pow2, Rem, Holds;
    NextOk(tab[..len], lb, pos, x, bits, out);
    PutBits(tab, len, lb, pos, x);
    NextHolds(tab[..len], lb, pos + bits, out, x * Pow2(pos));
  }

  lemma {:induction false} NextOk(s: seq<Limb>, lb: nat, pos: nat, x: nat, bits: nat, out: nat)
    requires x < Pow2(bits) && Holds(s, lb, out, pos)
    ensures Val(s) < Pow2(pos) && Val(s) == Rem(out, |s| * lb) && out + x * Pow2(pos) < Pow2(pos + bits)
  {
    hide Val, Pow2, Rem;
    SplitAt(out, |s| * lb);
    Pow2Add(bits, pos);
    MulMono(x + 1, Pow2(bits), Pow2(pos));
    MulDist(x, 1, Pow2(pos));
  }

  lemma {:induction false} NextHolds(s: seq<Limb>, lb: nat, pos: nat, out: nat, z: nat)
    requires out + z < Pow2(pos) && Val(s) == Rem(Rem(out, |s| * lb) + z, |s| * lb)
    ensures Holds(s, lb, out + z, pos)
  {
    hide Val, Pow2, Rem;
    RemAdd(out, z, |s| * lb);
  }

  /** Writes the low dpl == n1 * lb + p + 1 bits of u at pos. */
  method WriteDigit(tab: array<Limb>, len: nat, lb: nat, pos: nat, u: array<Limb>, n1: nat, p: nat, ghost out: nat)
    requires Binary(lb) && lb >= 1 && len <= tab.Length && u != tab && n1 < u.Length && p < lb && Holds(tab[..len], lb, out, pos)
    modifies tab
    ensures OnlyRange(tab, 0, len)
    ensures Holds(tab[..len], lb, out + Rem(Val(u[..]), n1 * lb + p + 1) * Pow2(pos), pos + (n1 * lb + p + 1))
  {
    hide Val, Pow, Pow2, Rem, Holds;
    ghost var done := out;
    NoneDone(u[..0], out, pos);
    for j := 0 to n1
      invariant OnlyRange(tab, 0, len) && done == out + Val(u[..j]) * Pow2(pos) && Holds(tab[..len], lb, done, pos + j * lb)
    {
      PutNext(tab, len, lb, pos + j * lb, u[j], lb, done);
      DigitStep(u[..j], u[j], lb, pos, out);
      assert u[..j + 1] == u[..j] + [u[j]];
      MulDist(j, 1, lb);
      done := done + u[j] * Pow2(pos + j * lb);
    }
    SplitAt(u[n1], p + 1);
    LowSmall(u[n1], p + 1);
    PutNext(tab, len, lb, pos + n1 * lb, Rem(u[n1], p + 1), p + 1, done);
    LastStep(u[..], lb, n1, p, pos, out);
    assert u[..][..n1] == u[..n1];
  }

  lemma {:induction false} LowSmall(x: Limb, k: nat)
    ensures Rem(x, k) < B
  {
    hide Pow2, Rem, Quo;
    SplitAt(x, k);
    MulMono(0, Quo(x, k), Pow2(k));
  }

  lemma {:induction false} NoneDone(s: seq<Limb>, out: nat, pos: nat)
    requires s == []
    ensures Val(s) == 0 && out == out + Val(s) * Pow2(pos)
  {
  }

  lemma {:induction false} DigitStep(s: seq<Limb>, x: Limb, lb: nat, pos: nat, out: nat)
    requires Binary(lb)
    ensures out + Val(s + [x]) * Pow2(pos) == out + Val(s) * Pow2(pos) + x * Pow2(pos + |s| * lb)
  {
    hide Val, Pow, Pow2;
    ValSnoc(s, x);
    PowIsPow2(lb, |s|);
    Pow2Add(|s| * lb, pos);
    MulDist(Val(s), x * Pow(|s|), Pow2(pos));
    MulAssoc(x, Pow(|s|), Pow2(pos));
  }

  lemma {:induction false} LastStep(s: seq<Limb>, lb: nat, n1: nat, p: nat, pos: nat, out: nat)
    requires Binary(lb) && n1 < |s| && p < lb
    ensures out + Rem(Val(s), n1 * lb + p + 1) * Pow2(pos) == out + Val(s[..n1]) * Pow2(pos) + Rem(s[n1], p + 1) * Pow2(pos + n1 * lb)
  {
    hide Val, Pow, Pow2, Rem;
    ScanCut(s, lb, n1, p);
    LowSmall(s[n1], p + 1);
    DigitStep(s[..n1], Rem(s[n1], p + 1), lb, pos, out);
    ValSnoc(s[..n1], Rem(s[n1], p + 1));
  }

  /** One coefficient, from its residues: x plus the carry of the coefficients below. */
  method Coefficient(y: array<nat>, u: array<Limb>, carry: array<Limb>, m: seq<nat>, cr: seq<nat>, ghost x: nat)
    requires |m| >= 2 && y.Length == u.Length == carry.Length == |m| && u != carry && ModsOk(m) && InversesOk(cr, m) && FitLimbs(m)
    requires x < Prod(m) && x + Val(carry[..]) < Pow(|m|) && forall i :: 0 <= i < |m| ==> y[i] == Mod(x, m[i])
    modifies y, u
    ensures Val(u[..]) == x + Val(carry[..])
  {
    hide Val, Pow, Mod, Prod, InversesOk, Mixed, MixedDigits;
    MixedRadix(y, m, cr, x);
    MixedRoundTrip(x, m);
    SmallDigits(x, m);
    ghost var h := Mixed(y[1..], m[1..]);
    MixedFrom(y[..], m, 0);
    assert y[..][0..] == y[..] && m[0..] == m && y[..][1..] == y[1..];
    Horner(u, y[..], m);
    AddLast(u, carry, |m|, m[0], y[0], h);
  }

  lemma {:induction false} SmallDigits(x: nat, m: seq<nat>)
    requires ModsOk(m) && FitLimbs(m)
    ensures FitLimbs(MixedDigits(x, m))
  {
    hide Mod, Rest, MixedDigits;
    forall i | 0 <= i < |m|
      ensures MixedDigits(x, m)[i] < B
    {
      DigitAt(x, m, i);
    }
  }
}
