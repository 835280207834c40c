/** Rounding of binary floating-point numbers held as limb vectors. */
module Rounding {
  import opened Arith
  import opened Limbs
  import opened LimbOps
  import opened RoundSpec
  import opened LimbBits

  /** The remainder below bit k, by its top bit and the rest. */
  lemma {:induction false} RemainderBits(v: nat, k: nat)
    requires k >= 1
    ensures Rem(v, k) == BitOf(v, k - 1) * Pow2(k - 1) + Rem(v, k - 1) && Rem(v, k - 1) < Pow2(k - 1) && Pow2(k) == 2 * Pow2(k - 1)
  {
    var h := Pow2(k - 1);
    assert Pow2(k) == 2 * h;
    hide Pow2, Quo, Rem;
    var q, low := Quo(v, k - 1), Rem(v, k - 1);
    SplitAt(v, k - 1);
    var c, b := q / 2, q % 2;
    BitArith(c, b, h);
    SplitIs(v, k, c, b * h + low);
  }

  lemma {:induction false} BitArith(c: nat, b: nat, h: nat)
    requires b <= 1
    ensures (2 * c + b) * h == c * (2 * h) + b * h && b * h <= h
  {
  }

  /** How the rounding bit and the sticky bit decide. */
  lemma {:induction false} UpByBits(mode: Mode, neg: bool, q: nat, h: nat, bit1: nat, low: nat)
    requires bit1 <= 1 && low < h
    ensures Up(mode, neg, q, bit1 * h + low, 2 * h) ==
            match mode
            case RNDZ => false
            case RNDN => bit1 == 1 && (low != 0 || q % 2 == 1)
            case RNDD => neg && (bit1 == 1 || low != 0)
            case RNDU => !neg && (bit1 == 1 || low != 0)
            case RNDA => bit1 == 1 || low != 0
            case RNDNA => bit1 == 1
    ensures bit1 * h + low != 0 <==> bit1 == 1 || low != 0
  {
  }

  /** bf_get_rnd_add: whether to add one unit, and whether anything is lost. */
  method GetRndAdd(tab: array<Limb>, l: nat, lb: nat, prec: int, mode: Mode, neg: bool) returns (up: bool, inexact: bool)
    requires Binary(lb) && lb >= 1 && l <= tab.Length
    ensures var v, k := Val(tab[..l]), l * lb - prec;
            if k <= 0 then !up && !inexact
            else inexact == (Rem(v, k) != 0) && up == Up(mode, neg, Quo(v, k), Rem(v, k), Pow2(k))
  {
    hide Val, Pow, Pow2, Up, Quo, Rem;
    var n := l * lb;
    ghost var v, k := Val(tab[..l]), n - prec;
    var bit0 := ScanBitNz(tab, l, lb, n - 1 - if prec + 1 > 0 then prec + 1 else 0);
    var bit1 := GetBit(tab, l, lb, n - 1 - prec);
    inexact := bit1 == 1 || bit0;
    if k >= 1 {
      RemainderBits(v, k);
      ScanMeans(tab[..l], lb, prec);
      UpByBits(mode, neg, Quo(v, k), Pow2(k - 1), bit1, Rem(v, k - 1));
    }
    up := false;
    match mode {
      case RNDZ =>
      case RNDN =>
        if bit1 == 1 {
          if bit0 {
            up := true;
          } else {
            var even := GetBit(tab, l, lb, n - 1 - (prec - 1));
            up := even == 1;
          }
        }
      case RNDD => up := neg && inexact;
      case RNDU => up := !neg && inexact;
      case RNDA => up := inexact;
      case RNDNA => up := bit1 == 1;
    }
  }

  /** The bits scanned for the sticky bit are those below the rounding bit. */
  lemma {:induction false} ScanMeans(s: seq<Limb>, lb: nat, prec: int)
    requires Binary(lb) && |s| * lb - prec >= 1
    ensures var n, v, k := |s| * lb, Val(s), |s| * lb - prec;
            if prec >= -1 then (k >= 2 || Rem(v, k - 1) == 0)
            else Rem(v, n) == Rem(v, k - 1) && (n == 0 ==> Rem(v, k - 1) == 0)
  {
    var n, v, k := |s| * lb, Val(s), |s| * lb - prec;
    hide Val, Pow;
    ValBound(s);
    PowIsPow2(lb, |s|);
    if prec < -1 {
      Pow2Mono(n, k - 1);
      SplitIs(v, n, 0, v);
      SplitIs(v, k - 1, 0, v);
    }
  }

  /** Adds 2^k to the number in tab[0..l). On a carry out the upper limbs are shifted right by one bit. */
  method AddUnit(tab: array<Limb>, l: nat, lb: nat, k: nat) returns (carry: bool)
    requires Binary(lb) && lb >= 1 && l <= tab.Length && k < l * lb
    modifies tab
    ensures OnlyRange(tab, 0, l)
    ensures carry == (old(Val(tab[..l])) + Pow2(k) >= Pow2(l * lb))
    ensures !carry ==> Val(tab[..l]) == old(Val(tab[..l])) + Pow2(k)
    ensures carry ==> Pow2(l * lb - 1) <= Val(tab[..l]) < Pow2(l * lb - 1) + Pow2(k)
  {
    hide Val, Pow, Pow2;
    var i, p := SplitPos(k, lb);
    assert i < l by {
      if l <= i {
        MulMono(l, i, lb);
      }
    }
    ghost var s, low := tab[..l], tab[..i];
    ValBound(s);
    BitInLimb(lb, p);
    assert s[i..] == tab[i..i + (l - i)] && s[..i] == low;
    ValSplit(s, i);
    var c := MpAddUi(tab, i, Pow2(p), l - i);
    Kept(tab, i, l - i, low, 0);
    ghost var h := Val(tab[i..i + (l - i)]);
    UnitArith(Val(low), Pow(i), Val(s[i..]), h, c, Pow(l - i), Pow2(p));
    UnitAt(lb, l, i, p);
    assert tab[..l] == low + tab[i..i + (l - i)];
    ValConcat(low, tab[i..i + (l - i)]);
    ValBound(tab[..l]);
    carry := c == 1;
    if carry {
      ShiftInOne(tab, l, lb, i, Pow2(k));
    }
  }

  lemma {:induction false} UnitAt(lb: nat, l: nat, i: nat, p: nat)
    requires Binary(lb) && i <= l
    ensures Pow(i) * Pow2(p) == Pow2(i * lb + p) && Pow(i) * Pow(l - i) == Pow(l) == Pow2(l * lb)
  {
    PowAdd(i, l - i);
    PowIsPow2(lb, i);
    PowIsPow2(lb, l);
    Pow2Add(i * lb, p);
  }

  /** Shifts tab[i..l) right by one bit, with a one coming in at the top. */
  method ShiftInOne(tab: array<Limb>, l: nat, lb: nat, i: nat, ghost unit: nat)
    requires Binary(lb) && lb >= 1 && i < l <= tab.Length && Val(tab[..l]) < unit
    modifies tab
    ensures OnlyRange(tab, 0, l)
    ensures Pow2(l * lb - 1) <= Val(tab[..l]) < Pow2(l * lb - 1) + unit
  {
    hide Val, Pow, Pow2, Shifted;
    ghost var low, hi := tab[..i], tab[i..i + (l - i)];
    assert tab[..l] == low + hi;
    ValConcat(low, hi);
    ValBound(low);
    HalfRadix(lb);
    var rem := MpShr(tab, i, tab, i, l - i, 2, B / 2, 1);
    Kept(tab, i, l - i, low, 0);
    ghost var hi' := tab[i..i + (l - i)];
    ShiftedIs(hi', rem, hi);
    assert tab[..l] == low + hi';
    ValConcat(low, hi');
    HalfPow(lb, l);
    HalfPow(lb, l - i);
    PowAdd(i, l - i);
    CarryShift(Val(low), Pow(i), Val(hi), Val(hi'), rem, Pow(l - i), Pow2((l - i) * lb - 1), unit, Pow2(l * lb - 1));
  }

  lemma {:induction false} ShiftedIs(q: seq<Limb>, r: nat, t: seq<Limb>)
    requires Shifted(q, r, t, 2, 1)
    ensures 2 * Val(q) + r == Val(t) + Pow(|t|)
  {
  }

  lemma {:induction false} UnitArith(lo: nat, c: nat, h: nat, h': nat, k: nat, t: nat, u: nat)
    requires h' + k * t == h + u
    ensures lo + c * h' + k * (c * t) == lo + c * h + c * u
  {
    assert c * (h' + k * t) == c * (h + u);
    MulDist(h', k * t, c);
    MulDist(h, u, c);
    MulAssoc(k, t, c);
  }

  lemma {:induction false} HalfRadix(lb: nat)
    requires Binary(lb) && lb >= 1
    ensures B == 2 * (B / 2)
  {
  }

  lemma {:induction false} HalfPow(lb: nat, l: nat)
    requires Binary(lb) && lb >= 1 && l >= 1
    ensures l * lb >= 1 && Pow(l) == 2 * Pow2(l * lb - 1)
  {
    PowIsPow2(lb, l);
    MulMono(1, l, lb);
  }

  /** After the shift only the top bit is left above the unit. */
  lemma {:induction false} CarryShift(lo: nat, c: nat, h: nat, h': nat, rem: nat, t: nat, t2: nat, unit: nat, top: nat)
    requires 2 * h' + rem == h + t && rem < 2 && lo < c && c * t == 2 * top && t == 2 * t2 && lo + c * h < unit
    ensures top <= lo + c * h' < top + unit
  {
    assert c * (2 * h') + c * rem == c * h + c * t by {
      MulDist(2 * h', rem, c);
      MulDist(h, t, c);
    }
    assert c * (2 * h') == 2 * (c * h') by { MulAssoc(c, h', 2); }
    if h == 0 {
      assert rem == 0;
    } else {
      MulMono(1, h, c);
    }
  }

  /** v with the bits below k cleared. */
  ghost function Cleared(v: nat, k: int): nat {
    if k <= 0 then v else Quo(v, k) * Pow2(k)
  }

  /** Clears the bits below k and drops the zero limbs at the bottom; returns the new length. */
  method Trim(tab: array<Limb>, l: nat, lb: nat, k: int) returns (len: nat)
    requires Binary(lb) && lb >= 1 && 1 <= l <= tab.Length && k < l * lb && Cleared(Val(tab[..l]), k) > 0
    modifies tab
    ensures OnlyRange(tab, 0, l) && 1 <= len <= l && tab[0] != 0
    ensures Val(tab[..len]) * Pow(l - len) == Cleared(old(Val(tab[..l])), k)
  {
    hide Val, Pow, Pow2, Cleared;
    var i := ClearBelow(tab, l, lb, k);
    i := SkipZeros(tab, l, i);
    ghost var s := tab[i..l];
    assert s[0] == tab[i];
    len := l - i;
    MoveDown(tab, i, l);
    assert tab[0] == tab[..len][0];
    assert l - len == i;
  }

  /** The first non-zero limb from i on. */
  method SkipZeros(tab: array<Limb>, l: nat, i0: nat) returns (i: nat)
    requires i0 < l <= tab.Length && Val(tab[i0..l]) * Pow(i0) > 0
    ensures i < l && tab[i] != 0 && Val(tab[i..l]) * Pow(i) == Val(tab[i0..l]) * Pow(i0)
  {
    hide Val, Pow;
    i := i0;
    while tab[i] == 0
      invariant i < l && Val(tab[i..l]) * Pow(i) == Val(tab[i0..l]) * Pow(i0)
      decreases l - i
    {
      SliceCons(tab, i, l);
      ValCons(tab[i], tab[i + 1..l]);
      DropZero(Val(tab[i + 1..l]), i);
      if i + 1 == l {
        ValZeros(tab[l..l]);
        assert false;
      }
      i := i + 1;
    }
  }

  lemma {:induction false} DropZero(h: nat, i: nat)
    ensures B * h * Pow(i) == h * Pow(i + 1)
  {
    MulAssoc(h, B, Pow(i));
  }

  /** memmove(tab, tab + i, l - i) */
  method MoveDown(tab: array<Limb>, i: nat, l: nat)
    requires i <= l <= tab.Length
    modifies tab
    ensures OnlyRange(tab, 0, l) && tab[..l - i] == old(tab[i..l])
  {
    ghost var s := tab[i..l];
    var j := 0;
    while j < l - i
      invariant 0 <= j <= l - i && OnlyRange(tab, 0, l) && tab[..j] == s[..j]
      invariant forall m :: i + j <= m < l ==> tab[m] == s[m - i]
    {
      tab[j] := tab[j + i];
      assert tab[..j + 1] == tab[..j] + [s[j]];
      j := j + 1;
    }
    assert s[..l - i] == s;
  }

  /** Clears the bits below k in the limb that holds bit k; returns its index. */
  method ClearBelow(tab: array<Limb>, l: nat, lb: nat, k: int) returns (i: nat)
    requires Binary(lb) && lb >= 1 && 1 <= l <= tab.Length && k < l * lb
    modifies tab
    ensures OnlyRange(tab, 0, l) && i < l
    ensures Val(tab[i..l]) * Pow(i) == Cleared(old(Val(tab[..l])), k)
  {
    hide Val, Pow, Pow2, Quo, Rem;
    if k <= 0 {
      i := 0;
      PowZero();
      assert tab[0..l] == tab[..l];
      return;
    }
    var p;
    i, p := SplitPos(k, lb);
    assert i < l by {
      if l <= i {
        MulMono(l, i, lb);
      }
    }
    ghost var s := tab[..l];
    ghost var hi := tab[i + 1..l];
    assert s[i + 1..] == hi && s[i] == tab[i];
    CutAt(s, lb, i, p);
    SplitAt(s[i], p);
    RemZero(s[i]);
    if p != 0 {
      tab[i] := tab[i] - Rem(tab[i], p);
    }
    SliceCons(tab, i, l);
    assert tab[i + 1..l] == hi;
    ValCons(tab[i], hi);
    BitInLimb(lb, p);
    UnitAt(lb, l, i, p);
    ClearArith(Quo(s[i], p), Pow2(p), Pow2(lb - p), Val(hi), Pow(i));
  }

  lemma {:induction false} RemZero(x: nat)
    ensures Rem(x, 0) == 0
  {
  }

  lemma {:induction false} PowZero()
    ensures Pow(0) == 1
  {
  }

  lemma {:induction false} ClearArith(q: nat, w: nat, v: nat, h: nat, c: nat)
    ensures (q * w + v * w * h) * c == (q + v * h) * (c * w)
  {
    assert v * w * h == v * h * w by { MulAssoc(v, w, h); MulAssoc(v, h, w); }
    MulDist(q, v * h, w);
    MulAssoc(q + v * h, w, c);
  }
}
