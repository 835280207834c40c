/** Rounding in place: the steps of __bf_round and bf_normalize_and_round. */
module FloatRounding {
  import opened Arith
  import opened Limbs
  import opened LimbOps
  import opened RoundSpec
  import opened LimbBits
  import opened Rounding
  import opened BigFloats
  import opened FloatFormat

  /** No bit of the number is kept: the result is one unit or zero. */
  method RoundTiny(r: BigFloat, lb: nat, prec: int, up: bool)
    requires Binary(lb) && lb >= 1 && r.Valid() && 1 <= r.len
    modifies r`expn, r`len, r`neg, r.tab
    ensures r.Valid() && r.neg == old(r.neg)
    ensures !up ==> r.IsZero(r.neg)
    ensures up ==> r.len == 1 && r.Mant() == Pow2(lb - 1) && r.expn == old(r.expn) + 1 - prec
  {
    hide Val, Pow, Pow2;
    if up {
      LimbHalf(lb);
      r.tab[0] := Pow2(lb - 1);
      r.len := 1;
      assert r.tab[..1] == [r.tab[0]];
      OneLimb(r.tab[0]);
      r.expn := r.expn + 1 - prec;
    } else {
      r.SetZero(r.neg);
    }
  }

  /** The range checks, and the removal of the bits that were rounded away. */
  method Finish(r: BigFloat, lb: nat, prec1: nat, flags: Flags, l: nat, k: int, ret0: Status) returns (ret: Status)
    requires Binary(lb) && lb >= 1 && r.Valid() && 1 <= l <= r.len && flags.expBits >= 1 && prec1 >= 1
    requires l * lb >= 1 && k < l * lb && Cleared(Val(r.tab[..l]), k) >= Pow2(l * lb - 1)
    modifies r, r.tab
    ensures r.Valid() && r.neg == old(r.neg) && (r.tab == old(r.tab) || fresh(r.tab))
    ensures Landed(Cleared(old(Val(r.tab[..l])), k), old(r.expn), l, lb, r.neg, prec1, flags, ret0, r, ret)
  {
    hide Val, Pow, Pow2, Cleared, EMin, EMax;
    ret := ret0;
    if r.expn < EMin(flags) {
      if flags.subnormal {
        ret := ret.(underflow := ret.underflow || ret.inexact);
      } else {
        ret := ret.(underflow := true, inexact := true);
        r.SetZero(r.neg);
        return;
      }
    }
    if r.expn > EMax(flags) {
      ret := SetOverflow(r, lb, prec1, flags);
      return;
    }
    r.len := Trim(r.tab, l, lb, k);
    StillNormal(r.tab[..r.len], l, lb);
  }

  /** Adds the unit if `up`, and finishes. */
  method RoundKept(r: BigFloat, lb: nat, prec1: nat, flags: Flags, l: nat, prec: int, up: bool, ret0: Status) returns (ret: Status)
    requires Binary(lb) && lb >= 1 && r.Valid() && 1 <= l <= r.len && flags.expBits >= 1 && prec1 >= 1 && prec > 0
    requires l * lb >= 1 && Val(r.tab[..l]) >= Pow2(l * lb - 1)
    requires var v, k := Val(r.tab[..l]), l * lb - prec; up == (k >= 1 && Up(flags.mode, r.neg, Quo(v, k), Rem(v, k), Pow2(k)))
    modifies r, r.tab
    ensures r.Valid() && r.neg == old(r.neg) && (r.tab == old(r.tab) || fresh(r.tab))
    ensures var n, e := l * lb, old(r.expn);
            var y := RoundedAt(flags.mode, r.neg, old(Val(r.tab[..l])), n - prec);
            Landed(if y == Pow2(n) then Pow2(n - 1) else y, if y == Pow2(n) then e + 1 else e, l, lb, r.neg, prec1, flags, ret0, r, ret)
  {
    hide Val, Pow, Pow2, Up, Quo, Rem, Cleared, RoundedAt, Prepared, Largest, EMin, EMax;
    var n := l * lb;
    ghost var v := Val(r.tab[..l]);
    BoundV(r.tab[..l], lb);
    var carry := false;
    if up {
      carry := AddUnit(r.tab, l, lb, n - prec);
      PreparedUp(flags.mode, r.neg, v, n, n - prec, Val(r.tab[..l]), carry);
      if carry {
        r.expn := r.expn + 1;
      }
    } else {
      PreparedSame(flags.mode, r.neg, v, n, n - prec);
    }
    PreparedIs(flags.mode, r.neg, v, n, n - prec, Val(r.tab[..l]), carry);
    ret := Finish(r, lb, prec1, flags, l, n - prec, ret0);
  }

  /** __bf_round: rounds the normalized number in the first l limbs. */
  method Round(r: BigFloat, lb: nat, prec1: nat, flags: Flags, l: nat, ret0: Status) returns (ret: Status)
    requires Binary(lb) && lb >= 1 && r.Valid() && 1 <= l <= r.len && flags.expBits >= 1 && prec1 >= 1
    requires l * lb >= 1 && Val(r.tab[..l]) >= Pow2(l * lb - 1)
    modifies r, r.tab
    ensures r.Valid() && r.neg == old(r.neg) && (r.tab == old(r.tab) || fresh(r.tab))
    ensures Outcome(old(Val(r.tab[..l])), l, lb, old(r.expn), r.neg, prec1, flags, ret0, r, ret)
    ensures Delivered(old(Float(Val(r.tab[..l]), r.expn - l * lb)), old(r.expn), r.neg, prec1, flags, lb, ret0, r, ret)
  {
    hide Val, Pow, Pow2, Float, Up, Quo, Rem, Cleared, RoundedAt, Prepared, Largest, EMin, EMax, Precision, Delivered;
    var n, prec := l * lb, Precision(flags, prec1, r.expn);
    ghost var v := Val(r.tab[..l]);
    BoundV(r.tab[..l], lb);
    var up, inexact := GetRndAdd(r.tab, l, lb, prec, flags.mode, r.neg);
    ChangesIff(flags.mode, r.neg, v, n - prec);
    ret := ret0.(inexact := ret0.inexact || inexact);
    if prec <= 0 {
      NoBitsKept(flags.mode, r.neg, v, n, n - prec);
      RoundTiny(r, lb, prec, up);
      ret := ret.(underflow := true, inexact := true);
      OutcomeDelivers(v, l, lb, old(r.expn), r.neg, prec1, flags, ret0, r, ret);
      return;
    }
    ret := RoundKept(r, lb, prec1, flags, l, prec, up, ret);
    OutcomeDelivers(v, l, lb, old(r.expn), r.neg, prec1, flags, ret0, r, ret);
  }

  /**
  bf_normalize_and_round. The number is shifted by `shift` bits to a number of l limbs whose top
  bit is set, and that one is rounded.
  */
  method NormalizeAndRound(r: BigFloat, lb: nat, prec1: nat, flags: Flags) returns (ret: Status, ghost l: nat, ghost shift: nat)
    requires Binary(lb) && lb >= 1 && r.Valid() && flags.expBits >= 1 && prec1 >= 1
    modifies r, r.tab
    ensures r.Valid() && r.neg == old(r.neg) && (r.tab == old(r.tab) || fresh(r.tab))
    ensures old(r.Mant()) == 0 ==> r.IsZero(r.neg) && ret == OK
    ensures old(r.Mant()) > 0 ==>
              1 <= l <= old(r.len) && l * lb >= 1 &&
              var v, e := old(r.Mant()) * Pow2(shift), old(r.expn) - (old(r.len) - l) * lb - shift;
              Pow2(l * lb - 1) <= v < Pow2(l * lb) && Outcome(v, l, lb, e, r.neg, prec1, flags, OK, r, ret) &&
              Delivered(old(r.Magnitude(lb)), e, r.neg, prec1, flags, lb, OK, r, ret)
  {
    hide Val, Pow, Pow2, Float, Outcome, Delivered;
    ghost var m, g := r.Mant(), r.expn - r.len * lb;
    shift := 0;
    var top := TopLimb(r.tab, r.len);
    l := top;
    if top == 0 {
      assert r.tab[..0] == [];
      ValZeros(r.tab[..0]);
      r.expn := EXP_ZERO;
      r.len := 0;
      return OK, 0, 0;
    }
    r.expn := r.expn - (r.len - top) * lb;
    var n := Clz(r.tab[top - 1], lb);
    shift := n;
    ghost var s := r.tab[..top];
    assert s[top - 1] == r.tab[top - 1];
    TopShifted(s, lb, n);
    if n != 0 {
      ShiftLeft(r.tab, top, lb, n);
      r.expn := r.expn - n;
    } else {
      NoShift(Val(s));
    }
    NonZeroLimb(s, top - 1);
    FloatShift(m, g - n, n);
    MulDist(r.len, top, lb);
    ret := Round(r, lb, prec1, flags, top, OK);
  }
}
