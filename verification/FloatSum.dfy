/** The limbs of a sum or difference: the top ones exactly, the rest as one sticky bit. */
module FloatSum {
  import opened Arith
  import opened Limbs
  import opened LimbOps
  import opened RoundSpec
  import opened LimbBits
  import opened Rounding
  import opened BigFloats
  import opened FloatAddition

  /** v2 ^ sub_mask */
  function FlipLimb(x: Limb, sub: bool): Limb {
    if sub then B - 1 - x else x
  }

  ghost function Flip(y: seq<Limb>, sub: bool): (z: seq<Limb>)
    ensures |z| == |y| && forall j :: 0 <= j < |y| ==> z[j] == FlipLimb(y[j], sub)
  {
    seq(|y|, j requires 0 <= j < |y| => FlipLimb(y[j], sub))
  }

  lemma {:induction false} FlipValue(y: seq<Limb>)
    ensures Val(Flip(y, true)) == Pow(|y|) - 1 - Val(y)
    ensures Val(Flip(y, false)) == Val(y)
  {
    hide Val, Pow;
    assert Flip(y, false) == y;
    if |y| == 0 {
      PowZero();
      ValZeros(y);
      ValZeros(Flip(y, true));
    } else {
      var n := |y| - 1;
      FlipValue(y[..n]);
      assert y == y[..n] + [y[n]] && Flip(y, true) == Flip(y[..n], true) + [B - 1 - y[n]];
      ValSnoc(y[..n], y[n]);
      ValSnoc(Flip(y[..n], true), B - 1 - y[n]);
      PowStep(n);
      MulDist(B - 1, y[n], Pow(n));
      MulDist(B, 1, Pow(n));
    }
  }

  /** One limb of the sum, with wrap-around and carry. */
  method AddStep(v1: Limb, v2: Limb, sub: bool, carry: Limb) returns (u: Limb, carry': Limb)
    requires carry <= 1
    ensures carry' <= 1 && u + carry' * B == v1 + FlipLimb(v2, sub) + carry
  {
    u := AddWrap(v1, FlipLimb(v2, sub));
    var carry1 := u < v1;
    u := AddWrap(u, carry);
    carry' := if u < carry || carry1 then 1 else 0;
  }

  /** The limbs `low` are the lowest ones of the sum so far. */
  ghost predicate Summed(low: seq<Limb>, carry: int, x: seq<Limb>, y: seq<Limb>, sub: bool)
    requires |low| <= |x| == |y|
  {
    Carried(low, carry, x, Flip(y, sub), 1, if sub then 1 else 0)
  }

  lemma {:induction false} SummedStart(x: seq<Limb>, y: seq<Limb>, sub: bool)
    requires |x| == |y|
    ensures Summed([], if sub then 1 else 0, x, y, sub)
  {
    hide Carried;
    CarryStart(x, Flip(y, sub), 1, if sub then 1 else 0);
  }

  lemma {:induction false} SummedStep(low: seq<Limb>, u: Limb, carry: int, carry': int, x: seq<Limb>, y: seq<Limb>, sub: bool)
    requires |low| < |x| == |y| && Summed(low, carry, x, y, sub)
    requires u + carry' * B == x[|low|] + FlipLimb(y[|low|], sub) + carry
    ensures Summed(low + [u], carry', x, y, sub)
  {
    hide Carried;
    CarryStep(low, u, carry, carry', x, Flip(y, sub), 1, if sub then 1 else 0);
  }

  /** The limb that repeats over zeros of both operands. */
  ghost function Filler(carry: int, sub: bool): Limb {
    if sub && carry == 0 then B - 1 else 0
  }

  ghost function Fill(n: nat, f: Limb): (s: seq<Limb>)
    ensures |s| == n
  {
    if n == 0 then [] else Fill(n - 1, f) + [f]
  }

  /** Zero limbs of both operands leave the carry as it is. */
  lemma {:induction false} SkipOver(low: seq<Limb>, carry: int, x: seq<Limb>, y: seq<Limb>, sub: bool, n: nat)
    requires |low| + n <= |x| == |y| && Summed(low, carry, x, y, sub) && 0 <= carry <= 1 && (sub || carry == 0)
    requires forall j :: |low| <= j < |low| + n ==> x[j] == 0 && y[j] == 0
    ensures Summed(low + Fill(n, Filler(carry, sub)), carry, x, y, sub)
    decreases n
  {
    hide Summed;
    var f := Filler(carry, sub);
    if n == 0 {
      assert low + Fill(0, f) == low;
    } else {
      SkipOver(low, carry, x, y, sub, n - 1);
      var more := low + Fill(n - 1, f);
      SummedStep(more, f, carry, carry, x, y, sub);
      assert more + [f] == low + Fill(n, f);
    }
  }

  /** The skipped limbs do not change whether the low part is zero. */
  lemma {:induction false} FillKeeps(low: seq<Limb>, n: nat, f: Limb)
    requires f != 0 ==> Val(low) != 0
    ensures Val(low + Fill(n, f)) != 0 <==> Val(low) != 0
  {
    hide Val, Pow;
    ValConcat(low, Fill(n, f));
    if f == 0 {
      FillZero(n);
    }
  }

  lemma {:induction false} FillZero(n: nat)
    ensures Val(Fill(n, 0)) == 0
  {
    hide Val, Pow;
    if n == 0 {
      ValZeros(Fill(0, 0));
    } else {
      FillZero(n - 1);
      ValSnoc(Fill(n - 1, 0), 0);
    }
  }

  /** One more limb: the low part is non-zero if it was or the limb is. */
  lemma {:induction false} SnocNonZero(low: seq<Limb>, u: Limb)
    ensures Val(low + [u]) != 0 <==> Val(low) != 0 || u != 0
  {
    hide Val, Pow;
    ValSnoc(low, u);
    if u != 0 {
      MulNonZero(u, Pow(|low|));
    }
  }

  function Min(x: int, y: int): int {
    if x <= y then x else y
  }

  /** Outside a, and outside b. */
  predicate OutsideA(ap: int, len: nat) { ap < 0 || ap >= len }
  predicate OutsideB(bp: int, len: nat, lb: nat) { bp + lb <= 0 || bp >= len * lb }

  predicate Outside(aOff: int, bOff: int, lb: nat, lenA: nat, lenB: nat, i: int) {
    OutsideA(aOff + i, lenA) && OutsideB(bOff + i * lb, lenB, lb)
  }

  /** Limbs of the window outside both numbers are zero. */
  lemma {:induction false} OutsideZero(a: BigFloat, b: BigFloat, lb: nat, t: nat, d: nat, j: nat)
    requires Binary(lb) && lb >= 1 && Window(a, b, lb, t, d) && j < t
    ensures OutsideA(a.len - t + j, a.len) ==> Wide(a, t)[j] == 0
    ensures OutsideB((b.len - t + j) * lb + d, b.len, lb) ==> Narrow(b, lb, t, d)[j] == 0
  {
    hide Val, Pow, Pow2, Quo, Rem, BitsAt;
    var s, bp := b.tab[..b.len], (b.len - t + j) * lb + d;
    LoweredAt(s, lb, t, d, j);
    assert (j - (t - b.len)) * lb + d == bp;
    if bp + lb <= 0 {
      BitsFarBelow(Val(s), lb, bp);
    } else if bp >= b.len * lb {
      BitsAbove(s, lb, bp);
    }
  }

  /** The limbs of both numbers at index j of the window, and whether it is inside one of them. */
  method FetchPair(a: BigFloat, b: BigFloat, lb: nat, ap: int, bp: int, ghost t: nat, ghost d: nat, ghost j: nat)
    returns (v1: Limb, v2: Limb, inside: bool)
    requires Binary(lb) && lb >= 1 && Window(a, b, lb, t, d) && j < t && ap == a.len - t + j && bp == (b.len - t + j) * lb + d
    ensures v1 == Wide(a, t)[j] && v2 == Narrow(b, lb, t, d)[j]
    ensures !inside ==> OutsideA(ap, a.len) && OutsideB(bp, b.len, lb) && v1 == 0 && v2 == 0
  {
    hide Val, Pow, Pow2, Quo, Rem, BitsAt;
    OutsideZero(a, b, lb, t, d, j);
    inside := false;
    v1, v2 := 0, 0;
    if 0 <= ap < a.len {
      v1 := a.tab[ap];
      inside := true;
    }
    if bp + lb > 0 && bp < b.len * lb {
      v2 := GetBits(b.tab, b.len, lb, bp);
      LoweredAt(b.tab[..b.len], lb, t, d, j);
      assert (j - (t - b.len)) * lb + d == bp;
      inside := true;
    }
  }

  /** Outside both numbers: the next index inside one of them, or the end. */
  method NextInside(aOff: int, bOff: int, lb: nat, i: int, lenA: nat, lenB: nat) returns (next: int)
    requires lb >= 1 && i < 0 && OutsideA(aOff + i, lenA) && OutsideB(bOff + i * lb, lenB, lb)
    ensures i < next <= 0
    ensures forall k :: i <= k < next ==> Outside(aOff, bOff, lb, lenA, lenB, k)
  {
    next := 0;
    if aOff + i < 0 {
      next := Min(next, -aOff);
    }
    if bOff + i * lb + lb <= 0 {
      var q, r := FloorPos(-bOff, lb);
      next := Min(next, q);
      MulDist(i, 1, lb);
      if q < i + 1 {
        MulMono(q + 1, i + 1, lb);
        MulDist(q, 1, lb);
        assert false;
      }
      forall k | i <= k < next
        ensures Outside(aOff, bOff, lb, lenA, lenB, k)
      {
        MulMono(k + 1, q, lb);
        MulDist(k, 1, lb);
      }
    } else {
      forall k | i <= k < next
        ensures Outside(aOff, bOff, lb, lenA, lenB, k)
      {
        MulMono(i, k, lb);
      }
    }
  }

  /** The low limbs up to index i are summed, and nz tells whether any is not zero. */
  ghost predicate LowDone(low: seq<Limb>, carry: int, nz: bool, x: seq<Limb>, y: seq<Limb>, sub: bool)
    requires |low| <= |x| == |y|
  {
    0 <= carry <= 1 && Summed(low, carry, x, y, sub) && nz == (Val(low) != 0)
  }

  lemma {:induction false} LowStart(x: seq<Limb>, y: seq<Limb>, sub: bool)
    requires |x| == |y|
    ensures LowDone([], if sub then 1 else 0, false, x, y, sub)
  {
    hide Summed, Val;
    SummedStart(x, y, sub);
    ValZeros([]);
  }

  lemma {:induction false} LowStep(low: seq<Limb>, carry: int, nz: bool, u: Limb, carry': int, x: seq<Limb>, y: seq<Limb>, sub: bool)
    requires |low| < |x| == |y| && LowDone(low, carry, nz, x, y, sub) && 0 <= carry' <= 1
    requires u + carry' * B == x[|low|] + FlipLimb(y[|low|], sub) + carry
    ensures LowDone(low + [u], carry', nz || u != 0, x, y, sub)
  {
    hide Summed, Val;
    SummedStep(low, u, carry, carry', x, y, sub);
    SnocNonZero(low, u);
  }

  /** A zero limb of both operands, and the n zero limbs above it, in one step. */
  lemma {:induction false} LowSkip(low: seq<Limb>, carry: int, nz: bool, u: Limb, carry': int, x: seq<Limb>, y: seq<Limb>, sub: bool, n: nat)
    requires |low| + n < |x| == |y| && LowDone(low, carry, nz, x, y, sub) && 0 <= carry' <= 1
    requires forall j :: |low| <= j <= |low| + n ==> x[j] == 0 && y[j] == 0
    requires u + carry' * B == FlipLimb(0, sub) + carry
    ensures LowDone(low + [u] + Fill(n, Filler(carry', sub)), carry', nz || u != 0, x, y, sub)
  {
    hide Summed, Val;
    LowStep(low, carry, nz, u, carry', x, y, sub);
    SkipOver(low + [u], carry', x, y, sub, n);
    FillKeeps(low + [u], n, Filler(carry', sub));
  }

  /** The limbs below the result: their carry, and whether any is not zero. Gaps are skipped in one step. */
  method LowLimbs(a: BigFloat, b: BigFloat, lb: nat, d: nat, t: nat, rlen: nat, sub: bool)
    returns (carry: Limb, nz: bool, ghost low: seq<Limb>)
    requires Binary(lb) && lb >= 1 && Window(a, b, lb, t, d) && rlen <= t
    ensures |low| == t - rlen && LowDone(low, carry, nz, Wide(a, t), Narrow(b, lb, t, d), sub)
  {
    hide Val, Pow, Pow2, LowDone, Wide, Narrow, Outside, Binary, Window;
    WindowIs(a, b, lb, t, d);
    ghost var x, y := Wide(a, t), Narrow(b, lb, t, d);
    var aOff, bOff: int := a.len - rlen, (b.len - rlen) * lb + d;
    carry, nz, low := if sub then 1 else 0, false, [];
    LowStart(x, y, sub);
    var i: int := rlen - t;
    while i < 0
      invariant rlen - t <= i <= 0 && |low| == i + t - rlen && carry <= 1 && LowDone(low, carry, nz, x, y, sub)
    {
      MulDist(b.len - rlen, i, lb);
      var v1, v2, inside := FetchPair(a, b, lb, aOff + i, bOff + i * lb, t, d, |low|);
      ghost var before := carry;
      var u;
      u, carry := AddStep(v1, v2, sub, carry);
      if inside {
        LowStep(low, before, nz, u, carry, x, y, sub);
        low := low + [u];
        i := i + 1;
      } else {
        var next := NextInside(aOff, bOff, lb, i, a.len, b.len);
        ghost var n: nat := next - i - 1;
        GapZero(a, b, lb, t, d, rlen, aOff, bOff, i, next, |low|, n, x, y);
        LowSkip(low, before, nz, u, carry, x, y, sub, n);
        low := low + [u] + Fill(n, Filler(carry, sub));
        i := next;
      }
      nz := nz || u != 0;
    }
  }

  lemma {:induction false} WindowIs(a: BigFloat, b: BigFloat, lb: nat, t: nat, d: nat)
    requires Window(a, b, lb, t, d)
    ensures a.Valid() && b.Valid() && a.len <= t && b.len <= t && (t - b.len) * lb >= d
  {
  }

  /** Everything up to the next index inside is zero. */
  lemma {:induction false} GapZero(a: BigFloat, b: BigFloat, lb: nat, t: nat, d: nat, rlen: nat, aOff: int, bOff: int, i: int, next: int,
                                   lo: nat, n: nat, x: seq<Limb>, y: seq<Limb>)
    requires Binary(lb) && lb >= 1 && Window(a, b, lb, t, d) && rlen <= t && rlen - t <= i < next <= 0
    requires lo == i + t - rlen && n == next - i - 1 && x == Wide(a, t) && y == Narrow(b, lb, t, d)
    requires aOff == a.len - rlen && bOff == (b.len - rlen) * lb + d
    requires forall k :: i <= k < next ==> Outside(aOff, bOff, lb, a.len, b.len, k)
    ensures forall j :: lo <= j <= lo + n ==> x[j] == 0 && y[j] == 0
  {
    hide Wide, Narrow;
    forall j | lo <= j <= lo + n
      ensures x[j] == 0 && y[j] == 0
    {
      var k := j - t + rlen;
      assert Outside(aOff, bOff, lb, a.len, b.len, k);
      MulDist(b.len - rlen, k, lb);
      OutsideZero(a, b, lb, t, d, j);
    }
  }
}
