/** Between limbs and the buffers of residues: both conversions, and the product of two numbers from its residues. */
module NttProducts {
  import opened Arith
  import opened Limbs
  import opened LimbOps
  import opened RoundSpec
  import opened LimbBits
  import opened Rounding
  import opened BigFloats
  import opened FloatAddition
  import opened RadixConversion
  import opened ModularReduction
  import opened NttReconstruction
  import opened NttSizes
  import opened NttLimbs

  /** Place i of buffer j, of n places each. */
  function Index(n: nat, i: nat, j: nat): nat {
    i + n * j
  }

  function BufAt(buf: seq<nat>, n: nat, i: nat, j: nat): nat {
    if Index(n, i, j) < |buf| then buf[Index(n, i, j)] else 0
  }

  lemma {:induction false} IndexBound(n: nat, i: nat, j: nat, k: nat)
    requires i < n && j < k
    ensures Index(n, i, j) < n * k
  {
    MulMono(j + 1, k, n);
    MulDist(j, 1, n);
  }

  lemma {:induction false} IndexOnce(n: nat, i: nat, j: nat, i': nat, j': nat)
    requires i < n && i' < n && Index(n, i, j) == Index(n, i', j')
    ensures i == i' && j == j'
  {
    DivUnique(j, i, j', i', n);
  }

  /** Buffer j holds the residues of some numbers modulo m[j], possibly with m[j] added. */
  ghost predicate Residues(buf: seq<nat>, coef: seq<nat>, m: seq<nat>) {
    |buf| == |coef| * |m| && forall i, j :: 0 <= i < |coef| && 0 <= j < |m| ==> ResidueAt(buf, coef, m, i, j)
  }

  ghost predicate ResidueAt(buf: seq<nat>, coef: seq<nat>, m: seq<nat>, i: nat, j: nat)
    requires i < |coef| && j < |m|
  {
    m[j] >= 1 && (BufAt(buf, |coef|, i, j) == Mod(coef[i], m[j]) || BufAt(buf, |coef|, i, j) == Mod(coef[i], m[j]) + m[j])
  }

  /** Where the residues are: place i of buffer j, of n places each, is at i + n * j. */
  lemma {:induction false} ResidueMeans(buf: seq<nat>, coef: seq<nat>, m: seq<nat>, i: nat, j: nat)
    requires |buf| == |coef| * |m| && i < |coef| && j < |m| && m[j] >= 1
    ensures i + |coef| * j < |buf|
    ensures ResidueAt(buf, coef, m, i, j) <==>
            buf[i + |coef| * j] == coef[i] % m[j] || buf[i + |coef| * j] == coef[i] % m[j] + m[j]
  {
    IndexBound(|coef|, i, j, |m|);
  }

  /** The residues of one number, brought below the moduli. */
  method ReadResidues(y: array<nat>, buf: array<nat>, n: nat, i: nat, m: seq<nat>, ghost coef: seq<nat>)
    requires y != buf && y.Length == |m| && i < n == |coef| && ModsOk(m) && Residues(buf[..], coef, m)
    modifies y
    ensures forall j :: 0 <= j < |m| ==> y[j] == Mod(coef[i], m[j])
  {
    hide Mod, Index;
    for j := 0 to |m|
      invariant forall k :: 0 <= k < j ==> y[k] == Mod(coef[i], m[k])
    {
      IndexBound(n, i, j, |m|);
      assert ResidueAt(buf[..], coef, m, i, j);
      var a := buf[Index(n, i, j)];
      y[j] := if a >= m[j] then a - m[j] else a;
    }
  }

  lemma {:induction false} PowLIsPow2(dpl: nat, i: nat)
    ensures Pow2(dpl) >= 1 && PowL(Pow2(dpl), i) == Pow2(i * dpl)
  {
    if i == 0 {
      OneIsPow();
    } else {
      PowLIsPow2(dpl, i - 1);
      MulDist(i - 1, 1, dpl);
      Pow2Add((i - 1) * dpl, dpl);
    }
  }

  /** The first i coefficients are written, up to a carry c. */
  ghost predicate Progress(tab: seq<Limb>, lb: nat, dpl: nat, coef: seq<nat>, i: nat, out: nat, c: nat) {
    i <= |coef| && Holds(tab, lb, out, i * dpl) && Weigh(coef[..i], Pow2(dpl)) == out + c * Pow2(i * dpl)
  }

  lemma {:induction false} ProgressStart(tab: seq<Limb>, lb: nat, dpl: nat, coef: seq<nat>)
    requires Val(tab) == 0
    ensures Progress(tab, lb, dpl, coef, 0, 0, 0)
  {
    hide Val;
    assert coef[..0] == [];
    SplitIs(0, |tab| * lb, 0, 0);
  }

  lemma {:induction false} ProgressStep(s: seq<Limb>, t: seq<Limb>, lb: nat, dpl: nat, coef: seq<nat>, i: nat, out: nat, c: nat, v: nat)
    requires i < |coef| && Progress(s, lb, dpl, coef, i, out, c) && v == coef[i] + c
    requires Holds(t, lb, out + Rem(v, dpl) * Pow2(i * dpl), i * dpl + dpl)
    ensures Progress(t, lb, dpl, coef, i + 1, out + Rem(v, dpl) * Pow2(i * dpl), Quo(v, dpl))
  {
    hide Holds, Rem, Quo, Pow2;
    MulDist(i, 1, dpl);
    assert coef[..i + 1][..i] == coef[..i];
    PowLIsPow2(dpl, i);
    hide Weigh, PowL;
    Pow2Add(dpl, i * dpl);
    SplitAt(v, dpl);
    StepWeight(out, c, coef[i], v, Quo(v, dpl), Rem(v, dpl), Pow2(dpl), Pow2(i * dpl));
  }

  lemma {:induction false} StepWeight(out: nat, c: nat, x: nat, v: nat, q: nat, r: nat, d: nat, p: nat)
    requires v == x + c && v == q * d + r
    ensures out + c * p + x * p == out + r * p + q * (d * p)
  {
    MulDist(x, c, p);
    MulDist(q * d, r, p);
    MulAssoc(q, d, p);
  }

  /** The carry stays below the product of the moduli. */
  lemma {:induction false} CarrySmall(x: nat, c: nat, p: nat, dpl: nat)
    requires x < p && c < p && dpl >= 1
    ensures Quo(x + c, dpl) < p
  {
    assert Pow2(dpl) == 2 * Pow2(dpl - 1);
    hide Quo, Pow2;
    MulMono(2, Pow2(dpl), p);
    QuoBelow(x + c, dpl, p);
  }

  /** Whatever lies above the limbs of the result does not change them. */
  lemma {:induction false} ProgressEnd(tab: seq<Limb>, lb: nat, dpl: nat, coef: seq<nat>, i: nat, out: nat, c: nat)
    requires Progress(tab, lb, dpl, coef, i, out, c) && i * dpl >= |tab| * lb
    ensures Pow2(dpl) >= 1 && Val(tab) == Rem(Weigh(coef, Pow2(dpl)), |tab| * lb)
  {
    hide Val, Rem, Pow2, Weigh, PowL;
    PowLIsPow2(dpl, i);
    assert coef == coef[..i] + coef[i..];
    var d, p := Pow2(dpl), Pow2(i * dpl);
    WeighConcat(coef[..i], coef[i..], d);
    var w := Weigh(coef[i..], d);
    MulDist(c, w, p);
    AboveDropped(out, c + w, |tab| * lb, i * dpl);
  }

  lemma {:induction false} AboveDropped(v: nat, x: nat, k: nat, pos: nat)
    requires k <= pos
    ensures Rem(v + x * Pow2(pos), k) == Rem(v, k)
  {
    hide Pow2, Quo, Rem;
    Pow2Add(pos - k, k);
    MulAssoc(x, Pow2(pos - k), Pow2(k));
    SplitAt(v, k);
    var z := x * Pow2(pos - k);
    MulDist(Quo(v, k), z, Pow2(k));
    SplitIs(v + z * Pow2(k), k, Quo(v, k) + z, Rem(v, k));
  }

  /** What the loop over the coefficients needs: moduli with a product that leaves a bit free, and digits that fit them. */
  ghost predicate SetupOk(m: seq<nat>, cr: seq<nat>, lb: nat, dpl: nat) {
    |m| >= 2 && Binary(lb) && lb >= 1 && 1 <= dpl <= |m| * lb && ModsOk(m) && InversesOk(cr, m) && 2 * Prod(m) <= Pow(|m|)
  }

  /** One round of the loop: coefficient i, its low dpl bits, and the next carry. */
  method NextCoefficient(tab: array<Limb>, len: nat, lb: nat, dpl: nat, n1: nat, p: nat, i: nat,
      y: array<nat>, u: array<Limb>, carry: array<Limb>, m: seq<nat>, cr: seq<nat>, ghost coef: seq<nat>, ghost out: nat)
      returns (ghost out': nat)
    requires SetupOk(m, cr, lb, dpl) && dpl == n1 * lb + p + 1 && p < lb && n1 < |m| && len <= tab.Length
    requires y.Length == u.Length == carry.Length == |m| && u != carry && u != tab && carry != tab
    requires i < |coef| && coef[i] < Prod(m) && Val(carry[..]) < Prod(m)
    requires forall j :: 0 <= j < |m| ==> y[j] == Mod(coef[i], m[j])
    requires Progress(tab[..len], lb, dpl, coef, i, out, Val(carry[..]))
    modifies tab, y, u, carry
    ensures OnlyRange(tab, 0, len) && Val(carry[..]) < Prod(m)
    ensures Progress(tab[..len], lb, dpl, coef, i + 1, out', Val(carry[..]))
  {
    hide Val, Pow, Pow2, Mod, Prod, ModsOk, InversesOk, Rem, Quo, Holds, Weigh;
    ghost var c, s := Val(carry[..]), tab[..len];
    ModsFit(m);
    Coefficient(y, u, carry, m, cr, coef[i]);
    ghost var v := Val(u[..]);
    WriteDigit(tab, len, lb, i * dpl, u, n1, p, out);
    ShiftCarry(carry, u, |m|, lb, dpl);
    CarrySmall(coef[i], c, Prod(m), dpl);
    out' := out + Rem(v, dpl) * Pow2(i * dpl);
    ProgressStep(s, tab[..len], lb, dpl, coef, i, out, c, v);
  }

  lemma {:induction false} ModsFit(m: seq<nat>)
    requires ModsOk(m)
    ensures FitLimbs(m)
  {
  }

  method Cleared(tab: array<Limb>, len: nat)
    requires len <= tab.Length
    modifies tab
    ensures OnlyRange(tab, 0, len) && Val(tab[..len]) == 0
  {
    hide Val;
    for i := 0 to len
      invariant OnlyRange(tab, 0, len) && forall j :: 0 <= j < i ==> tab[j] == 0
    {
      tab[i] := 0;
    }
    ZerosVal(tab[..len]);
  }

  lemma {:induction false} ZerosVal(s: seq<Limb>)
    requires forall j :: 0 <= j < |s| ==> s[j] == 0
    ensures Val(s) == 0
  {
    if s != [] {
      ZerosVal(s[..|s| - 1]);
    }
  }

  /** ntt_to_limb: the limbs of the number whose coefficients have the residues in the buffers. */
  method NttToLimb(tab: array<Limb>, len: nat, lb: nat, buf: array<nat>, n: nat, dpl: nat, m: seq<nat>, cr: seq<nat>, ghost coef: seq<nat>)
    requires SetupOk(m, cr, lb, dpl) && len <= tab.Length && n == |coef| && n * dpl >= len * lb
    requires Residues(buf[..], coef, m) && forall i :: 0 <= i < n ==> coef[i] < Prod(m)
    modifies tab
    ensures OnlyRange(tab, 0, len) && Pow2(dpl) >= 1 && Val(tab[..len]) == Rem(Weigh(coef, Pow2(dpl)), len * lb)
  {
    hide Val, Pow, Pow2, Prod, Rem, Weigh, Progress, Residues, Mod;
    var n1, p := SplitPos(dpl - 1, lb);
    MulCancel(n1, |m|, lb);
    var y, u, carry := new nat[|m|], new Limb[|m|], new Limb[|m|];
    Cleared(carry, |m|);
    assert carry[..] == carry[..|m|];
    Cleared(tab, len);
    ProgressStart(tab[..len], lb, dpl, coef);
    ProdPositive(m);
    var places := Places(len * lb, dpl);
    var count := if n <= places then n else places;
    ghost var out := 0;
    for i := 0 to count
      invariant OnlyRange(tab, 0, len) && Val(carry[..]) < Prod(m) && buf[..] == old(buf[..])
      invariant Progress(tab[..len], lb, dpl, coef, i, out, Val(carry[..]))
    {
      ReadResidues(y, buf, n, i, m, coef);
      out := NextCoefficient(tab, len, lb, dpl, n1, p, i, y, u, carry, m, cr, coef, out);
    }
    ProgressEnd(tab[..len], lb, dpl, coef, count, out, Val(carry[..]));
  }

  lemma {:induction false} ProdPositive(m: seq<nat>)
    requires ModsOk(m)
    ensures Prod(m) >= 1
  {
    if m != [] {
      ProdPositive(m[1..]);
      MulNonZero(m[0], Prod(m[1..]));
    }
  }
}
