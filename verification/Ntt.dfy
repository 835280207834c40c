/**
Number-theoretic multiplication, from the residues of the convolution on: the choice of digit
size, the reconstruction of the coefficients, and the carries into limbs.
*/
module NttReconstruction {
  import opened Arith
  import opened Limbs
  import opened RoundSpec
  import opened LimbBits
  import opened ModularReduction
  import opened RadixConversion

  /** The product of the moduli. */
  ghost function Prod(m: seq<nat>): nat {
    if m == [] then 1 else m[0] * Prod(m[1..])
  }

  /** Increasing moduli, below half a limb. */
  ghost predicate ModsOk(m: seq<nat>) {
    (forall i :: 0 <= i < |m| ==> 2 <= m[i] && 2 * m[i] <= B) && (forall i, j :: 0 <= i < j < |m| ==> m[i] < m[j])
  }

  function Div(z: nat, m: nat): nat
    requires m >= 1
  {
    z / m
  }

  /** The mixed-radix digits of x. */
  ghost function MixedDigits(x: nat, m: seq<nat>): (y: seq<nat>)
    requires forall i :: 0 <= i < |m| ==> m[i] >= 2
    ensures |y| == |m|
  {
    if m == [] then [] else [Mod(x, m[0])] + MixedDigits(Div(x, m[0]), m[1..])
  }

  /** The number with these mixed-radix digits. */
  ghost function Mixed(y: seq<nat>, m: seq<nat>): nat
    requires |y| == |m|
  {
    if y == [] then 0 else y[0] + m[0] * Mixed(y[1..], m[1..])
  }

  lemma {:induction false} MixedRoundTrip(x: nat, m: seq<nat>)
    requires (forall i :: 0 <= i < |m| ==> m[i] >= 2) && x < Prod(m)
    ensures Mixed(MixedDigits(x, m), m) == x
  {
    hide Mod, Div;
    if m != [] {
      DivBelow(x, m[0], Prod(m[1..]));
      MixedRoundTrip(Div(x, m[0]), m[1..]);
      var y := MixedDigits(x, m);
      assert y[0] == Mod(x, m[0]) && y[1..] == MixedDigits(Div(x, m[0]), m[1..]);
    }
  }

  lemma {:induction false} DivBelow(x: nat, d: nat, p: nat)
    requires d >= 1 && x < d * p
    ensures Div(x, d) < p && x == Mod(x, d) + d * Div(x, d)
  {
    var q, r := DivMod(x, d);
    DivUnique(x / d, x % d, q, r, d);
    if q >= p {
      MulMono(p, q, d);
    }
  }

  /** What is left of x after the first j digits. */
  ghost function Rest(x: nat, m: seq<nat>, j: nat): nat
    requires j <= |m| && forall i :: 0 <= i < |m| ==> m[i] >= 2
  {
    if j == 0 then x else Div(Rest(x, m, j - 1), m[j - 1])
  }

  lemma {:induction false} RestFirst(x: nat, m: seq<nat>, j: nat)
    requires 1 <= j <= |m| && forall i :: 0 <= i < |m| ==> m[i] >= 2
    ensures Rest(x, m, j) == Rest(Div(x, m[0]), m[1..], j - 1)
  {
    if j > 1 {
      RestFirst(x, m, j - 1);
    }
  }

  lemma {:induction false} DigitAt(x: nat, m: seq<nat>, j: nat)
    requires j < |m| && forall i :: 0 <= i < |m| ==> m[i] >= 2
    ensures MixedDigits(x, m)[j] == Mod(Rest(x, m, j), m[j])
  {
    if j > 0 {
      DigitAt(Div(x, m[0]), m[1..], j - 1);
      RestFirst(x, m, j);
    }
  }

  /** Subtracting a digit and multiplying by the inverse of its modulus divides, in the residues. */
  lemma {:induction false} ResidueStep(z: nat, mj: nat, mk: nat, c: nat)
    requires 2 <= mj < mk && Mod(c * mj, mk) == 1
    ensures Mod((Mod(z, mk) - Mod(z, mj) + mk) * c, mk) == Mod(Div(z, mj), mk)
  {
    var q, y := DivMod(z, mj);
    DivUnique(z / mj, z % mj, q, y, mj);
    var t, r := DivMod(z, mk);
    DivUnique(z / mk, z % mk, t, r, mk);
    var u, one := DivMod(c * mj, mk);
    DivUnique(c * mj / mk, (c * mj) % mk, u, one, mk);
    var s, v := DivMod(q, mk);
    DivUnique(q / mk, q % mk, s, v, mk);
    // (r - y + mk) * c == (q * mj - t * mk + mk) * c == q * (u * mk + 1) - t * mk * c + mk * c
    var w := q * u - t * c + c + s;
    StepArith(q, mj, y, t, r, mk, c, u, s, v);
    RemIs((r - y + mk) * c, mk, w, v);
  }

  lemma {:induction false} StepArith(q: nat, mj: nat, y: nat, t: nat, r: nat, mk: nat, c: nat, u: nat, s: nat, v: nat)
    requires q * mj + y == t * mk + r && c * mj == u * mk + 1 && q == s * mk + v
    ensures (r - y + mk) * c == (q * u - t * c + c + s) * mk + v
  {
    assert r - y + mk == q * mj - t * mk + mk;
    assert (q * mj - t * mk + mk) * c == q * mj * c - t * mk * c + mk * c by {
      MulDist(q * mj, t * mk, c);
      MulDist(q * mj - t * mk, mk, c);
    }
    assert q * mj * c == q * (u * mk + 1) by { MulAssoc(q, mj, c); }
    assert q * (u * mk + 1) == q * u * mk + q by { MulDist(u * mk, 1, q); MulAssoc(q, u, mk); }
    assert t * mk * c == t * c * mk by { MulAssoc(t, mk, c); MulAssoc(t, c, mk); }
    MulDist(q * u - t * c, c, mk);
    MulDist(q * u, t * c, mk);
    MulDist(q * u - t * c + c, s, mk);
  }

  /** The index of the constant for a pair of moduli j < k, in the order of the loops. */
  ghost function PairIndex(j: nat, n: nat): nat
    requires j < n
  {
    if j == 0 then 0 else PairIndex(j - 1, n) + (n - j)
  }

  /** The constants are the inverses of the moduli, modulo each larger one. */
  ghost predicate InversesOk(cr: seq<nat>, m: seq<nat>) {
    forall j, k :: 0 <= j < k < |m| ==> InverseOk(cr, m, j, k)
  }

  ghost predicate InverseOk(cr: seq<nat>, m: seq<nat>, j: nat, k: nat)
    requires j < k < |m|
  {
    m[k] >= 2 && PairIndex(j, |m|) + (k - j - 1) < |cr| && cr[PairIndex(j, |m|) + (k - j - 1)] < m[k] && Mod(cr[PairIndex(j, |m|) + (k - j - 1)] * m[j], m[k]) == 1
  }

  /** Digits below j are final; from j on there are the residues of the rest. */
  ghost predicate Reduced(y: seq<nat>, x: nat, m: seq<nat>, j: nat, k: nat)
    requires |y| == |m| && j < |m| && forall i :: 0 <= i < |m| ==> m[i] >= 2
  {
    (forall i :: 0 <= i <= j ==> y[i] == Mod(Rest(x, m, i), m[i])) &&
    (forall i :: j < i < k && i < |m| ==> y[i] == Mod(Rest(x, m, j + 1), m[i])) &&
    (forall i :: j < i < |m| && k <= i ==> y[i] == Mod(Rest(x, m, j), m[i]))
  }

  /** The Chinese remainder loops: from the residues of x to its mixed-radix digits, in place. */
  method MixedRadix(y: array<nat>, m: seq<nat>, cr: seq<nat>, ghost x: nat)
    requires y.Length == |m| >= 1 && ModsOk(m) && InversesOk(cr, m) && forall i :: 0 <= i < |m| ==> y[i] == Mod(x, m[i])
    modifies y
    ensures y[..] == MixedDigits(x, m)
  {
    hide Mod, Rest, Reduced, InversesOk;
    var n := |m|;
    var l, j := 0, 0;
    ReducedStart(y[..], x, m);
    while j < n - 1
      invariant 0 <= j <= n - 1 && l == PairIndex(j, n) && Reduced(y[..], x, m, j, j + 1)
    {
      ReduceBy(y, m, cr, j, l, x);
      l := l + (n - 1 - j);
      j := j + 1;
    }
    ReducedEnd(y[..], x, m);
  }

  lemma {:induction false} ReducedStart(y: seq<nat>, x: nat, m: seq<nat>)
    requires |y| == |m| >= 1 && ModsOk(m) && forall i :: 0 <= i < |m| ==> y[i] == Mod(x, m[i])
    ensures Reduced(y, x, m, 0, 1)
  {
    hide Mod;
  }

  lemma {:induction false} ReducedEnd(y: seq<nat>, x: nat, m: seq<nat>)
    requires |y| == |m| >= 1 && ModsOk(m) && Reduced(y, x, m, |m| - 1, |m|)
    ensures y == MixedDigits(x, m)
  {
    hide Mod, Rest, MixedDigits;
    forall i | 0 <= i < |m|
      ensures y[i] == MixedDigits(x, m)[i]
    {
      DigitAt(x, m, i);
    }
  }

  /** One round: digit j is final, and every later residue is divided by its modulus. */
  method ReduceBy(y: array<nat>, m: seq<nat>, cr: seq<nat>, j: nat, l0: nat, ghost x: nat)
    requires y.Length == |m| && j + 1 < |m| && ModsOk(m) && InversesOk(cr, m) && l0 == PairIndex(j, |m|)
    requires Reduced(y[..], x, m, j, j + 1)
    modifies y
    ensures Reduced(y[..], x, m, j + 1, j + 2)
  {
    hide Mod, Divide, Rest, Reduced, InversesOk, PairIndex;
    var k := j + 1;
    while k < |m|
      invariant j + 1 <= k <= |m| && Reduced(y[..], x, m, j, k)
    {
      ghost var t := y[..];
      InverseAt(cr, m, j, k);
      var c := cr[l0 + (k - j - 1)];
      PairSmall(t, x, m, j, k);
      var yj: int, yk: int := y[j], y[k];
      y[k] := MulModFast2(yk - yj + m[k], c, m[k], Divide(c * B, m[k]));
      assert y[..] == t[k := y[k]];
      ReduceOne(t, y[..], x, m, j, k, c);
      k := k + 1;
    }
    RoundDone(y[..], x, m, j);
  }

  /** The difference of two residues plus the larger modulus does not leave the limb. */
  lemma {:induction false} PairSmall(y: seq<nat>, x: nat, m: seq<nat>, j: nat, k: nat)
    requires |y| == |m| && j < k < |m| && ModsOk(m) && Reduced(y, x, m, j, k)
    ensures y[j] <= y[k] + m[k] < y[j] + B && 2 * m[k] <= B
  {
    hide Mod, Rest;
    assert y[j] == Mod(Rest(x, m, j), m[j]) && y[k] == Mod(Rest(x, m, j), m[k]);
    PairArith(y[j], y[k], m[j], m[k]);
  }

  lemma {:induction false} PairArith(yj: nat, yk: nat, mj: nat, mk: nat)
    requires yj < mj < mk && yk < mk && 2 * mk <= B
    ensures yj <= yk + mk < yj + B
  {
  }

  lemma {:induction false} InverseAt(cr: seq<nat>, m: seq<nat>, j: nat, k: nat)
    requires InversesOk(cr, m) && j < k < |m|
    ensures m[k] >= 2 && PairIndex(j, |m|) + (k - j - 1) < |cr| && cr[PairIndex(j, |m|) + (k - j - 1)] < m[k] && Mod(cr[PairIndex(j, |m|) + (k - j - 1)] * m[j], m[k]) == 1
  {
    hide Mod, PairIndex;
    assert InverseOk(cr, m, j, k);
  }

  lemma {:induction false} ReduceOne(y: seq<nat>, y': seq<nat>, x: nat, m: seq<nat>, j: nat, k: nat, c: nat)
    requires |y| == |m| && j < k < |m| && ModsOk(m) && Mod(c * m[j], m[k]) == 1 && Reduced(y, x, m, j, k)
    requires y' == y[k := Mod((y[k] - y[j] + m[k]) * c, m[k])]
    ensures Reduced(y', x, m, j, k + 1)
  {
    assert Rest(x, m, j + 1) == Div(Rest(x, m, j), m[j]);
    hide Mod, Div, Rest;
    ResidueStep(Rest(x, m, j), m[j], m[k], c);
  }

  lemma {:induction false} RoundDone(y: seq<nat>, x: nat, m: seq<nat>, j: nat)
    requires |y| == |m| && j + 1 < |m| && ModsOk(m) && Reduced(y, x, m, j, |m|)
    ensures Reduced(y, x, m, j + 1, j + 2)
  {
    hide Mod, Rest;
  }
}
