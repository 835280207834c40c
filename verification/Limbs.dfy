/**
Limb vectors of the arbitrary-precision library: little-endian sequences of
digits in a radix `B`, and the number they denote.

`B` is left symbolic: every result holds for 2^32 and 2^64 (binary limbs) and
for 10^9 and 10^19 (decimal limbs) alike.
*/
module Limbs {
  import opened Arith

  type Radix = b: nat | 16 <= b witness 16

  /** The radix of one limb. */
  const B: Radix

  type Limb = x: nat | x < B witness 0

  /** B^k */
  ghost function Pow(k: nat): (p: nat)
    ensures p >= 1
  {
    if k == 0 then 1 else Pow(k - 1) * B
  }

  /** The number denoted by a little-endian limb vector. */
  ghost function Val(s: seq<Limb>): nat {
    if |s| == 0 then 0 else Val(s[..|s| - 1]) + s[|s| - 1] * Pow(|s| - 1)
  }

  lemma {:induction false} PowAdd(i: nat, j: nat)
    ensures Pow(i + j) == Pow(i) * Pow(j)
  {
    if j > 0 {
      PowAdd(i, j - 1);
      MulAssoc(Pow(i), Pow(j - 1), B);
    }
  }

  lemma {:induction false} PowMonotone(i: nat, j: nat)
    requires i <= j
    ensures Pow(i) <= Pow(j)
  {
    if i < j {
      PowMonotone(i, j - 1);
      MulMono(1, B, Pow(j - 1));
    }
  }

  lemma {:induction false} ValBound(s: seq<Limb>)
    ensures Val(s) < Pow(|s|)
  {
    if |s| > 0 {
      ValBound(s[..|s| - 1]);
      MulMono(s[|s| - 1], B - 1, Pow(|s| - 1));
      MulDist(B, 1, Pow(|s| - 1));
    }
  }

  /** One more limb at the top. */
  lemma {:induction false} ValSnoc(s: seq<Limb>, x: Limb)
    ensures Val(s + [x]) == Val(s) + x * Pow(|s|)
  {
    assert (s + [x])[..|s|] == s;
  }

  lemma {:induction false} ValConcat(s: seq<Limb>, t: seq<Limb>)
    ensures Val(s + t) == Val(s) + Pow(|s|) * Val(t)
  {
    if |t| == 0 {
      assert s + t == s;
    } else {
      hide Val, Pow;
      var u, x := t[..|t| - 1], t[|t| - 1];
      ValConcat(s, u);
      assert s + t == (s + u) + [x] && t == u + [x];
      ValSnoc(s + u, x);
      ValSnoc(u, x);
      PowAdd(|s|, |u|);
      MulShift(Pow(|s|), Val(u), x, Pow(|u|));
    }
  }

  lemma {:induction false} ValSplit(s: seq<Limb>, i: nat)
    requires i <= |s|
    ensures Val(s) == Val(s[..i]) + Pow(i) * Val(s[i..])
  {
    assert s == s[..i] + s[i..];
    ValConcat(s[..i], s[i..]);
  }

  /** One more limb at the bottom. */
  lemma {:induction false} ValCons(x: Limb, s: seq<Limb>)
    ensures Val([x] + s) == x + B * Val(s)
  {
    ValConcat([x], s);
    ValSnoc([], x);
    assert [] + [x] == [x];
    assert Pow(1) == Pow(0) * B;
  }

  lemma {:induction false} ValZeros(s: seq<Limb>)
    requires forall i :: 0 <= i < |s| ==> s[i] == 0
    ensures Val(s) == 0
  {
    if |s| > 0 {
      ValZeros(s[..|s| - 1]);
    }
  }
}
