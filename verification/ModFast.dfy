/** Reductions modulo a constant by multiplications with precomputed inverses. */
module ModularReduction {
  import opened Arith
  import opened Limbs
  import opened RoundSpec
  import opened LimbBits

  function Mod(z: int, m: nat): (r: nat)
    requires m >= 1
    ensures r < m
  {
    z % m
  }

  lemma {:induction false} RemIs(x: int, m: nat, q: int, r: nat)
    requires x == q * m + r && r < m
    ensures Mod(x, m) == r
  {
    DivUnique(x / m, x % m, q, r, m);
  }

  /** The high limb of a double limb. */
  function HighLimb(t: int): nat
    requires 0 <= t < B * B
  {
    t / B
  }

  lemma {:induction false} Halves(t: int, h: nat, l: nat)
    requires t == h * B + l && l < B && h < B
    ensures 0 <= t < B * B && HighLimb(t) == h && Mod(t, B) == l
  {
    MulMono(h + 1, B, B);
    MulDist(h, 1, B);
    MulMono(0, h, B);
    DivUnique(t / B, t % B, h, l, B);
  }

  /** (slimb_t)x >> 1: the sign bit stays. */
  function ShiftSigned(x: Limb): nat {
    if x < B / 2 then x / 2 else x / 2 + B / 2
  }

  /** m & mask, for a mask of equal bits. */
  function Masked(m: Limb, mask: nat): Limb
    requires mask == 0 || mask == B - 1
  {
    if mask == 0 then 0 else m
  }

  /** The estimate of the quotient is at most two too small. */
  lemma {:induction false} EstimateBounds(r: nat, m: nat, w: nat, b: nat, a1: nat, rho: nat, inv: nat, sigma: nat, q: nat, tau: nat)
    requires b >= 1 && w < m && r < b * w && r == a1 * w + rho && rho < w
    requires b * w == inv * m + sigma && sigma < m && a1 * inv == q * b + tau && tau < b
    ensures 0 <= r - q * m < 3 * m
  {
    assert (r - q * m) * b == rho * b + a1 * sigma + tau * m by {
      Identity(r, m, w, b, a1, rho, inv, sigma, q, tau);
    }
    assert a1 < b by {
      MulMono(0, rho, 1);
      MulCancel(a1, b, w);
    }
    MulMono(0, rho, b);
    MulMono(0, a1, sigma);
    MulMono(0, tau, m);
    MulStrict(rho, m, b);
    MulMono(a1, b, sigma);
    MulStrict(sigma, m, b);
    MulStrict(tau, b, m);
    BothBounds(r - q * m, 3, m, b, rho * b + a1 * sigma + tau * m);
  }

  lemma {:induction false} BothBounds(d: int, c: nat, m: nat, b: nat, s: nat)
    requires b >= 1 && d * b == s && s < c * (m * b)
    ensures 0 <= d < c * m
  {
    if d < 0 {
      MulStrict(d, 0, b);
    }
    if d >= c * m {
      MulMono(c * m, d, b);
      MulAssoc(c, m, b);
    }
  }

  lemma {:induction false} Identity(r: nat, m: nat, w: nat, b: nat, a1: nat, rho: nat, inv: nat, sigma: nat, q: nat, tau: nat)
    requires r == a1 * w + rho && b * w == inv * m + sigma && a1 * inv == q * b + tau
    ensures (r - q * m) * b == rho * b + a1 * sigma + tau * m
  {
    MulDist(a1 * w + rho, q * m, b);
    MulDist(a1 * w, rho, b);
    assert a1 * w * b == a1 * (inv * m + sigma) by { MulAssoc(a1, w, b); }
    assert a1 * (inv * m + sigma) == a1 * inv * m + a1 * sigma by { MulDist(inv * m, sigma, a1); MulAssoc(a1, inv, m); }
    assert (q * b + tau) * m == q * b * m + tau * m by { MulDist(q * b, tau, m); }
    assert q * b * m == q * m * b by { MulAssoc(q, b, m); MulAssoc(q, m, b); }
  }

  /** The inverse of m for ModFast, as a limb: at m == 2^k, which the assertions let through, it would be cut to zero. */
  method InitModFast(m: Limb, lb: nat, k: nat) returns (inv: Limb)
    requires Binary(lb) && Pow2(k) <= m < Pow2(k + 1)
    ensures m > Pow2(k) ==> inv == Divide(Pow2(lb + k), m)
    ensures m == Pow2(k) ==> inv == 0
  {
    hide Pow2, Divide;
    Pow2Add(lb, k);
    InverseSize(m, B, Pow2(k));
    inv := Mod(Divide(Pow2(lb + k), m), B);
  }

  lemma {:induction false} InverseSize(m: nat, b: nat, w: nat)
    requires 1 <= w <= m && b >= 1
    ensures m > w ==> 0 <= Divide(b * w, m) < b && Mod(Divide(b * w, m), b) == Divide(b * w, m)
    ensures m == w ==> Mod(Divide(b * w, m), b) == 0
  {
    var q, r := DivMod(b * w, m);
    DivUnique(b * w / m, (b * w) % m, q, r, m);
    if m > w {
      MulStrict(w, m, b);
      if q >= b {
        MulMono(b, q, m);
      }
      RemIs(q, b, 0, q);
    } else {
      DivUnique(q, r, b, 0, m);
      RemIs(q, b, 1, 0);
    }
  }

  /** Makes a number in [-2m, m), taken modulo B * B, the one in [0, m) that differs by a multiple of m, without a branch. */
  method Correct(d: nat, m: Limb, ghost z: int) returns (x: Limb)
    requires B % 2 == 0 && 1 <= m && 2 * m <= B && 0 <= z + 2 * m < 3 * m && d == (if z < 0 then z + B * B else z)
    ensures x == if z + m < 0 then z + 2 * m else if z < 0 then z + m else z
  {
    SignHalves(z, d);
    var t0 := ShiftSigned(HighLimb(d));
    var d1 := d + Masked(m, t0);
    ghost var z1 := if z < 0 then z + m else z;
    d1 := Wrapped(d1, z1);
    SignHalves(z1, d1);
    var r0, r1 := Mod(d1, B), HighLimb(d1);
    x := Mod(r0 + Masked(m, r1), B);
    FinalLimb(z1, m);
  }

  lemma {:induction false} SignHalves(z: int, d: nat)
    requires B % 2 == 0 && 0 <= z + B < 2 * B && d == (if z < 0 then z + B * B else z)
    ensures d < B * B && HighLimb(d) == (if z < 0 then B - 1 else 0) && Mod(d, B) == (if z < 0 then z + B else z)
    ensures ShiftSigned(HighLimb(d)) == HighLimb(d)
  {
    if z < 0 {
      MulDist(B, 1, B);
      Halves(d, B - 1, z + B);
    } else {
      Halves(d, 0, z);
    }
  }

  /** A sum of double limbs modulo B * B. */
  method Wrapped(d: nat, ghost z: int) returns (r: nat)
    requires 0 <= z + B < 2 * B && (d == z || d == z + B * B)
    ensures r == if z < 0 then z + B * B else z
  {
    r := Mod(d, B * B);
    MulMono(1, B, B);
    if d == z {
      RemIs(d, B * B, 0, z);
    } else if z < 0 {
      RemIs(d, B * B, 0, d);
    } else {
      RemIs(d, B * B, 1, z);
    }
  }

  lemma {:induction false} FinalLimb(z: int, m: Limb)
    requires 0 <= z + m < 2 * m && 2 * m <= B
    ensures z >= 0 ==> Mod(z, B) == z
    ensures z < 0 ==> Mod(z + B + m, B) == z + m
  {
    if z >= 0 {
      RemIs(z, B, 0, z);
    } else {
      RemIs(z + B + m, B, 1, z + m);
    }
  }

  /** mod_fast: the remainder of a double limb. */
  method ModFast(r: nat, m: Limb, inv: Limb, lb: nat, k: nat) returns (x: Limb)
    requires Binary(lb) && k + 2 <= lb && Pow2(k) < m < Pow2(k + 1) && r < Pow2(lb + k) && inv == Divide(Pow2(lb + k), m)
    ensures x == Mod(r, m)
  {
    hide Pow2, Quo, Rem, Divide, Mod;
    var a1 := Quo(r, k);
    var q := Quo(a1 * inv, lb);
    EstimateFor(r, m, inv, lb, k);
    var z := r - q * m - 2 * m;
    WordSizes(m, lb, k);
    BelowOne(z);
    var d := Mod(z, B * B);
    x := Correct(d, m, z);
    var c := if z + m < 0 then 0 else if z < 0 then 1 else 2;
    MulDist(q, c, m);
    RemIs(r, m, q + c, x);
  }

  lemma {:induction false} EstimateFor(r: nat, m: Limb, inv: Limb, lb: nat, k: nat)
    requires Binary(lb) && Pow2(k) < m && r < Pow2(lb + k) && inv == Divide(Pow2(lb + k), m)
    ensures 0 <= r - Quo(Quo(r, k) * inv, lb) * m < 3 * m
  {
    hide Pow2, Quo, Rem, Divide;
    Pow2Add(lb, k);
    var a1, a, w := Quo(r, k), Quo(r, k) * inv, B * Pow2(k);
    SplitAt(r, k);
    SplitAt(a, lb);
    DivideSpec(w, m);
    EstimateBounds(r, m, Pow2(k), B, a1, Rem(r, k), inv, w - inv * m, Quo(a, lb), Rem(a, lb));
  }

  lemma {:induction false} DivideSpec(x: nat, m: nat)
    requires m >= 1
    ensures 0 <= x - Divide(x, m) * m < m
  {
    var q, r := DivMod(x, m);
    DivUnique(x / m, x % m, q, r, m);
  }

  lemma {:induction false} WordSizes(m: Limb, lb: nat, k: nat)
    requires Binary(lb) && k + 2 <= lb && m < Pow2(k + 1)
    ensures 2 * m <= B && B % 2 == 0
  {
    var h := Pow2(lb - 1);
    assert B == 2 * h;
    hide Pow2;
    Pow2Mono(k + 1, lb - 1);
  }

  lemma {:induction false} BelowOne(z: int)
    requires 0 <= z + B < 2 * B
    ensures Mod(z, B * B) == if z < 0 then z + B * B else z
  {
    MulMono(1, B, B);
    MulMono(1, B, 1);
    RemIs(z, B * B, if z < 0 then -1 else 0, if z < 0 then z + B * B else z);
  }

  /** mul_mod_fast2: a product with a constant b below m, whose inverse is b * B / m. */
  method MulModFast2(a: Limb, b: Limb, m: Limb, inv: nat) returns (x: Limb)
    requires b < m && 2 * m <= B && inv == Divide(b * B, m)
    ensures x == Mod(a * b, m)
  {
    hide Divide, Mod;
    var q := Divide(a * inv, B);
    ConstantEstimate(a, b, m, inv);
    DivideSpec(b * B, m);
    DivideSpec(a * inv, B);
    var z: int := a * b - q * m;
    WrapSame(a * b, q * m, z);
    x := Mod(Mod(a * b, B) - Mod(q * m, B), B);
    MulDist(q, 1, m);
    if x >= m {
      x := x - m;
      RemIs(a * b, m, q + 1, x);
    } else {
      RemIs(a * b, m, q, x);
    }
  }

  /** The low limbs suffice for a small difference. */
  lemma {:induction false} WrapSame(x: nat, y: nat, z: int)
    requires z == x - y && 0 <= z < B
    ensures Mod(Mod(x, B) - Mod(y, B), B) == z
  {
    var q, r := DivMod(x, B);
    DivUnique(x / B, x % B, q, r, B);
    var p, s := DivMod(y, B);
    DivUnique(y / B, y % B, p, s, B);
    DifferenceOf(q, r, p, s, z, B);
  }

  lemma {:induction false} DifferenceOf(q: int, r: int, p: int, s: int, z: int, b: nat)
    requires z == q * b + r - (p * b + s) && 0 <= z < b
    ensures Mod(r - s, b) == z
  {
    MulDist(p, q, b);
    RemIs(r - s, b, p - q, z);
  }

  lemma {:induction false} ConstantEstimate(a: Limb, b: Limb, m: Limb, inv: nat)
    requires b < m && inv == Divide(b * B, m)
    ensures 0 <= a * b - Divide(a * inv, B) * m < 2 * m
  {
    hide Divide;
    DivideSpec(b * B, m);
    DivideSpec(a * inv, B);
    var q := Divide(a * inv, B);
    ConstantArith(a, b, m, B, inv, b * B - inv * m, q, a * inv - q * B);
  }

  lemma {:induction false} ConstantArith(a: nat, b: nat, m: nat, w: nat, inv: nat, sigma: nat, q: int, tau: nat)
    requires a < w && b * w == inv * m + sigma && sigma < m && a * inv == q * w + tau && tau < w
    ensures 0 <= a * b - q * m < 2 * m
  {
    ConstantIdentity(a, b, m, w, inv, sigma, q, tau);
    MulMono(0, a, sigma);
    MulMono(0, tau, m);
    MulMono(a, w, sigma);
    MulStrict(sigma, m, w);
    MulStrict(tau, w, m);
    BothBounds(a * b - q * m, 2, m, w, a * sigma + tau * m);
  }

  lemma {:induction false} ConstantIdentity(a: nat, b: nat, m: nat, w: nat, inv: nat, sigma: nat, q: int, tau: nat)
    requires b * w == inv * m + sigma && a * inv == q * w + tau
    ensures (a * b - q * m) * w == a * sigma + tau * m
  {
    MulDist(a * b, q * m, w);
    assert a * b * w == a * (inv * m + sigma) by { MulAssoc(a, b, w); }
    assert a * (inv * m + sigma) == a * inv * m + a * sigma by { MulDist(inv * m, sigma, a); MulAssoc(a, inv, m); }
    MulDist(q * w, tau, m);
    assert q * w * m == q * m * w by { MulAssoc(q, w, m); MulAssoc(q, m, w); }
  }
}
