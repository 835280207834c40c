/**
Decimal limbs: digits of the radix B = 10^9 or 10^19, kept in machine words of size w > B. Sums
and differences wrap around at the word, not at the radix, and double words are divided by the
radix through a precomputed inverse.
*/
module DecimalLimbs {
  import opened Arith
  import opened Limbs
  import opened LimbOps
  import ModularReduction

  /** A number modulo the word size. */
  function Wrap(z: int, w: nat): (r: nat)
    requires w >= 1
    ensures r < w
  {
    z % w
  }

  lemma {:induction false} WrapIs(z: int, w: nat, c: int, r: nat)
    requires z == c * w + r && r < w
    ensures Wrap(z, w) == r
  {
    DivUnique(z / w, z % w, c, r, w);
  }

  /** One column of an addition: v + u + k - base, compared with v. */
  method AddColumn(v: Limb, u: Limb, k: int, w: nat) returns (x: Limb, k': int)
    requires 0 <= k <= 1 && B < w
    ensures 0 <= k' <= 1 && x + k' * B == v + 1 * u + k
  {
    hide Wrap;
    var a := Wrap(v + u + k - B, w);
    AddColumnWraps(v, u, k, w);
    k' := if a <= v then 1 else 0;
    if k' == 0 {
      a := Wrap(a + B, w);
    }
    x := a;
  }

  lemma {:induction false} AddColumnWraps(v: nat, u: nat, k: int, w: nat)
    requires v < B && u < B && 0 <= k <= 1 && B < w
    ensures v + u + k >= B ==> Wrap(v + u + k - B, w) == v + u + k - B <= v
    ensures v + u + k < B ==> v < Wrap(v + u + k - B, w) && Wrap(Wrap(v + u + k - B, w) + B, w) == v + u + k
  {
    var t := v + u + k;
    if t >= B {
      WrapIs(t - B, w, 0, t - B);
    } else {
      WrapIs(t - B, w, -1, t - B + w);
      WrapIs(t + w, w, 1, t);
    }
  }

  /** One column of a subtraction: v - u - k, compared with v. */
  method SubColumn(v: Limb, u: nat, k: int, w: nat) returns (x: Limb, k': int)
    requires 0 <= k <= 1 && u + k <= B < w
    ensures 0 <= k' <= 1 && x + (-k') * B == v - u - k && (k' == 1 <==> v < u + k)
  {
    hide Wrap;
    var a := Wrap(v - u - k, w);
    SubColumnWraps(v, u, k, w);
    k' := if a > v then 1 else 0;
    if k' == 1 {
      a := Wrap(a + B, w);
    }
    x := a;
  }

  lemma {:induction false} SubColumnWraps(v: nat, u: nat, k: int, w: nat)
    requires v < B && 0 <= k <= 1 && u + k <= B < w
    ensures v >= u + k ==> Wrap(v - u - k, w) == v - u - k <= v
    ensures v < u + k ==> v < Wrap(v - u - k, w) && Wrap(Wrap(v - u - k, w) + B, w) == v - u - k + B
  {
    var t := v - u - k;
    if t >= 0 {
      WrapIs(t, w, 0, t);
    } else {
      WrapIs(t, w, -1, t + w);
      WrapIs(t + w + B, w, 1, t + B);
    }
  }

  /** mp_add_dec: res[] = op1[] + op2[] + carry; returns the carry out. */
  method MpAddDec(res: array<Limb>, ro: nat, op1: array<Limb>, o1: nat, op2: array<Limb>, o2: nat,
                  n: nat, carry: int, w: nat) returns (k: int)
    requires Readable(res, ro, op1, o1, n) && Readable(res, ro, op2, o2, n)
    requires 0 <= carry <= 1 && B < w
    modifies res
    ensures 0 <= k <= 1 && OnlyRange(res, ro, n)
    ensures Val(res[ro..ro + n]) + k * Pow(n) == old(Val(op1[o1..o1 + n])) + old(Val(op2[o2..o2 + n])) + carry
  {
    hide Val, Pow, Carried;
    ghost var s, t := op1[o1..o1 + n], op2[o2..o2 + n];
    k := carry;
    CarryStart(s, t, 1, carry);
    assert res[ro..ro] == [];
    for i := 0 to n
      invariant 0 <= k <= 1 && OnlyRange(res, ro, i)
      invariant forall j :: i <= j < n ==> op1[o1 + j] == s[j] && op2[o2 + j] == t[j]
      invariant Carried(res[ro..ro + i], k, s, t, 1, carry)
    {
      ghost var r, k0 := res[ro..ro + i], k;
      var x: Limb;
      x, k := AddColumn(op1[o1 + i], op2[o2 + i], k, w);
      CarryStep(r, x, k0, k, s, t, 1, carry);
      res[ro + i] := x;
      assert res[ro..ro + i + 1] == r + [x];
    }
    CarryEnd(res[ro..ro + n], k, s, t, 1, carry);
  }

  /** mp_sub_dec: res[] = op1[] - op2[] - carry; returns the borrow out. */
  method MpSubDec(res: array<Limb>, ro: nat, op1: array<Limb>, o1: nat, op2: array<Limb>, o2: nat,
                  n: nat, carry: int, w: nat) returns (k: int)
    requires Readable(res, ro, op1, o1, n) && Readable(res, ro, op2, o2, n)
    requires 0 <= carry <= 1 && B < w
    modifies res
    ensures 0 <= k <= 1 && OnlyRange(res, ro, n)
    ensures Val(res[ro..ro + n]) - k * Pow(n) == old(Val(op1[o1..o1 + n])) - old(Val(op2[o2..o2 + n])) - carry
  {
    hide Val, Pow, Carried;
    ghost var s, t := op1[o1..o1 + n], op2[o2..o2 + n];
    k := carry;
    CarryStart(s, t, -1, -carry);
    assert res[ro..ro] == [];
    for i := 0 to n
      invariant 0 <= k <= 1 && OnlyRange(res, ro, i)
      invariant forall j :: i <= j < n ==> op1[o1 + j] == s[j] && op2[o2 + j] == t[j]
      invariant Carried(res[ro..ro + i], -k, s, t, -1, -carry)
    {
      ghost var r, k0 := res[ro..ro + i], k;
      var x: Limb;
      x, k := SubColumn(op1[o1 + i], op2[o2 + i], k, w);
      CarryStep(r, x, -k0, -k, s, t, -1, -carry);
      res[ro + i] := x;
      assert res[ro..ro + i + 1] == r + [x];
    }
    BorrowEnd(res[ro..ro + n], k, s, t, 1, carry);
  }

  /**
  The machine under decimal limbs, and the constant for dividing by the radix: floor(w * part / B),
  where part is half of the word for 64 bits and an eighth of it for 32 bits.
  */
  datatype DecWord = Wide(w: nat, part: nat, inv: nat) | Narrow(w: nat, part: nat, inv: nat)

  ghost predicate DecOk(c: DecWord) {
    1 <= c.part < B < c.w && B * B <= c.w * c.part && 0 <= c.w * c.part - c.inv * B < B &&
    match c
    case Wide(w, part, _) => w == 2 * part && w % 2 == 0
    case Narrow(w, part, inv) => w == 8 * part && 2 * B <= w && (w * part - inv * B) * (B * B) <= (B - part) * (w * part)
  }

  lemma {:induction false} Dec64()
    requires B == 10_000_000_000_000_000_000
    ensures DecOk(Wide(0x1_0000_0000_0000_0000, 0x8000_0000_0000_0000, 17014118346046923173))
  {
  }

  lemma {:induction false} Dec32()
    requires B == 1_000_000_000
    ensures DecOk(Narrow(0x1_0000_0000, 0x2000_0000, 2305843009))
  {
  }

  /** The words of t shifted right by the bits of part: (t1 << s) | (t0 >> (LIMB_BITS - s)). */
  method ShiftedHigh(t: nat, w: nat, part: nat, m: nat) returns (x: nat, ghost rho: nat)
    requires m >= 1 && w == m * part && part >= 1 && t < w * part
    ensures t == x * part + rho && rho < part
  {
    var t1, t0 := DivRem(t, w);
    var h, g := DivRem(t0, part);
    x, rho := m * t1 + h, g;
    assert t1 * w == m * t1 * part by { MulAssoc(t1, m, part); }
    MulDist(m * t1, h, part);
  }

  /** The estimate of the quotient by the radix. */
  method BaseEstimate(t: nat, w: nat, part: nat, m: nat, inv: nat) returns (q: nat, ghost x: nat, ghost rho: nat, ghost tau: nat)
    requires m >= 1 && w == m * part && part >= 1 && t < w * part
    ensures t == x * part + rho && rho < part && x * inv == q * w + tau && tau < w
  {
    var y, rest := ShiftedHigh(t, w, part, m);
    var p, lo := DivRem(y * inv, w);
    q, x, rho, tau := p, y, rest, lo;
  }

  /** divdq_base for 64 bits: at most two corrections, without a branch. */
  method DivBaseWide(t: nat, c: DecWord) returns (q: nat, r: nat)
    requires c.Wide? && DecOk(c) && t < B * B
    ensures t == q * B + r && r < B
  {
    hide Wrap;
    var w := c.w;
    var q0, x, rho, tau := BaseEstimate(t, w, c.part, 2, c.inv);
    ModularReduction.EstimateBounds(t, B, c.part, w, x, rho, c.inv, w * c.part - c.inv * B, q0, tau);
    QuotientBelow(t, B, q0, w, c.part);
    var z: int := t - q0 * B - 2 * B;
    WideFits(w, B);
    var d := Wrap(z, w * w);
    SignWords(z, w, d);
    var a1, a0 := DivRem(d, w);
    HighIs(z, w, d, a1, a0);
    var t0 := ShiftSigned(a1, w);
    var q1 := Wrap(q0 + 2 + t0, w);
    if z >= 0 {
      QuotientReaches(t, q0, B);
    }
    MaskedQuotient(q0, t0, w, if z < 0 then 1 else 2);
    var d1 := Wrap(d + Masked(B, t0, w), w * w);
    ghost var z1: int := if z < 0 then z + B else z;
    AddsUp(z, w, d, Masked(B, t0, w), z1);
    var b1, b0 := DivRem(d1, w);
    HighIs(z1, w, d1, b1, b0);
    q := Wrap(q1 + b1, w);
    r := Wrap(b0 + Masked(B, b1, w), w);
    FinalWords(z1, q1, b1, b0, w);
    ghost var e := if z + B < 0 then 0 else if z < 0 then 1 else 2;
    assert q == q0 + e && r == z + (2 - e) * B;
    MulDist(q0, e, B);
  }

  /** (slimb_t)x >> 1 */
  function ShiftSigned(x: nat, w: nat): nat {
    if x < w / 2 then x / 2 else x / 2 + w / 2
  }

  /** m & mask, for a mask of equal bits. */
  function Masked(m: nat, mask: nat, w: nat): nat
    requires mask == 0 || mask == w - 1
  {
    if mask == 0 then 0 else m
  }

  lemma {:induction false} WideFits(w: nat, b: nat)
    requires b < w <= 2 * b
    ensures 2 * w <= w * w
  {
    MulMono(2, w, w);
  }

  lemma {:induction false} QuotientBelow(t: nat, b: nat, q: nat, w: nat, part: nat)
    requires t < b * b && part < b < w && q * b <= t
    ensures q < b
  {
    if q >= b {
      MulMono(b, q, b);
    }
  }

  /** The double word of a small signed number. */
  lemma {:induction false} SignWords(z: int, w: nat, d: nat)
    requires w >= 2 && 0 <= z + 2 * w < 3 * w && d == Wrap(z, w * w)
    ensures d == if z < 0 then z + w * w else z
  {
    MulMono(2, w, w);
    WrapIs(z, w * w, if z < 0 then -1 else 0, if z < 0 then z + w * w else z);
  }

  lemma {:induction false} HighIs(z: int, w: nat, d: nat, h: nat, l: nat)
    requires w >= 4 && w % 2 == 0 && 0 <= z + 2 * w < 3 * w && d == (if z < 0 then z + w * w else z) && d == h * w + l && l < w
    ensures h == (if z >= 0 then 0 else if z + w >= 0 then w - 1 else w - 2)
    ensures l == (if z >= 0 then z else if z + w >= 0 then z + w else z + 2 * w)
    ensures ShiftSigned(h, w) == if z < 0 then w - 1 else 0
  {
    MulDist(w, 1, w);
    MulDist(w, 2, w);
    if z >= 0 {
      DivUnique(h, l, 0, z, w);
    } else if z + w >= 0 {
      DivUnique(h, l, w - 1, z + w, w);
    } else {
      DivUnique(h, l, w - 2, z + 2 * w, w);
    }
  }

  lemma {:induction false} QuotientReaches(t: nat, q: nat, b: nat)
    requires t < b * b && t - q * b - 2 * b >= 0
    ensures q + 2 < b
  {
    MulDist(q, 2, b);
    if q + 2 >= b {
      MulMono(b, q + 2, b);
    }
  }

  lemma {:induction false} MaskedQuotient(q: nat, mask: nat, w: nat, e: nat)
    requires 1 <= e <= 2 && mask == (if e == 1 then w - 1 else 0) && q + e < w
    ensures Wrap(q + 2 + mask, w) == q + e
  {
    WrapIs(q + 2 + mask, w, if e == 1 then 1 else 0, q + e);
  }

  lemma {:induction false} AddsUp(z: int, w: nat, d: nat, m: nat, z1: int)
    requires w >= 2 && d == (if z < 0 then z + w * w else z) && z1 == z + m && 0 <= z1 + 2 * w < 3 * w && 0 <= z + 2 * w
    ensures Wrap(d + m, w * w) == if z1 < 0 then z1 + w * w else z1
  {
    MulMono(2, w, w);
    if z1 < 0 {
      WrapIs(d + m, w * w, 0, z1 + w * w);
    } else {
      WrapIs(d + m, w * w, if z < 0 then 1 else 0, z1);
    }
  }

  lemma {:induction false} FinalWords(z: int, q: nat, h: nat, l: nat, w: nat)
    requires 0 <= z + B < 2 * B && B < w && h == (if z < 0 then w - 1 else 0) && l == (if z < 0 then z + w else z) && 1 <= q < w
    ensures Wrap(q + h, w) == (if z < 0 then q - 1 else q) && Wrap(l + Masked(B, h, w), w) == (if z < 0 then z + B else z)
  {
    if z < 0 {
      WrapIs(q + h, w, 1, q - 1);
      WrapIs(l + B, w, 1, z + B);
    } else {
      WrapIs(q, w, 0, q);
      WrapIs(l, w, 0, z);
    }
  }

  /** divdq_base for 32 bits: one correction. */
  method DivBaseNarrow(t: nat, c: DecWord) returns (q: nat, r: nat)
    requires c.Narrow? && DecOk(c) && t < B * B
    ensures t == q * B + r && r < B
  {
    NarrowSizes(c, t);
    hide Wrap, DecOk;
    ghost var x: nat, rho: nat, tau: nat;
    q, x, rho, tau := BaseEstimate(t, c.w, c.part, 8, c.inv);
    NarrowEstimate(t, c, x, rho, q, tau);
    q, r := CorrectOnce(t, q, B, c.w);
  }

  /** The remainder from the low words, and one more divisor if it is too large. */
  method CorrectOnce(t: nat, q0: nat, b: nat, w: nat) returns (q: nat, r: nat)
    requires 0 <= t - q0 * b < 2 * b <= w
    ensures t == q * b + r && r < b
  {
    hide Wrap;
    q := q0;
    var y: nat := q0 * b;
    r := Wrap(Wrap(t, w) - y, w);
    LowWord(t, y, t - y, w);
    if r >= b {
      MulDist(q0, 1, b);
      q, r := q0 + 1, r - b;
    }
  }

  lemma {:induction false} NarrowSizes(c: DecWord, t: nat)
    requires c.Narrow? && DecOk(c) && t < B * B
    ensures c.part >= 1 && c.w == 8 * c.part && 2 * B <= c.w && t < c.w * c.part
  {
  }

  lemma {:induction false} NarrowEstimate(t: nat, c: DecWord, x: nat, rho: nat, q: nat, tau: nat)
    requires c.Narrow? && DecOk(c) && t < B * B && t == x * c.part + rho && rho < c.part && x * c.inv == q * c.w + tau && tau < c.w
    ensures 0 <= t - q * B < 2 * B
  {
    NarrowBounds(t, B, c.part, c.w, x, rho, c.inv, c.w * c.part - c.inv * B, q, tau);
  }

  lemma {:induction false} LowWord(t: nat, y: nat, z: int, w: nat)
    requires z == t - y && 0 <= z < w
    ensures Wrap(Wrap(t, w) - y, w) == z
  {
    var c, r := DivModOf(t, w);
    WrapIs(t, w, c, r);
    var e: int := c;
    MulDist(0, e, w);
    WrapIs(r - y, w, -e, z);
  }

  lemma {:induction false} DivModOf(t: nat, w: nat) returns (c: nat, r: nat)
    requires w >= 1
    ensures t == c * w + r && r < w
  {
    c, r := t / w, t % w;
  }

  lemma {:induction false} NarrowBounds(t: nat, b: nat, part: nat, w: nat, x: nat, rho: nat, inv: nat, sigma: nat, q: nat, tau: nat)
    requires w >= 1 && 1 <= part < b && t < b * b && t == x * part + rho && rho < part && w * part == inv * b + sigma
    requires x * inv == q * w + tau && tau < w && sigma * (b * b) <= (b - part) * (w * part)
    ensures 0 <= t - q * b < 2 * b
  {
    ModularReduction.Identity(t, b, part, w, x, rho, inv, sigma, q, tau);
    MulMono(0, rho, w);
    MulMono(0, x, sigma);
    MulMono(0, tau, b);
    MulMono(rho, part, w);
    MulStrict(tau, w, b);
    SmallError(t, b, part, w, x, rho, sigma);
    MulDist(b, part, w);
    ModularReduction.BothBounds(t - q * b, 2, b, w, rho * w + x * sigma + tau * b);
  }

  lemma {:induction false} SmallError(t: nat, b: nat, part: nat, w: nat, x: nat, rho: nat, sigma: nat)
    requires part >= 1 && t < b * b && t == x * part + rho && part <= b && sigma * (b * b) <= (b - part) * (w * part)
    ensures x * sigma <= (b - part) * w
  {
    MulMono(x * part, b * b, sigma);
    assert x * part * sigma == x * sigma * part by { MulAssoc(x, part, sigma); MulAssoc(x, sigma, part); }
    assert (b - part) * (w * part) == (b - part) * w * part by { MulAssoc(b - part, w, part); }
    if x * sigma > (b - part) * w {
      MulStrict((b - part) * w, x * sigma, part);
    }
  }

  /** The quotient and remainder of a double word below B^2 by the radix. */
  method DivBase(t: nat, c: DecWord) returns (q: Limb, r: Limb)
    requires DecOk(c) && t < B * B
    ensures t == q * B + r
  {
    var p, s;
    if c.Wide? {
      p, s := DivBaseWide(t, c);
    } else {
      p, s := DivBaseNarrow(t, c);
    }
    QuotientBound(t, B, B, p, s);
    q, r := p, s;
  }

  lemma {:induction false} WordAbove(c: DecWord)
    requires DecOk(c)
    ensures B < c.w
  {
  }

  /** mp_mul1_dec: tabr[] = taba[] * b + l; returns the high limb. */
  method MpMul1Dec(tabr: array<Limb>, ro: nat, taba: array<Limb>, ao: nat, n: nat, b: Limb, l: Limb, c: DecWord) returns (h: Limb)
    requires Readable(tabr, ro, taba, ao, n) && DecOk(c)
    modifies tabr
    ensures OnlyRange(tabr, ro, n)
    ensures Val(tabr[ro..ro + n]) + h * Pow(n) == old(Val(taba[ao..ao + n])) * b + l
  {
    hide Val, Pow, Carried, DecOk;
    ghost var z, s: seq<Limb> := seq(n, i => 0), taba[ao..ao + n];
    h := l;
    CarryStart(z, s, b, l);
    assert tabr[ro..ro] == [];
    for i := 0 to n
      invariant OnlyRange(tabr, ro, i)
      invariant forall j :: i <= j < n ==> taba[ao + j] == s[j]
      invariant Carried(tabr[ro..ro + i], h, z, s, b, l)
    {
      ghost var r, h0 := tabr[ro..ro + i], h;
      MulFits(taba[ao + i], b, h, 0);
      var x: Limb;
      h, x := DivBase(taba[ao + i] * b + h, c);
      CarryStep(r, x, h0, h, z, s, b, l);
      tabr[ro + i] := x;
      assert tabr[ro..ro + i + 1] == r + [x];
    }
    CarryEnd(tabr[ro..ro + n], h, z, s, b, l);
    ValZeros(z);
  }

  /** One column of a multiply-and-subtract: the carry stays below the radix, because r is zero when l is B - 1. */
  method SubMulColumn(v: Limb, x: Limb, b: Limb, l: Limb, c: DecWord) returns (a: Limb, h: Limb)
    requires DecOk(c)
    ensures a + (0 - h) * B == v + (0 - b) * x + (0 - l)
  {
    hide DecOk;
    MulFits(x, b, l, 0);
    ProductBound(x, b, l);
    var l1, r := DivBase(x * b + l, c);
    WordAbove(c);
    var k;
    a, k := SubColumn(v, r, 0, c.w);
    CarryBelow(x * b + l, l1, r, B);
    h := l1 + k;
  }

  lemma {:induction false} CarryBelow(t: nat, q: nat, r: nat, b: nat)
    requires t <= (b - 1) * b && t == q * b + r && r < b && b >= 1
    ensures q <= b - 1 && (q == b - 1 ==> r == 0)
  {
    if q >= b {
      MulMono(b, q, b);
      MulDist(b, 1, b);
    }
  }

  /** mp_sub_mul1_dec: tabr[] -= taba[] * b; returns the value to subtract from the high limb. */
  method MpSubMul1Dec(tabr: array<Limb>, ro: nat, taba: array<Limb>, ao: nat, n: nat, b: Limb, c: DecWord) returns (l: Limb)
    requires Readable(tabr, ro, taba, ao, n) && DecOk(c)
    modifies tabr
    ensures OnlyRange(tabr, ro, n)
    ensures Val(tabr[ro..ro + n]) - l * Pow(n) == old(Val(tabr[ro..ro + n])) - old(Val(taba[ao..ao + n])) * b
  {
    hide Val, Pow, Carried, DecOk;
    ghost var z, s := tabr[ro..ro + n], taba[ao..ao + n];
    l := 0;
    CarryStart(z, s, 0 - b, 0);
    assert tabr[ro..ro] == [];
    for i := 0 to n
      invariant OnlyRange(tabr, ro, i)
      invariant forall j :: i <= j < n ==> taba[ao + j] == s[j]
      invariant Carried(tabr[ro..ro + i], 0 - l, z, s, 0 - b, 0)
    {
      ghost var r, l0: int := tabr[ro..ro + i], l;
      var x: Limb;
      x, l := SubMulColumn(tabr[ro + i], taba[ao + i], b, l, c);
      CarryStep(r, x, 0 - l0, 0 - l, z, s, 0 - b, 0);
      tabr[ro + i] := x;
      assert tabr[ro..ro + i + 1] == r + [x];
    }
    BorrowEnd(tabr[ro..ro + n], l, z, s, b, 0);
  }
}
