/** Convolutions of digit vectors, and the digit size that keeps their coefficients below the moduli. */
module NttSizes {
  import opened Arith
  import opened Limbs
  import opened RoundSpec
  import opened LimbBits
  import opened RadixConversion
  import opened ModularReduction
  import opened NttReconstruction

  function At(a: seq<nat>, k: int): nat {
    if 0 <= k < |a| then a[k] else 0
  }

  /** Coefficient i of the product of two polynomials: the sum of a[i - j] * b[j]. */
  ghost function Coef(a: seq<nat>, b: seq<nat>, i: nat): nat {
    if b == [] then 0 else Coef(a, b[..|b| - 1], i) + At(a, i - (|b| - 1)) * b[|b| - 1]
  }

  ghost function CoefSeq(a: seq<nat>, b: seq<nat>, n: nat): (s: seq<nat>)
    ensures |s| == n
  {
    seq(n, i requires 0 <= i < n => Coef(a, b, i))
  }

  ghost function Moved(a: seq<nat>, x: nat, k: nat, n: nat): (s: seq<nat>)
    ensures |s| == n && forall i :: 0 <= i < n ==> s[i] == At(a, i - k) * x
  {
    if n == 0 then [] else Moved(a, x, k, n - 1) + [At(a, n - 1 - k) * x]
  }

  lemma {:induction false} WeighPlus(s: seq<nat>, t: seq<nat>, u: seq<nat>, d: nat)
    requires d >= 1 && |s| == |t| == |u| && forall i :: 0 <= i < |s| ==> u[i] == s[i] + t[i]
    ensures Weigh(u, d) == Weigh(s, d) + Weigh(t, d)
  {
    if |s| > 0 {
      var n := |s| - 1;
      WeighPlus(s[..n], t[..n], u[..n], d);
      MulDist(s[n], t[n], PowL(d, n));
    }
  }

  lemma {:induction false} WeighTimes(s: seq<nat>, x: nat, u: seq<nat>, d: nat)
    requires d >= 1 && |s| == |u| && forall i :: 0 <= i < |s| ==> u[i] == s[i] * x
    ensures Weigh(u, d) == Weigh(s, d) * x
  {
    if |s| > 0 {
      var n := |s| - 1;
      WeighTimes(s[..n], x, u[..n], d);
      MulDist(Weigh(s[..n], d), s[n] * PowL(d, n), x);
      assert s[n] * x * PowL(d, n) == s[n] * PowL(d, n) * x by { MulAssoc(s[n], x, PowL(d, n)); MulAssoc(s[n], PowL(d, n), x); }
    }
  }

  lemma {:induction false} WeighZero(s: seq<nat>, d: nat)
    requires d >= 1 && forall i :: 0 <= i < |s| ==> s[i] == 0
    ensures Weigh(s, d) == 0
  {
    if |s| > 0 {
      WeighZero(s[..|s| - 1], d);
    }
  }

  /** A vector moved up by k places and multiplied by x. */
  lemma {:induction false} WeighShifted(a: seq<nat>, x: nat, k: nat, t: seq<nat>, d: nat)
    requires d >= 1 && |t| >= |a| + k && forall i :: 0 <= i < |t| ==> t[i] == At(a, i - k) * x
    ensures Weigh(t, d) == Weigh(a, d) * (x * PowL(d, k))
  {
    hide Weigh, PowL;
    var lo, mid, hi := t[..k], t[k..k + |a|], t[k + |a|..];
    assert t == lo + (mid + hi);
    WeighConcat(lo, mid + hi, d);
    WeighConcat(mid, hi, d);
    WeighZero(lo, d);
    WeighZero(hi, d);
    WeighTimes(a, x, mid, d);
    assert PowL(d, k) * (Weigh(a, d) * x) == Weigh(a, d) * (x * PowL(d, k)) by { MulAssoc(Weigh(a, d), x, PowL(d, k)); }
  }

  /** The coefficients weigh as much as the product: nothing wraps around in n places. */
  lemma {:induction false} ConvolutionIsProduct(a: seq<nat>, b: seq<nat>, n: nat, d: nat)
    requires d >= 1 && n + 1 >= |a| + |b|
    ensures Weigh(CoefSeq(a, b, n), d) == Weigh(a, d) * Weigh(b, d)
    decreases |b|
  {
    hide Weigh, PowL;
    var u := CoefSeq(a, b, n);
    if b == [] {
      WeighZero(u, d);
      WeighZero(b, d);
    } else {
      var m := |b| - 1;
      var b', x := b[..m], b[m];
      ConvolutionIsProduct(a, b', n, d);
      var t := Moved(a, x, m, n);
      WeighShifted(a, x, m, t, d);
      WeighPlus(CoefSeq(a, b', n), t, u, d);
      assert b == b' + [x];
      WeighConcat(b', [x], d);
      WeighOne(x, d);
      assert PowL(d, m) * x == x * PowL(d, m);
      MulDist(Weigh(b', d), x * PowL(d, m), Weigh(a, d));
    }
  }

  /** Coefficients of digits below d are below |b| * d * d. */
  lemma {:induction false} CoefBound(a: seq<nat>, b: seq<nat>, i: nat, d: nat)
    requires d >= 1 && DigitsOk(a, d) && DigitsOk(b, d)
    ensures Coef(a, b, i) <= |b| * ((d - 1) * (d - 1))
  {
    if b != [] {
      var m := |b| - 1;
      CoefBound(a, b[..m], i, d);
      var x, y := At(a, i - m), b[m];
      MulMono(x, d - 1, y);
      MulMono(y, d - 1, d - 1);
      MulDist(m, 1, (d - 1) * (d - 1));
    }
  }

  /** The parameters of the transform for a limb size. */
  datatype NttConfig = NttConfig(limbBits: nat, modMin: nat, modMax: nat, rootLog2: nat, intBits: seq<nat>, mods: seq<nat>, cr: seq<nat>)

  /** Digit bits, number of moduli and logarithm of the length of the transform. */
  datatype FftSize = FftSize(dpl: nat, nbMods: nat, log2: nat)

  /** Enough places for the product, and coefficients within the bits of the moduli. */
  ghost predicate SizeOk(c: NttConfig, f: FftSize, len: nat) {
    1 <= f.dpl <= 2 * c.limbBits + 2 * c.modMin - c.modMax && 3 <= f.nbMods <= 5 && |c.intBits| == 5 && f.log2 <= c.rootLog2 &&
    f.dpl * Pow2(f.log2) >= len * c.limbBits && f.log2 + 2 * f.dpl <= c.intBits[5 - f.nbMods]
  }

  /** (len * LIMB_BITS + dpl - 1) / dpl places of dpl bits. */
  method Places(bits: nat, dpl: nat) returns (n: nat)
    requires dpl >= 1
    ensures n * dpl >= bits && (n >= 1 ==> (n - 1) * dpl < bits)
  {
    n := (bits + dpl - 1) / dpl;
    var q, r := DivMod(bits + dpl - 1, dpl);
    DivUnique(n, (bits + dpl - 1) % dpl, q, r, dpl);
    MulDist(q, 1, dpl);
  }

  /** A size open to the search: it fits, and the digits leave four bits of the moduli. */
  ghost predicate Eligible(c: NttConfig, g: FftSize, len: nat) {
    SizeOk(c, g, len) && 2 * g.dpl + 4 <= c.intBits[5 - g.nbMods]
  }

  /** The cost that the search compares. */
  function Cost(f: FftSize): nat {
    (f.log2 + 1) * Pow2(f.log2) * f.nbMods
  }

  /** Smaller digits do not need a shorter transform than k, if n places of dpl bits need 2^k. */
  lemma {:induction false} LongEnough(bits: nat, dpl: nat, n: nat, k: nat, dpl': nat, k': nat)
    requires n >= 1 && (n - 1) * dpl < bits && (k > 0 ==> Pow2(k - 1) < n) && dpl' <= dpl && dpl' * Pow2(k') >= bits
    ensures k' >= k
  {
    hide Pow2;
    if k' < k {
      Pow2Mono(k', k - 1);
      MulMono(dpl', dpl, Pow2(k'));
      MulMono(Pow2(k'), n - 1, dpl);
      assert false;
    }
  }

  lemma {:induction false} CostMono(f: FftSize, g: FftSize)
    requires f.nbMods == g.nbMods && f.log2 <= g.log2
    ensures Cost(f) <= Cost(g)
  {
    hide Pow2;
    Pow2Mono(f.log2, g.log2);
    MulMono(f.log2 + 1, g.log2 + 1, Pow2(f.log2));
    MulMono(Pow2(f.log2), Pow2(g.log2), g.log2 + 1);
    MulMono((f.log2 + 1) * Pow2(f.log2), (g.log2 + 1) * Pow2(g.log2), f.nbMods);
  }

  /** No eligible size with this number of moduli has digits of more than dpl bits. */
  ghost predicate NoneAbove(c: NttConfig, nbMods: nat, len: nat, dpl: int) {
    forall g: FftSize :: Eligible(c, g, len) && g.nbMods == nbMods ==> g.dpl <= dpl
  }

  /** What one number of moduli gives: the cheapest eligible size with it, if there is any. */
  ghost predicate BestFor(c: NttConfig, nbMods: nat, len: nat, found: bool, f: FftSize) {
    (found ==> Eligible(c, f, len) && f.nbMods == nbMods) &&
    forall g: FftSize :: Eligible(c, g, len) && g.nbMods == nbMods ==> found && Cost(f) <= Cost(g)
  }

  /** For one number of moduli: the largest digit size that fits, which is the cheapest. */
  method TryMods(c: NttConfig, nbMods: nat, len: nat) returns (found: bool, f: FftSize)
    requires 3 <= nbMods <= 5 && |c.intBits| == 5 && len >= 1 && c.limbBits >= 1
    ensures BestFor(c, nbMods, len, found, f)
  {
    hide Cost, Pow2;
    var bits: int := c.intBits[5 - nbMods];
    var dpl: int := Smaller((bits - 4) / 2, 2 * c.limbBits + 2 * c.modMin - c.modMax);
    found, f := false, FftSize(1, nbMods, 0);
    while dpl >= 1
      invariant dpl <= 2 * c.limbBits + 2 * c.modMin - c.modMax && 2 * dpl + 4 <= bits
      invariant NoneAbove(c, nbMods, len, dpl)
      decreases dpl
    {
      var n := Places(len * c.limbBits, dpl);
      if n == 0 {
        MulMono(1, len, c.limbBits);
        assert false;
      }
      var k := CeilLog2(n);
      forall g: FftSize | Eligible(c, g, len) && g.nbMods == nbMods
        ensures g.log2 >= k
      {
        LongEnough(len * c.limbBits, dpl, n, k, g.dpl, g.log2);
      }
      if k > c.rootLog2 {
        return;
      }
      if k + 2 * dpl <= bits {
        found, f := true, FftSize(dpl, nbMods, k);
        MulMono(n, Pow2(k), dpl);
        forall g: FftSize | Eligible(c, g, len) && g.nbMods == nbMods
          ensures Cost(f) <= Cost(g)
        {
          CostMono(f, g);
        }
        return;
      }
      dpl := dpl - 1;
    }
  }

  function Smaller(x: int, y: int): int {
    if x <= y then x else y
  }

  /** The cheapest of the eligible sizes with less than lim moduli. */
  ghost predicate BestBelow(c: NttConfig, lim: nat, len: nat, found: bool, f: FftSize) {
    (found ==> Eligible(c, f, len)) &&
    forall g: FftSize :: Eligible(c, g, len) && g.nbMods < lim ==> found && Cost(f) <= Cost(g)
  }

  /** No eligible size costs less, counting a butterfly for each place, level and modulus. */
  ghost predicate Cheapest(c: NttConfig, f: FftSize, len: nat) {
    forall g: FftSize :: Eligible(c, g, len) ==> (f.log2 + 1) * Pow2(f.log2) * f.nbMods <= (g.log2 + 1) * Pow2(g.log2) * g.nbMods
  }

  /** bf_get_fft_size: the cheapest of the sizes that fit, found exactly if there is one. */
  method GetFftSize(c: NttConfig, len: nat) returns (found: bool, f: FftSize)
    requires |c.intBits| == 5 && len >= 1 && c.limbBits >= 1
    ensures found ==> SizeOk(c, f, len)
    ensures found <==> exists g: FftSize :: Eligible(c, g, len)
    ensures Cheapest(c, f, len)
  {
    hide Cost, Pow2;
    found, f := false, FftSize(1, 4, 0);
    var minCost := 0;
    for nbMods := 3 to 6
      invariant BestBelow(c, nbMods, len, found, f) && (found ==> minCost == Cost(f))
    {
      var ok, g := TryMods(c, nbMods, len);
      if ok {
        var cost := Cost(g);
        if !found || cost < minCost {
          found, f, minCost := true, g, cost;
        }
      }
    }
    ghost var f0 := f;
    assert BestBelow(c, 6, len, found, f0);
    SameCost(f0, c.limbBits + c.modMin);
    if found && f.dpl > c.limbBits + c.modMin && (c.limbBits + c.modMin) * Pow2(f.log2) >= len * c.limbBits {
      SmallerDigits(c, f, len);
      f := f.(dpl := c.limbBits + c.modMin);
    }
    forall g: FftSize | Eligible(c, g, len)
      ensures (f.log2 + 1) * Pow2(f.log2) * f.nbMods <= (g.log2 + 1) * Pow2(g.log2) * g.nbMods
    {
      assert Cost(f0) <= Cost(g);
      CostIs(f);
      CostIs(g);
    }
  }

  lemma {:induction false} CostIs(f: FftSize)
    ensures Cost(f) == (f.log2 + 1) * Pow2(f.log2) * f.nbMods
  {
  }

  lemma {:induction false} SameCost(f: FftSize, dpl: nat)
    ensures Cost(f.(dpl := dpl)) == Cost(f)
  {
  }

  /** A length in limbs has an eligible size exactly up to twice the longest transform. */
  lemma {:induction false} Reach(c: NttConfig, len: nat)
    requires c == CONFIG_64 || c == CONFIG_32
    ensures (exists g: FftSize :: Eligible(c, g, len)) <==> len <= Pow2(c.rootLog2 + 1)
  {
    hide Pow2;
    var lb, r := c.limbBits, c.rootLog2;
    Doubled(r + 1);
    if len <= Pow2(r + 1) {
      MulMono(len, Pow2(r + 1), lb);
      MulAssoc(2, Pow2(r), lb);
      MulAssoc(Pow2(r), 2, lb);
      var g := FftSize(2 * lb, 5, r);
      assert g.dpl * Pow2(g.log2) == Pow2(r + 1) * lb;
      assert Eligible(c, g, len);
    }
    forall g: FftSize | Eligible(c, g, len)
      ensures len <= Pow2(r + 1)
    {
      Capacity(c, g);
      if len > Pow2(r + 1) {
        MulStrict(Pow2(r + 1), len, lb);
        assert false;
      }
    }
  }

  lemma {:induction false} Doubled(k: nat)
    requires k >= 1
    ensures Pow2(k) == 2 * Pow2(k - 1)
  {
  }

  /** The digits of an eligible size hold at most twice the largest transform, in limbs. */
  lemma {:induction false} Capacity(c: NttConfig, g: FftSize)
    requires c == CONFIG_64 || c == CONFIG_32
    requires 3 <= g.nbMods <= 5 && g.log2 <= c.rootLog2 && g.log2 + 2 * g.dpl <= c.intBits[5 - g.nbMods] && 2 * g.dpl + 4 <= c.intBits[5 - g.nbMods]
    ensures g.dpl * Pow2(g.log2) <= Pow2(c.rootLog2 + 1) * c.limbBits
  {
    hide Pow2;
    var lb, r := c.limbBits, c.rootLog2;
    var p := Pow2(r);
    Doubled(r + 1);
    MulAssoc(p, 2, lb);
    assert c.intBits[5 - g.nbMods] <= c.intBits[0];
    if g.log2 == r {
      MulMono(g.dpl, 2 * lb, p);
    } else {
      Doubled(r);
      Pow2Mono(g.log2, r - 1);
      MulMono(Pow2(g.log2), Pow2(r - 1), g.dpl);
      MulMono(g.dpl, 4 * lb, Pow2(r - 1));
      MulAssoc(Pow2(r - 1), 4, lb);
    }
  }

  lemma {:induction false} SmallerDigits(c: NttConfig, f: FftSize, len: nat)
    requires SizeOk(c, f, len) && f.dpl > c.limbBits + c.modMin >= 1
    requires (c.limbBits + c.modMin) * Pow2(f.log2) >= len * c.limbBits
    ensures SizeOk(c, f.(dpl := c.limbBits + c.modMin), len)
  {
  }

  /** Both operands together have at most one place more than the transform: the product does not wrap around. */
  lemma {:induction false} NoWrapAround(la: nat, lb: nat, dpl: nat, na: nat, nb: nat, n: nat)
    requires dpl >= 1 && n * dpl >= la + lb
    requires na >= 1 ==> (na - 1) * dpl < la
    requires nb >= 1 ==> (nb - 1) * dpl < lb
    ensures na + nb <= n + 1
  {
    if na >= 1 && nb >= 1 {
      MulDist(na - 1, nb - 1, dpl);
      MulCancel(na - 1 + (nb - 1), n, dpl);
    } else if na >= 1 {
      MulCancel(na - 1, n, dpl);
    } else if nb >= 1 {
      MulCancel(nb - 1, n, dpl);
    }
  }

  /** With a size that fits, every coefficient is below 2^intBits. */
  lemma {:induction false} CoefFits(c: NttConfig, f: FftSize, len: nat, a: seq<nat>, b: seq<nat>, i: nat)
    requires SizeOk(c, f, len) && DigitsOk(a, Pow2(f.dpl)) && DigitsOk(b, Pow2(f.dpl)) && |b| <= Pow2(f.log2)
    ensures Coef(a, b, i) < Pow2(c.intBits[5 - f.nbMods])
  {
    hide Pow2;
    var d, t := Pow2(f.dpl), Pow2(f.log2);
    CoefBound(a, b, i, d);
    SquareBound(|b|, t, d);
    Pow2Add(f.dpl, f.dpl);
    Pow2Add(f.log2, 2 * f.dpl);
    Pow2Mono(f.log2 + 2 * f.dpl, c.intBits[5 - f.nbMods]);
  }

  lemma {:induction false} SquareBound(n: nat, t: nat, d: nat)
    requires n <= t && t >= 1 && d >= 1
    ensures n * ((d - 1) * (d - 1)) < t * (d * d)
  {
    MulMono(n, t, (d - 1) * (d - 1));
    MulMono(d - 1, d, d - 1);
    MulStrict(d - 1, d, d);
    MulStrict((d - 1) * (d - 1), d * d, t);
  }

  const CONFIG_64: NttConfig := NttConfig(
    64, 61, 62, 51, [307, 246, 185, 123, 61],
    [0x28d8000000000001, 0x2a88000000000001, 0x2ed8000000000001, 0x3508000000000001, 0x3aa8000000000001],
    [0x8a9ed097b425eea, 0x18a44aaaaaaaaab3, 0x2493f57f57f57f5d, 0x126b8d0649a7f8d4,
     0x9d80ed7303b5ccc, 0x25b8bcf3cf3cf3d5, 0x2ce6ce63398ce638,
     0xe31fad40a57eb59, 0x2a3529fd4a7f52f,
     0x3a5493e93e93e94a])

  const CONFIG_32: NttConfig := NttConfig(
    32, 29, 30, 20, [148, 119, 89, 59, 29],
    [0x32b00001, 0x33700001, 0x36d00001, 0x37300001, 0x3e500001],
    [0x449559a, 0x1eba6ca9, 0x2ec18e46, 0x860160b,
     0xd321307, 0xbf51120, 0xf662938,
     0x932ab3e, 0x2f40eef8,
     0x2e760905])

  /** The moduli in use are the last ones, and so are their inverses. */
  function ModsFor(c: NttConfig, nb: nat): seq<nat>
    requires |c.mods| == 5 && nb <= 5
  {
    c.mods[5 - nb..]
  }

  function InversesFor(c: NttConfig, nb: nat): seq<nat>
    requires |c.cr| == 10 && 3 <= nb <= 5
  {
    c.cr[10 - nb * (nb - 1) / 2..]
  }

  /** The tables: increasing moduli, inverses, room for 2^intBits below their product, and for the product in the limbs. */
  ghost predicate TablesOk(c: NttConfig, nb: nat)
    requires |c.mods| == 5 && |c.cr| == 10 && |c.intBits| == 5 && 3 <= nb <= 5
  {
    ModsOk(ModsFor(c, nb)) && InversesOk(InversesFor(c, nb), ModsFor(c, nb)) &&
    Pow2(c.intBits[5 - nb]) <= Prod(ModsFor(c, nb)) && 2 * Prod(ModsFor(c, nb)) <= Pow2(c.limbBits * nb)
  }

  lemma {:induction false} ProdOf(m: seq<nat>)
    ensures |m| == 3 ==> Prod(m) == m[0] * (m[1] * m[2])
    ensures |m| == 4 ==> Prod(m) == m[0] * (m[1] * (m[2] * m[3]))
    ensures |m| == 5 ==> Prod(m) == m[0] * (m[1] * (m[2] * (m[3] * m[4])))
  {
    if 3 <= |m| <= 5 {
      assert Prod(m) == m[0] * Prod(m[1..]) && Prod(m[1..]) == m[1] * Prod(m[2..]) && Prod(m[2..]) == m[2] * Prod(m[3..]) by {
        assert m[1..][1..] == m[2..] && m[2..][1..] == m[3..];
      }
      assert m[3..] == [] || Prod(m[3..]) == m[3] * Prod(m[4..]) by {
        if |m| > 3 {
          assert m[3..][1..] == m[4..];
        }
      }
      assert |m| <= 4 || Prod(m[4..]) == m[4] * Prod(m[5..]) by {
        if |m| == 5 {
          assert m[4..][1..] == m[5..];
        }
      }
    }
  }

  lemma {:induction false} PairIndices(n: nat)
    requires 3 <= n <= 5
    ensures PairIndex(0, n) == 0 && PairIndex(1, n) == n - 1 && PairIndex(2, n) == 2 * n - 3
    ensures n >= 4 ==> PairIndex(3, n) == 3 * n - 6
  {
    assert PairIndex(1, n) == PairIndex(0, n) + (n - 1);
    assert PairIndex(2, n) == PairIndex(1, n) + (n - 2);
    if n >= 4 {
      assert PairIndex(3, n) == PairIndex(2, n) + (n - 3);
    }
  }

  lemma {:induction false} SmallPowers()
    ensures Pow2(1) == 2 && Pow2(2) == 4 && Pow2(4) == 16
  {
    assert Pow2(0) == 1;
    assert Pow2(1) == 2 * Pow2(0) && Pow2(2) == 2 * Pow2(1) && Pow2(3) == 2 * Pow2(2) && Pow2(4) == 2 * Pow2(3);
  }

  lemma {:induction false} Powers64()
    ensures Pow2(64) == 0x10000000000000000
    ensures Pow2(185) == 0x20000000000000000000000000000000000000000000000
    ensures Pow2(246) == 0x40000000000000000000000000000000000000000000000000000000000000
    ensures Pow2(307) == 0x80000000000000000000000000000000000000000000000000000000000000000000000000000
    ensures Pow2(192) == 0x1000000000000000000000000000000000000000000000000
    ensures Pow2(256) == 0x10000000000000000000000000000000000000000000000000000000000000000
    ensures Pow2(320) == 0x100000000000000000000000000000000000000000000000000000000000000000000000000000000
  {
    SmallPowers();
    hide Pow2;
    Pow2Add(4, 4);
    Pow2Add(8, 8);
    Pow2Add(16, 16);
    Pow2Add(32, 32);
    Pow2Add(64, 64);
    Pow2Add(128, 128);
    Pow2Add(128, 32);
    Pow2Add(160, 16);
    Pow2Add(176, 8);
    Pow2Add(184, 1);
    Pow2Add(128, 64);
    Pow2Add(192, 32);
    Pow2Add(224, 16);
    Pow2Add(240, 4);
    Pow2Add(244, 2);
    Pow2Add(256, 32);
    Pow2Add(288, 16);
    Pow2Add(304, 2);
    Pow2Add(306, 1);
    Pow2Add(128, 64);
    Pow2Add(256, 64);
  }

  lemma {:induction false} Powers32()
    ensures Pow2(32) == 0x100000000
    ensures Pow2(89) == 0x20000000000000000000000
    ensures Pow2(119) == 0x800000000000000000000000000000
    ensures Pow2(148) == 0x10000000000000000000000000000000000000
    ensures Pow2(96) == 0x1000000000000000000000000
    ensures Pow2(128) == 0x100000000000000000000000000000000
    ensures Pow2(160) == 0x10000000000000000000000000000000000000000
  {
    SmallPowers();
    hide Pow2;
    Pow2Add(4, 4);
    Pow2Add(8, 8);
    Pow2Add(16, 16);
    Pow2Add(32, 32);
    Pow2Add(64, 64);
    Pow2Add(64, 16);
    Pow2Add(80, 8);
    Pow2Add(88, 1);
    Pow2Add(64, 32);
    Pow2Add(96, 16);
    Pow2Add(112, 4);
    Pow2Add(116, 2);
    Pow2Add(118, 1);
    Pow2Add(128, 16);
    Pow2Add(144, 4);
    Pow2Add(64, 32);
    Pow2Add(128, 32);
  }

  /** The inverses for the last nb moduli are the last constants. */
  lemma {:induction false} LastInverses(c: NttConfig, nb: nat)
    requires |c.mods| == 5 && |c.cr| == 10 && 3 <= nb <= 5
    requires forall j: nat, k: nat :: j < k < 5 ==> InverseOk(c.cr, c.mods, j, k)
    ensures InversesOk(InversesFor(c, nb), ModsFor(c, nb))
  {
    PairIndices(5);
    PairIndices(nb);
    hide Mod, PairIndex;
    var t, m, cr := 5 - nb, ModsFor(c, nb), InversesFor(c, nb);
    forall j, k | 0 <= j < k < nb
      ensures InverseOk(cr, m, j, k)
    {
      assert InverseOk(c.cr, c.mods, j + t, k + t);
      assert m[j] == c.mods[j + t] && m[k] == c.mods[k + t];
      assert j == 0 || j == 1 || j == 2 || j == 3;
    }
  }

  lemma {:induction false} TablesFrom(c: NttConfig, nb: nat)
    requires |c.mods| == 5 && |c.cr| == 10 && |c.intBits| == 5 && 3 <= nb <= 5 && ModsOk(c.mods)
    requires forall j: nat, k: nat :: j < k < 5 ==> InverseOk(c.cr, c.mods, j, k)
    requires Pow2(c.intBits[5 - nb]) <= Prod(ModsFor(c, nb)) && 2 * Prod(ModsFor(c, nb)) <= Pow2(c.limbBits * nb)
    ensures TablesOk(c, nb)
  {
    hide InverseOk, Prod, Pow2;
    LastInverses(c, nb);
  }

  lemma {:induction false} Inverses64(j: nat, k: nat)
    requires j < k < 5
    ensures InverseOk(CONFIG_64.cr, CONFIG_64.mods, j, k)
  {
    assert Mod(0x8a9ed097b425eea * 0x28d8000000000001, 0x2a88000000000001) == 1;
    assert Mod(0x18a44aaaaaaaaab3 * 0x28d8000000000001, 0x2ed8000000000001) == 1;
    assert Mod(0x2493f57f57f57f5d * 0x28d8000000000001, 0x3508000000000001) == 1;
    assert Mod(0x126b8d0649a7f8d4 * 0x28d8000000000001, 0x3aa8000000000001) == 1;
    assert Mod(0x9d80ed7303b5ccc * 0x2a88000000000001, 0x2ed8000000000001) == 1;
    assert Mod(0x25b8bcf3cf3cf3d5 * 0x2a88000000000001, 0x3508000000000001) == 1;
    assert Mod(0x2ce6ce63398ce638 * 0x2a88000000000001, 0x3aa8000000000001) == 1;
    assert Mod(0xe31fad40a57eb59 * 0x2ed8000000000001, 0x3508000000000001) == 1;
    assert Mod(0x2a3529fd4a7f52f * 0x2ed8000000000001, 0x3aa8000000000001) == 1;
    assert Mod(0x3a5493e93e93e94a * 0x3508000000000001, 0x3aa8000000000001) == 1;
    PairIndices(5);
    hide Mod, PairIndex;
    assert j == 0 || j == 1 || j == 2 || j == 3;
    assert k == 1 || k == 2 || k == 3 || k == 4;
  }

  lemma {:induction false} Tables64(nb: nat)
    requires Binary(64) && 3 <= nb <= 5
    ensures TablesOk(CONFIG_64, nb)
  {
    Sizes64();
    hide InverseOk, Prod, Pow2, CONFIG_64, TablesOk, ModsFor;
    forall j: nat, k: nat | j < k < 5
      ensures InverseOk(CONFIG_64.cr, CONFIG_64.mods, j, k)
    {
      Inverses64(j, k);
    }
    Products64(nb);
    TablesFrom(CONFIG_64, nb);
  }

  lemma {:induction false} Sizes64()
    requires Binary(64)
    ensures |CONFIG_64.mods| == 5 && |CONFIG_64.cr| == 10 && |CONFIG_64.intBits| == 5 && CONFIG_64.limbBits == 64
    ensures ModsOk(CONFIG_64.mods)
  {
    Powers64();
    hide Pow2;
    var m := CONFIG_64.mods;
    assert 2 * m[4] <= B;
    assert 2 <= m[0] < m[1] < m[2] < m[3] < m[4];
  }

  lemma {:induction false} Products64(nb: nat)
    requires 3 <= nb <= 5
    ensures var m := ModsFor(CONFIG_64, nb);
            Pow2(CONFIG_64.intBits[5 - nb]) <= Prod(m) && 2 * Prod(m) <= Pow2(64 * nb)
  {
    Powers64();
    ProdOf(ModsFor(CONFIG_64, nb));
    hide Pow2, Prod;
    assert nb == 3 || nb == 4 || nb == 5;
  }

  lemma {:induction false} Inverses32(j: nat, k: nat)
    requires j < k < 5
    ensures InverseOk(CONFIG_32.cr, CONFIG_32.mods, j, k)
  {
    assert Mod(0x449559a * 0x32b00001, 0x33700001) == 1;
    assert Mod(0x1eba6ca9 * 0x32b00001, 0x36d00001) == 1;
    assert Mod(0x2ec18e46 * 0x32b00001, 0x37300001) == 1;
    assert Mod(0x860160b * 0x32b00001, 0x3e500001) == 1;
    assert Mod(0xd321307 * 0x33700001, 0x36d00001) == 1;
    assert Mod(0xbf51120 * 0x33700001, 0x37300001) == 1;
    assert Mod(0xf662938 * 0x33700001, 0x3e500001) == 1;
    assert Mod(0x932ab3e * 0x36d00001, 0x37300001) == 1;
    assert Mod(0x2f40eef8 * 0x36d00001, 0x3e500001) == 1;
    assert Mod(0x2e760905 * 0x37300001, 0x3e500001) == 1;
    PairIndices(5);
    hide Mod, PairIndex;
    assert j == 0 || j == 1 || j == 2 || j == 3;
    assert k == 1 || k == 2 || k == 3 || k == 4;
  }

  lemma {:induction false} Tables32(nb: nat)
    requires Binary(32) && 3 <= nb <= 5
    ensures TablesOk(CONFIG_32, nb)
  {
    Sizes32();
    hide InverseOk, Prod, Pow2, CONFIG_32, TablesOk, ModsFor;
    forall j: nat, k: nat | j < k < 5
      ensures InverseOk(CONFIG_32.cr, CONFIG_32.mods, j, k)
    {
      Inverses32(j, k);
    }
    Products32(nb);
    TablesFrom(CONFIG_32, nb);
  }

  lemma {:induction false} Sizes32()
    requires Binary(32)
    ensures |CONFIG_32.mods| == 5 && |CONFIG_32.cr| == 10 && |CONFIG_32.intBits| == 5 && CONFIG_32.limbBits == 32
    ensures ModsOk(CONFIG_32.mods)
  {
    Powers32();
    hide Pow2;
    var m := CONFIG_32.mods;
    assert 2 * m[4] <= B;
    assert 2 <= m[0] < m[1] < m[2] < m[3] < m[4];
  }

  lemma {:induction false} Products32(nb: nat)
    requires 3 <= nb <= 5
    ensures var m := ModsFor(CONFIG_32, nb);
            Pow2(CONFIG_32.intBits[5 - nb]) <= Prod(m) && 2 * Prod(m) <= Pow2(32 * nb)
  {
    Powers32();
    ProdOf(ModsFor(CONFIG_32, nb));
    hide Pow2, Prod;
    assert nb == 3 || nb == 4 || nb == 5;
  }
}
