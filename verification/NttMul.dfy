/** The product of two numbers from the residues of the cyclic convolution of their digits. */
module NttMultiplication {
  import opened Arith
  import opened Limbs
  import opened LimbOps
  import opened RoundSpec
  import opened LimbBits
  import opened Rounding
  import opened BigFloats
  import opened FloatAddition
  import opened RadixConversion
  import opened ModularReduction
  import opened NttReconstruction
  import opened NttSizes
  import opened NttProducts
  import opened NttInput

  /** Cyclic convolution in n places: coefficient i + n falls on coefficient i. */
  ghost function CyclicCoef(a: seq<nat>, b: seq<nat>, n: nat, i: nat): nat {
    Coef(a, b, i) + Coef(a, b, i + n)
  }

  ghost function CyclicSeq(a: seq<nat>, b: seq<nat>, n: nat): (s: seq<nat>)
    ensures |s| == n
  {
    seq(n, i requires 0 <= i < n => CyclicCoef(a, b, n, i))
  }

  ghost predicate ZeroFrom(a: seq<nat>, k: nat) {
    forall i :: k <= i < |a| ==> a[i] == 0
  }

  /** A coefficient above both degrees. */
  lemma {:induction false} CoefAbove(a: seq<nat>, b: seq<nat>, i: nat, na: nat, nb: nat)
    requires ZeroFrom(a, na) && ZeroFrom(b, nb) && i + 1 >= na + nb
    ensures Coef(a, b, i) == 0
    decreases |b|
  {
    if b != [] {
      var m := |b| - 1;
      CoefAbove(a, b[..m], i, na, nb);
      var x := At(a, i - m);
      assert b[m] == 0 || x == 0;
    }
  }

  /** In enough places nothing wraps around, and the cyclic convolution weighs as much as the product. */
  lemma {:induction false} CyclicIsProduct(a: seq<nat>, b: seq<nat>, n: nat, na: nat, nb: nat, d: nat)
    requires d >= 1 && |a| == |b| == n && ZeroFrom(a, na) && ZeroFrom(b, nb) && na + nb <= n + 1
    ensures Weigh(CyclicSeq(a, b, n), d) == Weigh(a, d) * Weigh(b, d)
    ensures forall i :: 0 <= i < n ==> CyclicSeq(a, b, n)[i] == Coef(a, b, i)
  {
    hide Weigh, Coef;
    var s, full := CyclicSeq(a, b, n), CoefSeq(a, b, n + n);
    forall i: nat | n <= i
      ensures Coef(a, b, i) == 0
    {
      CoefAbove(a, b, i, na, nb);
    }
    assert full == s + full[n..];
    WeighConcat(s, full[n..], d);
    WeighZero(full[n..], d);
    ConvolutionIsProduct(a, b, n + n, d);
  }

  lemma {:induction false} DigitSeqBelow(v: nat, dpl: nat, n: nat)
    ensures DigitsOk(DigitSeq(v, dpl, n), Pow2(dpl))
  {
    hide Pow2, Rem, Quo;
    forall i | 0 <= i < n
      ensures DigitSeq(v, dpl, n)[i] < Pow2(dpl)
    {
      SplitAt(Quo(v, i * dpl), dpl);
    }
  }

  /** The digits weigh what the number does. */
  lemma {:induction false} DigitSeqWeight(v: nat, dpl: nat, n: nat)
    ensures Pow2(dpl) >= 1 && Weigh(DigitSeq(v, dpl, n), Pow2(dpl)) == Rem(v, n * dpl)
  {
    hide Pow2, Rem, Quo, PowL, Digit;
    PowLIsPow2(dpl, n);
    if n == 0 {
      OneIsPow();
      SplitIs(v, 0, v, 0);
    } else {
      hide Weigh;
      var k, d := n - 1, Pow2(dpl);
      DigitSeqWeight(v, dpl, k);
      PowLIsPow2(dpl, k);
      var s, x := DigitSeq(v, dpl, k), Digit(v, dpl, k);
      assert DigitSeq(v, dpl, n) == s + [x];
      WeighConcat(s, [x], d);
      WeighOne(x, d);
      MulDist(k, 1, dpl);
      NextDigit(v, dpl, k);
    }
  }

  lemma {:induction false} NextDigit(v: nat, dpl: nat, k: nat)
    ensures Rem(v, k * dpl + dpl) == Rem(v, k * dpl) + Pow2(k * dpl) * Digit(v, dpl, k)
  {
    hide Pow2, Rem, Quo;
    RemSplit(v, k * dpl, dpl);
  }

  lemma {:induction false} DigitSeqIs(v: nat, dpl: nat, n: nat, k: nat, bits: nat)
    requires v < Pow2(bits) && k * dpl >= bits && k <= n
    ensures Pow2(dpl) >= 1 && Weigh(DigitSeq(v, dpl, n), Pow2(dpl)) == v && ZeroFrom(DigitSeq(v, dpl, n), k)
  {
    hide Pow2, Rem, Quo, Weigh, Digit;
    DigitSeqWeight(v, dpl, n);
    MulMono(k, n, dpl);
    Pow2Mono(bits, n * dpl);
    SplitIs(v, n * dpl, 0, v);
    forall i | k <= i < n
      ensures DigitSeq(v, dpl, n)[i] == 0
    {
      MulMono(k, i, dpl);
      NoDigit(v, bits, dpl, i);
    }
  }

  /** What the size of the transform and the tables give together. */
  ghost predicate Chosen(c: NttConfig, f: FftSize, len: nat) {
    |c.mods| == 5 && |c.cr| == 10 && |c.intBits| == 5 && Binary(c.limbBits) && c.limbBits >= 1 && 3 <= f.nbMods <= 5 &&
    SizeOk(c, f, len) && TablesOk(c, f.nbMods)
  }

  lemma {:induction false} ChosenSetup(c: NttConfig, f: FftSize, len: nat)
    requires Chosen(c, f, len)
    ensures SetupOk(ModsFor(c, f.nbMods), InversesFor(c, f.nbMods), c.limbBits, f.dpl)
    ensures Pow2(f.log2) * f.dpl >= len * c.limbBits
  {
    hide Pow2, Pow, Prod, InversesOk, ModsOk;
    var m, bits := ModsFor(c, f.nbMods), c.intBits[5 - f.nbMods];
    PowIsPow2(c.limbBits, |m|);
    if f.dpl > |m| * c.limbBits {
      Pow2Mono(|m| * c.limbBits, bits);
      Pow2Positive(bits);
      assert false;
    }
  }

  lemma {:induction false} Pow2Positive(k: nat)
    ensures Pow2(k) >= 1
  {
  }

  lemma {:induction false} CoefficientsFit(c: NttConfig, f: FftSize, len: nat, a: seq<nat>, b: seq<nat>)
    requires Chosen(c, f, len) && DigitsOk(a, Pow2(f.dpl)) && DigitsOk(b, Pow2(f.dpl)) && |b| <= Pow2(f.log2)
    ensures forall i: nat :: Coef(a, b, i) < Prod(ModsFor(c, f.nbMods))
  {
    hide Pow2, Coef, Prod, DigitsOk, ModsOk, InversesOk, SizeOk;
    forall i: nat
      ensures Coef(a, b, i) < Prod(ModsFor(c, f.nbMods))
    {
      CoefFits(c, f, len, a, b, i);
    }
  }

  /** The coefficients of x * y, cyclic in n places. */
  ghost function ProductCoefs(x: seq<Limb>, y: seq<Limb>, dpl: nat, n: nat): (s: seq<nat>)
    ensures |s| == n
  {
    CyclicSeq(DigitSeq(Val(x), dpl, n), DigitSeq(Val(y), dpl, n), n)
  }

  lemma {:induction false} ProductOfDigits(c: NttConfig, f: FftSize, x: seq<Limb>, y: seq<Limb>, nx: nat, ny: nat)
    requires Chosen(c, f, |x| + |y|) && PlacesFor(nx, |x| * c.limbBits, f.dpl) && PlacesFor(ny, |y| * c.limbBits, f.dpl)
    ensures var s := ProductCoefs(x, y, f.dpl, Pow2(f.log2));
            Pow2(f.dpl) >= 1 && Weigh(s, Pow2(f.dpl)) == Val(x) * Val(y) && forall i :: 0 <= i < |s| ==> s[i] < Prod(ModsFor(c, f.nbMods))
  {
    hide Pow2, Val, Weigh, Prod, Coef, DigitsOk, CyclicSeq, ZeroFrom, TablesOk, DigitSeq;
    var n, lb := Pow2(f.log2), c.limbBits;
    ChosenSetup(c, f, |x| + |y|);
    MulDist(|x|, |y|, lb);
    NoWrapAround(|x| * lb, |y| * lb, f.dpl, nx, ny, n);
    PlacesFit(nx, ny, n, |x| * lb, |y| * lb, f.dpl);
    BoundV(x, lb);
    BoundV(y, lb);
    var a, b := DigitSeq(Val(x), f.dpl, n), DigitSeq(Val(y), f.dpl, n);
    DigitSeqIs(Val(x), f.dpl, n, nx, |x| * lb);
    DigitSeqIs(Val(y), f.dpl, n, ny, |y| * lb);
    DigitSeqBelow(Val(x), f.dpl, n);
    DigitSeqBelow(Val(y), f.dpl, n);
    CyclicIsProduct(a, b, n, nx, ny, Pow2(f.dpl));
    CoefficientsFit(c, f, |x| + |y|, a, b);
  }

  /** n = ceil(bits / dpl) */
  ghost predicate PlacesFor(n: nat, bits: nat, dpl: nat) {
    n * dpl >= bits && (n >= 1 ==> (n - 1) * dpl < bits)
  }

  lemma {:induction false} PlacesFit(nx: nat, ny: nat, n: nat, la: nat, lb: nat, dpl: nat)
    requires dpl >= 1 && PlacesFor(nx, la, dpl) && PlacesFor(ny, lb, dpl) && n * dpl >= la + lb
    ensures nx <= n && ny <= n
  {
    if nx >= 1 {
      MulCancel(nx - 1, n, dpl);
    }
    if ny >= 1 {
      MulCancel(ny - 1, n, dpl);
    }
  }

  /** The end of fft_mul: the limbs of x * y, from buffers with the residues of the cyclic convolution of their digits. */
  method ProductLimbs(tab: array<Limb>, buf: array<nat>, c: NttConfig, f: FftSize, ghost x: seq<Limb>, ghost y: seq<Limb>)
    requires Chosen(c, f, |x| + |y|) && tab.Length == |x| + |y|
    requires Residues(buf[..], ProductCoefs(x, y, f.dpl, Pow2(f.log2)), ModsFor(c, f.nbMods))
    modifies tab
    ensures Val(tab[..]) == Val(x) * Val(y)
  {
    hide Pow2, Pow, Val, Weigh, Prod, Rem, ProductCoefs, Residues, TablesOk, SizeOk;
    var n, len := Pow2(f.log2), tab.Length;
    ChosenSetup(c, f, len);
    DplPositive(c, f, len);
    ghost var nx := PlacesOf(|x| * c.limbBits, f.dpl);
    ghost var ny := PlacesOf(|y| * c.limbBits, f.dpl);
    ProductOfDigits(c, f, x, y, nx, ny);
    NttToLimb(tab, len, c.limbBits, buf, n, f.dpl, ModsFor(c, f.nbMods), InversesFor(c, f.nbMods), ProductCoefs(x, y, f.dpl, n));
    assert tab[..] == tab[..len];
    ProductFits(x, y, c.limbBits);
  }

  lemma {:induction false} DplPositive(c: NttConfig, f: FftSize, len: nat)
    requires Chosen(c, f, len)
    ensures f.dpl >= 1
  {
  }

  lemma {:induction false} PlacesOf(bits: nat, dpl: nat) returns (n: nat)
    requires dpl >= 1
    ensures PlacesFor(n, bits, dpl)
  {
    var q, r := DivMod(bits + dpl - 1, dpl);
    MulDist(q, 1, dpl);
    n := q;
  }

  lemma {:induction false} ProductFits(x: seq<Limb>, y: seq<Limb>, lb: nat)
    requires Binary(lb)
    ensures Rem(Val(x) * Val(y), (|x| + |y|) * lb) == Val(x) * Val(y)
  {
    hide Pow2, Val, Rem;
    BoundV(x, lb);
    BoundV(y, lb);
    MulDist(|x|, |y|, lb);
    Pow2Add(|x| * lb, |y| * lb);
    MulMono(Val(x), Pow2(|x| * lb), Val(y));
    MulStrict(Val(y), Pow2(|y| * lb), Pow2(|x| * lb));
    MulMono(0, Val(x), Val(y));
    SplitIs(Val(x) * Val(y), (|x| + |y|) * lb, 0, Val(x) * Val(y));
  }

  /** What the tables of a configuration provide. */
  ghost predicate ConfigOk(c: NttConfig) {
    |c.mods| == 5 && |c.cr| == 10 && |c.intBits| == 5 && Binary(c.limbBits) &&
    1 <= c.modMin && c.modMax == c.modMin + 1 && c.modMin + 2 <= c.limbBits && TablesOk(c, 3) && TablesOk(c, 4) && TablesOk(c, 5) &&
    forall j :: 0 <= j < 5 ==> Pow2(c.modMin) < c.mods[j] < Pow2(c.modMin + 1)
  }

  lemma {:induction false} Config64()
    requires Binary(64)
    ensures ConfigOk(CONFIG_64)
  {
    Fields64();
    hide TablesOk, Pow2, CONFIG_64;
    Tables64(3);
    Tables64(4);
    Tables64(5);
  }

  lemma {:induction false} Fields64()
    ensures var c := CONFIG_64;
            |c.mods| == 5 && |c.cr| == 10 && |c.intBits| == 5 && c.limbBits == 64 && c.modMin == 61 && c.modMax == 62 &&
            forall j :: 0 <= j < 5 ==> Pow2(c.modMin) < c.mods[j] < Pow2(c.modMin + 1)
  {
    Range64();
    hide Pow2;
  }

  lemma {:induction false} Range64()
    ensures Pow2(61) == 0x2000_0000_0000_0000 && Pow2(62) == 0x4000_0000_0000_0000
  {
    SmallPowers();
    hide Pow2;
    Pow2Add(4, 4);
    Pow2Add(8, 8);
    Pow2Add(16, 16);
    Pow2Add(32, 16);
    Pow2Add(48, 8);
    Pow2Add(56, 4);
    Pow2Add(60, 1);
    Pow2Add(60, 2);
  }

  lemma {:induction false} Config32()
    requires Binary(32)
    ensures ConfigOk(CONFIG_32)
  {
    Fields32();
    hide TablesOk, Pow2, CONFIG_32;
    Tables32(3);
    Tables32(4);
    Tables32(5);
  }

  lemma {:induction false} Fields32()
    ensures var c := CONFIG_32;
            |c.mods| == 5 && |c.cr| == 10 && |c.intBits| == 5 && c.limbBits == 32 && c.modMin == 29 && c.modMax == 30 &&
            forall j :: 0 <= j < 5 ==> Pow2(c.modMin) < c.mods[j] < Pow2(c.modMin + 1)
  {
    Range32();
    hide Pow2;
  }

  lemma {:induction false} Range32()
    ensures Pow2(29) == 0x2000_0000 && Pow2(30) == 0x4000_0000
  {
    SmallPowers();
    hide Pow2;
    Pow2Add(4, 4);
    Pow2Add(8, 8);
    Pow2Add(16, 8);
    Pow2Add(24, 4);
    Pow2Add(28, 1);
    Pow2Add(28, 2);
  }

  /** ntt_static_init: the inverses of the moduli in use. */
  method InvertMods(m: seq<nat>, lb: nat, k: nat) returns (invs: seq<nat>)
    requires Binary(lb) && k + 2 <= lb && forall j :: 0 <= j < |m| ==> Pow2(k) < m[j] < Pow2(k + 1)
    ensures InvertedMods(m, invs, lb, k)
  {
    hide Pow2, Divide;
    invs := [];
    for j := 0 to |m|
      invariant |invs| == j && forall i :: 0 <= i < j ==> Inverted(m[i], invs[i], lb, k)
    {
      WordSizes2(m[j], lb, k);
      var v := InitModFast(m[j], lb, k);
      invs := invs + [v];
    }
    AllInverted(m, invs, lb, k);
  }

  ghost predicate Inverted(m: nat, v: nat, lb: nat, k: nat) {
    m < B && v < B && Pow2(k) < m < Pow2(k + 1) && m >= 1 && v == Divide(Pow2(lb + k), m)
  }

  lemma {:induction false} AllInverted(m: seq<nat>, invs: seq<nat>, lb: nat, k: nat)
    requires |invs| == |m| && forall i :: 0 <= i < |m| ==> Inverted(m[i], invs[i], lb, k)
    ensures InvertedMods(m, invs, lb, k)
  {
    hide Pow2, Divide;
    forall j | 0 <= j < |m|
      ensures InvertedAt(m, invs, lb, k, j)
    {
      assert Inverted(m[j], invs[j], lb, k);
    }
  }

  lemma {:induction false} WordSizes2(m: nat, lb: nat, k: nat)
    requires Binary(lb) && k + 2 <= lb && m < Pow2(k + 1)
    ensures m < B
  {
    hide Pow2;
    Pow2Mono(k + 1, lb);
  }

  /**
  The start of fft_mul, for two vectors of any lengths: a size for the transform, if there is one,
  that leaves room for the product, and buffers with the residues of the digits of both numbers.
  */
  method FftInput(c: NttConfig, x: array<Limb>, y: array<Limb>) returns (found: bool, f: FftSize, buf1: array<nat>, buf2: array<nat>)
    requires ConfigOk(c) && x.Length + y.Length >= 1
    ensures found ==> Chosen(c, f, x.Length + y.Length) && fresh(buf1) && fresh(buf2)
    ensures c == CONFIG_64 || c == CONFIG_32 ==> (found <==> x.Length + y.Length <= Pow2(c.rootLog2 + 1))
    ensures found ==> Residues(buf1[..], DigitSeq(Val(x[..]), f.dpl, Pow2(f.log2)), ModsFor(c, f.nbMods))
    ensures found ==> Residues(buf2[..], DigitSeq(Val(y[..]), f.dpl, Pow2(f.log2)), ModsFor(c, f.nbMods))
  {
    hide Pow2, Val, TablesOk, Residues, DigitSeq, InvertedMods, Cheapest, CONFIG_64, CONFIG_32;
    found, f := GetFftSize(c, x.Length + y.Length);
    if c == CONFIG_64 || c == CONFIG_32 {
      Reach(c, x.Length + y.Length);
    }
    buf1, buf2 := new nat[0], new nat[0];
    if found {
      ConfigChosen(c, f, x.Length + y.Length);
      var m, n := ModsFor(c, f.nbMods), Pow2(f.log2);
      ModsWithin(c, f.nbMods);
      var invs := InvertMods(m, c.limbBits, c.modMin);
      buf1, buf2 := new nat[n * |m|], new nat[n * |m|];
      LimbToNtt(buf1, n, x, x.Length, f.dpl, m, invs, c.limbBits, c.modMin);
      LimbToNtt(buf2, n, y, y.Length, f.dpl, m, invs, c.limbBits, c.modMin);
      assert x[..x.Length] == x[..] && y[..y.Length] == y[..];
    }
  }

  lemma {:induction false} ConfigChosen(c: NttConfig, f: FftSize, len: nat)
    requires ConfigOk(c) && SizeOk(c, f, len)
    ensures Chosen(c, f, len) && 1 <= f.dpl <= 2 * c.limbBits + c.modMin - 1
  {
    hide Pow2, TablesOk;
  }

  lemma {:induction false} ModsWithin(c: NttConfig, nb: nat)
    requires ConfigOk(c) && 3 <= nb <= 5
    ensures forall j :: 0 <= j < |ModsFor(c, nb)| ==> Pow2(c.modMin) < ModsFor(c, nb)[j] < Pow2(c.modMin + 1)
  {
    hide Pow2, TablesOk;
  }
}
