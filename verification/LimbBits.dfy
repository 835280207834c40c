/** Bits of limb vectors when the radix is a power of two. */
module LimbBits {
  import opened Arith
  import opened Limbs
  import opened RoundSpec

  /** Limbs of lb bits. */
  predicate Binary(lb: nat) {
    B == Pow2(lb)
  }

  lemma {:induction false} PowIsPow2(lb: nat, k: nat)
    requires Binary(lb)
    ensures Pow(k) == Pow2(k * lb)
  {
    if k > 0 {
      PowIsPow2(lb, k - 1);
      MulDist(k - 1, 1, lb);
      Pow2Add((k - 1) * lb, lb);
    }
  }

  /** Fewer bits than a limb has. */
  lemma {:induction false} BitInLimb(lb: nat, p: nat)
    requires Binary(lb) && p < lb
    ensures B == Pow2(lb - p) * Pow2(p) && Pow2(lb - p) == 2 * Pow2(lb - p - 1) && Pow2(p) < B
  {
    Pow2Add(lb - p, p);
    MulMono(2, Pow2(lb - p), Pow2(p));
  }

  lemma {:induction false} LimbAt(s: seq<Limb>, i: nat)
    requires i < |s|
    ensures Val(s) == Val(s[..i]) + Pow(i) * (s[i] + B * Val(s[i + 1..]))
  {
    hide Val, Pow;
    ValSplit(s, i);
    assert s[i..] == [s[i]] + s[i + 1..];
    ValCons(s[i], s[i + 1..]);
  }

  /** Quotient and remainder by 2^k. */
  function Quo(x: nat, k: nat): nat {
    Divide(x, Pow2(k))
  }

  function Rem(x: nat, k: nat): nat {
    x % Pow2(k)
  }

  function Divide(x: nat, d: nat): nat
    requires d >= 1
  {
    x / d
  }

  lemma {:induction false} SplitAt(x: nat, k: nat)
    ensures x == Quo(x, k) * Pow2(k) + Rem(x, k) && Rem(x, k) < Pow2(k)
  {
    hide Pow2;
    var q, r := DivMod(x, Pow2(k));
    DivUnique(x / Pow2(k), x % Pow2(k), q, r, Pow2(k));
  }

  lemma {:induction false} SplitIs(x: nat, k: nat, q: nat, r: nat)
    requires x == q * Pow2(k) + r && r < Pow2(k)
    ensures Quo(x, k) == q && Rem(x, k) == r
  {
    hide Pow2;
    DivUnique(x / Pow2(k), x % Pow2(k), q, r, Pow2(k));
  }

  /** The rounding of x to a multiple of 2^k. */
  lemma {:induction false} RoundBits(mode: Mode, neg: bool, x: nat, k: nat)
    ensures RoundUnits(mode, neg, x, Pow2(k)) == Quo(x, k) + if Up(mode, neg, Quo(x, k), Rem(x, k), Pow2(k)) then 1 else 0
  {
  }

  /** Cutting a vector at bit p of limb i cuts limb i at bit p. */
  lemma {:induction false} CutAt(s: seq<Limb>, lb: nat, i: nat, p: nat)
    requires Binary(lb) && i < |s| && p < lb
    ensures Quo(Val(s), i * lb + p) == Quo(s[i], p) + Pow2(lb - p) * Val(s[i + 1..])
    ensures Rem(Val(s), i * lb + p) == Val(s[..i]) + Pow(i) * Rem(s[i], p)
  {
    hide Val, Pow, Pow2, Quo, Rem;
    var lo, hi, x, w := Val(s[..i]), Val(s[i + 1..]), s[i], Pow2(p);
    LimbAt(s, i);
    BitInLimb(lb, p);
    SplitAt(x, p);
    PowIsPow2(lb, i);
    Pow2Add(i * lb, p);
    ValBound(s[..i]);
    var q, r := Quo(x, p), Rem(x, p);
    CutArith(lo, Pow(i), q, r, w, Pow2(lb - p), hi);
    SplitIs(Val(s), i * lb + p, q + Pow2(lb - p) * hi, lo + Pow(i) * r);
  }

  lemma {:induction false} CutArith(lo: nat, c: nat, q: nat, r: nat, w: nat, v: nat, hi: nat)
    requires lo < c && r < w
    ensures lo + c * (q * w + r + v * w * hi) == (q + v * hi) * (c * w) + (lo + c * r)
    ensures lo + c * r < c * w
  {
    MulDist(q, v * hi, c * w);
    assert c * (q * w) == q * (c * w) by { MulAssoc(c, q, w); MulAssoc(q, c, w); }
    assert c * (v * w * hi) == v * hi * (c * w) by {
      MulAssoc(v, w, hi);
      assert v * (w * hi) == v * hi * w by { MulAssoc(v, hi, w); }
      MulAssoc(c, v * hi, w);
      MulAssoc(v * hi, c, w);
    }
    MulMono(r + 1, w, c);
    MulDist(r, 1, c);
  }

  /** The bit of v at a position. */
  function BitOf(v: nat, pos: int): nat {
    if pos < 0 then 0 else Quo(v, pos) % 2
  }

  lemma {:induction false} BitAbove(v: nat, n: nat, pos: nat)
    requires v < Pow2(n) && n <= pos
    ensures BitOf(v, pos) == 0
  {
    Pow2Mono(n, pos);
    SplitIs(v, pos, 0, v);
  }

  /** get_bit */
  method GetBit(tab: array<Limb>, len: nat, lb: nat, pos: int) returns (bit: nat)
    requires Binary(lb) && lb >= 1 && len <= tab.Length
    ensures bit == BitOf(Val(tab[..len]), pos) && bit <= 1
  {
    hide Val, Pow, Pow2, Quo, Rem;
    if pos < 0 {
      return 0;
    }
    var i, p := SplitPos(pos, lb);
    ghost var s := tab[..len];
    if i >= len {
      ValBound(s);
      PowIsPow2(lb, len);
      MulMono(len, i, lb);
      BitAbove(Val(s), len * lb, pos);
      return 0;
    }
    CutAt(s, lb, i, p);
    BitInLimb(lb, p);
    EvenAdd(Quo(s[i], p), Pow2(lb - p - 1), Val(s[i + 1..]));
    bit := Quo(tab[i], p) % 2;
  }

  lemma {:induction false} EvenAdd(x: nat, c: nat, h: nat)
    ensures (x + 2 * c * h) % 2 == x % 2
  {
    MulAssoc(2, c, h);
  }

  /** pos = i * lb + p */
  method SplitPos(pos: nat, lb: nat) returns (i: nat, p: nat)
    requires lb >= 1
    ensures pos == i * lb + p && p < lb
  {
    i, p := pos / lb, pos % lb;
  }

  /** scan_bit_nz: whether a bit from 0 to pos inclusive is set. */
  method ScanBitNz(tab: array<Limb>, len: nat, lb: nat, pos: int) returns (nz: bool)
    requires Binary(lb) && lb >= 1 && len <= tab.Length && pos < len * lb
    ensures nz == (pos >= 0 && Rem(Val(tab[..len]), pos + 1) != 0)
  {
    hide Val, Pow, Pow2, Quo, Rem;
    if pos < 0 {
      return false;
    }
    var i, p := SplitPos(pos, lb);
    ghost var s := tab[..len];
    assert i < len by {
      if len <= i {
        MulMono(len, i, lb);
      }
    }
    ScanCut(s, lb, i, p);
    assert s[i] == tab[i];
    if Rem(tab[i], p + 1) != 0 {
      MulNonZero(Pow(i), Rem(tab[i], p + 1));
      return true;
    }
    var j := i;
    while j > 0
      invariant 0 <= j <= i && forall k :: j <= k < i ==> s[k] == 0
    {
      j := j - 1;
      if tab[j] != 0 {
        NonZeroLimb(s[..i], j);
        return true;
      }
    }
    ValZeros(s[..i]);
    return false;
  }

  lemma {:induction false} MulNonZero(x: nat, y: nat)
    requires x > 0 && y > 0
    ensures x * y > 0
  {
  }

  lemma {:induction false} NonZeroLimb(s: seq<Limb>, j: nat)
    requires j < |s| && s[j] != 0
    ensures Val(s) != 0
  {
    hide Val, Pow;
    LimbAt(s, j);
    MulNonZero(Pow(j), s[j] + B * Val(s[j + 1..]));
  }

  /** The bits up to p of limb i and the limbs below it. */
  lemma {:induction false} ScanCut(s: seq<Limb>, lb: nat, i: nat, p: nat)
    requires Binary(lb) && i < |s| && p < lb
    ensures Rem(Val(s), i * lb + p + 1) == Val(s[..i]) + Pow(i) * Rem(s[i], p + 1)
  {
    hide Val, Pow, Pow2, Quo, Rem;
    if p + 1 < lb {
      CutAt(s, lb, i, p + 1);
    } else {
      MulDist(i, 1, lb);
      PowIsPow2(lb, i + 1);
      ValSplit(s, i + 1);
      ValBound(s[..i + 1]);
      assert s[..i + 1] == s[..i] + [s[i]];
      ValSnoc(s[..i], s[i]);
      SplitIs(Val(s), (i + 1) * lb, Val(s[i + 1..]), Val(s[..i + 1]));
      SplitIs(s[i], lb, 0, s[i]);
    }
  }
}
