/** From limbs to the buffers of residues of their digits. */
module NttInput {
  import opened Arith
  import opened Limbs
  import opened LimbOps
  import opened RoundSpec
  import opened LimbBits
  import opened Rounding
  import opened BigFloats
  import opened FloatAddition
  import opened RadixConversion
  import opened ModularReduction
  import opened NttReconstruction
  import opened NttSizes
  import opened NttLimbs
  import opened NttProducts

  /** i + j low bits are i low bits and j bits above them. */
  lemma {:induction false} RemSplit(x: nat, i: nat, j: nat)
    ensures Rem(x, i + j) == Rem(x, i) + Pow2(i) * Rem(Quo(x, i), j)
    ensures Quo(x, i + j) == Quo(Quo(x, i), j)
  {
    hide Quo, Rem, Pow2;
    var q := Quo(x, i);
    SplitAt(x, i);
    SplitAt(q, j);
    Pow2Add(i, j);
    RemSplitArith(q, Rem(x, i), Quo(q, j), Rem(q, j), Pow2(i), Pow2(j));
    SplitIs(x, i + j, Quo(q, j), Rem(x, i) + Pow2(i) * Rem(q, j));
  }

  lemma {:induction false} RemSplitArith(q: nat, r: nat, q': nat, r': nat, v: nat, w: nat)
    requires q == q' * w + r' && r < v && r' < w
    ensures q * v + r == q' * (v * w) + (r + v * r') && r + v * r' < v * w
  {
    MulDist(q' * w, r', v);
    MulAssoc(q', w, v);
    MulMono(r' + 1, w, v);
    MulDist(r', 1, v);
  }

  /** Fewer low bits of some low bits. */
  lemma {:induction false} RemRem(x: nat, i: nat, j: nat)
    requires j <= i
    ensures Rem(Rem(x, i), j) == Rem(x, j)
  {
    hide Quo, Rem, Pow2;
    RemSplit(x, j, i - j);
    SplitAt(x, j);
    SplitIs(Rem(x, i), j, Rem(Quo(x, j), i - j), Rem(x, j));
  }

  /** (1 << shift) - 1 with shift = dpl modulo the limb bits, or all ones: keeps the bits of the last limb of a digit. */
  method KeepLast(x: Limb, lb: nat, dpl: nat, whole: nat) returns (r: Limb)
    requires lb >= 1 && whole < dpl <= whole + lb && Multiple(whole, lb) && Binary(lb)
    ensures r == Rem(x, dpl - whole)
  {
    hide Rem, Pow2, Binary;
    var _, shift := SplitPos(dpl, lb);
    ShiftIs(dpl, whole, lb, shift);
    LowSmall(x, dpl - whole);
    if shift == 0 {
      AllBits(x, lb);
      r := x;
    } else {
      r := Rem(x, shift);
    }
  }

  ghost predicate Multiple(x: nat, lb: nat) {
    exists k: nat :: x == k * lb
  }

  lemma {:induction false} ShiftIs(dpl: nat, whole: nat, lb: nat, shift: nat)
    requires lb >= 1 && whole < dpl <= whole + lb && Multiple(whole, lb) && shift < lb && exists i: nat :: dpl == i * lb + shift
    ensures shift == if dpl == whole + lb then 0 else dpl - whole
  {
    var k: nat :| whole == k * lb;
    var i: nat :| dpl == i * lb + shift;
    MulDist(k, 1, lb);
    if dpl == whole + lb {
      DivUnique(i, shift, k + 1, 0, lb);
    } else {
      DivUnique(i, shift, k, dpl - whole, lb);
    }
  }

  lemma {:induction false} AllBits(x: Limb, lb: nat)
    requires Binary(lb)
    ensures Rem(x, lb) == x
  {
    hide Rem;
    SplitSmall(x, lb);
  }

  /** The digit of dpl bits at a position, in one part or, when it is long, in a high part and lb - 1 low bits. */
  ghost predicate Parts(d: nat, a: nat, a0: nat, lb: nat, k: nat, dpl: nat) {
    lb >= 1 && if dpl <= lb + k then a == d else d == a * Pow2(lb - 1) + a0 && a0 < Pow2(lb - 1)
  }

  /** Reads one digit, by the limbs at its position. */
  method ReadDigit(tab: array<Limb>, len: nat, lb: nat, k: nat, dpl: nat, pos: nat) returns (a: nat, a0: Limb)
    requires Binary(lb) && 1 <= k && k + 2 <= lb && len <= tab.Length && 1 <= dpl <= 2 * lb + k - 1
    ensures Parts(Rem(Quo(Val(tab[..len]), pos), dpl), a, a0, lb, k, dpl)
  {
    hide Val, Quo, Rem, Pow2, Binary, BitsAt, Multiple;
    ghost var w := Quo(Val(tab[..len]), pos);
    a0 := GetBits(tab, len, lb, pos);
    BitsFrom(Val(tab[..len]), lb, pos, 0);
    QuoOne(w);
    if dpl <= lb {
      Multiples(lb);
      a0 := KeepLast(a0, lb, dpl, 0);
      a := a0;
      RemRem(w, lb, dpl);
    } else {
      a, a0 := ReadLongDigit(tab, len, lb, k, dpl, pos, a0);
    }
  }

  /** A digit of more than a limb, whose low limb is known. */
  method ReadLongDigit(tab: array<Limb>, len: nat, lb: nat, k: nat, dpl: nat, pos: nat, low: Limb) returns (a: nat, a0: Limb)
    requires Binary(lb) && 1 <= k && k + 2 <= lb && len <= tab.Length && lb < dpl <= 2 * lb + k - 1
    requires low == Rem(Quo(Val(tab[..len]), pos), lb)
    ensures Parts(Rem(Quo(Val(tab[..len]), pos), dpl), a, a0, lb, k, dpl)
  {
    hide Val, Quo, Rem, Pow2, Binary, BitsAt, Multiple;
    ghost var w := Quo(Val(tab[..len]), pos);
    a0 := low;
    Multiples(lb);
    var a1 := GetBits(tab, len, lb, pos + lb);
    BitsFrom(Val(tab[..len]), lb, pos, 1);
    if dpl <= 2 * lb {
      TwoLimbs(w, lb, dpl);
      a1 := KeepLast(a1, lb, dpl, lb);
      if dpl <= lb + k {
        a := a0 + a1 * B;
      } else {
        a, a0 := Regroup(a0, a1, 0, lb);
      }
    } else {
      var a2 := GetBits(tab, len, lb, pos + lb * 2);
      BitsFrom(Val(tab[..len]), lb, pos, 2);
      a2 := KeepLast(a2, lb, dpl, 2 * lb);
      ThreeLimbs(w, lb, dpl);
      a, a0 := Regroup(a0, a1, a2, lb);
    }
  }

  lemma {:induction false} BitsFrom(v: nat, lb: nat, pos: nat, i: nat)
    ensures BitsAt(v, lb, pos + i * lb) == Rem(Quo(Quo(v, pos), i * lb), lb)
  {
    hide Quo, Rem, Pow2;
    QuoQuo(v, pos, i * lb);
  }

  lemma {:induction false} Multiples(lb: nat)
    ensures Multiple(0, lb) && Multiple(lb, lb) && Multiple(2 * lb, lb)
  {
    assert 0 == 0 * lb && lb == 1 * lb && 2 * lb == 2 * lb;
  }

  lemma {:induction false} TwoLimbs(w: nat, lb: nat, dpl: nat)
    requires Binary(lb) && lb < dpl <= 2 * lb
    ensures Rem(w, dpl) == Rem(w, lb) + Rem(Rem(Quo(w, lb), lb), dpl - lb) * B
  {
    hide Quo, Rem, Pow2;
    RemSplit(w, lb, dpl - lb);
    RemRem(Quo(w, lb), lb, dpl - lb);
  }

  lemma {:induction false} ThreeLimbs(w: nat, lb: nat, dpl: nat)
    requires Binary(lb) && 2 * lb < dpl <= 3 * lb
    ensures Rem(w, dpl) == Rem(w, lb) + (Rem(Quo(w, lb), lb) + Rem(Rem(Quo(w, 2 * lb), lb), dpl - 2 * lb) * B) * B
  {
    hide Quo, Rem, Pow2;
    RemSplit(w, lb, dpl - lb);
    RemSplit(w, lb, lb);
    TwoLimbs(Quo(w, lb), lb, dpl - lb);
  }

  /** All but lb - 1 bits of three limbs. */
  method Regroup(a0: Limb, a1: Limb, a2: Limb, lb: nat) returns (a: nat, low: Limb)
    requires Binary(lb) && lb >= 1
    ensures a0 + (a1 + a2 * B) * B == a * Pow2(lb - 1) + low && low < Pow2(lb - 1)
  {
    var h := Pow2(lb - 1);
    assert B == 2 * h;
    hide Quo, Rem, Pow2;
    SplitAt(a0, lb - 1);
    LowSmall(a0, lb - 1);
    low := Rem(a0, lb - 1);
    var q := Quo(a0, lb - 1);
    a := Combine(a0, a1, a2, q, low, h, B);
  }

  method Combine(a0: nat, a1: nat, a2: nat, q: nat, ghost low: nat, ghost h: nat, b: nat) returns (a: nat)
    requires a0 == q * h + low && b == 2 * h
    ensures a0 + (a1 + a2 * b) * b == a * h + low
  {
    MulMono(0, a2, b * 2);
    a := q + a1 * 2 + a2 * (b * 2);
    MulDist(a1, a2 * b, b);
    assert a1 * b == a1 * 2 * h by { MulAssoc(a1, 2, h); }
    assert a2 * b * b == a2 * (b * 2) * h by {
      MulAssoc(a2, b, b);
      MulAssoc(b, 2, h);
      MulAssoc(a2, b * 2, h);
    }
    MulDist(q + a1 * 2, a2 * (b * 2), h);
    MulDist(q, a1 * 2, h);
  }

  /** A digit modulo m, by one or two reductions. */
  method ReduceDigit(a: nat, a0: Limb, m: Limb, inv: Limb, lb: nat, k: nat, dpl: nat, ghost d: nat) returns (r: Limb)
    requires Binary(lb) && k + 2 <= lb && dpl <= 2 * lb + k - 1 && Pow2(k) < m < Pow2(k + 1) && inv == Divide(Pow2(lb + k), m)
    requires d < Pow2(dpl) && Parts(d, a, a0, lb, k, dpl)
    ensures r == Mod(d, m)
  {
    hide Pow2, Divide, Mod;
    if dpl <= lb + k {
      Pow2Mono(dpl, lb + k);
      r := ModFast(a, m, inv, lb, k);
    } else {
      HighPart(d, a, a0, lb, k, dpl);
      r := ModFast(a, m, inv, lb, k);
      LowPart(r, a0, m, lb, k);
      TwoSteps(a, a0, m, Pow2(lb - 1));
      r := ModFast(r * Pow2(lb - 1) + a0, m, inv, lb, k);
    }
  }

  lemma {:induction false} HighPart(d: nat, a: nat, a0: nat, lb: nat, k: nat, dpl: nat)
    requires lb >= 1 && lb - 1 <= dpl <= 2 * lb + k - 1 && d < Pow2(dpl) && d == a * Pow2(lb - 1) + a0
    ensures a < Pow2(lb + k)
  {
    hide Pow2;
    Pow2Mono(dpl, 2 * lb + k - 1);
    Pow2Add(lb + k, lb - 1);
    MulCancel(a, Pow2(lb + k), Pow2(lb - 1));
  }

  lemma {:induction false} LowPart(r: nat, a0: nat, m: nat, lb: nat, k: nat)
    requires lb >= 1 && r < m < Pow2(k + 1) && a0 < Pow2(lb - 1)
    ensures r * Pow2(lb - 1) + a0 < Pow2(lb + k)
  {
    hide Pow2;
    Pow2Add(k + 1, lb - 1);
    MulMono(r + 1, Pow2(k + 1), Pow2(lb - 1));
    MulDist(r, 1, Pow2(lb - 1));
  }

  lemma {:induction false} TwoSteps(a: nat, a0: nat, m: nat, p: nat)
    requires m >= 1
    ensures Mod(Mod(a, m) * p + a0, m) == Mod(a * p + a0, m)
  {
    var q, r := DivMod(a, m);
    RemIs(a, m, q, r);
    var t, s := DivMod(r * p + a0, m);
    RemIs(r * p + a0, m, t, s);
    MulDist(q * m, r, p);
    assert q * m * p == q * p * m by { MulAssoc(q, m, p); MulAssoc(q, p, m); }
    MulDist(q * p, t, m);
    RemIs(a * p + a0, m, q * p + t, s);
  }

  ghost function DigitSeq(v: nat, dpl: nat, n: nat): (s: seq<nat>)
    ensures |s| == n
  {
    seq(n, i requires 0 <= i < n => Digit(v, dpl, i))
  }

  /** The moduli have k + 1 bits, and their inverses are known. */
  ghost predicate InvertedMods(m: seq<nat>, invs: seq<nat>, lb: nat, k: nat) {
    |invs| == |m| && forall j :: 0 <= j < |m| ==> InvertedAt(m, invs, lb, k, j)
  }

  ghost predicate InvertedAt(m: seq<nat>, invs: seq<nat>, lb: nat, k: nat, j: nat)
    requires j < |m| == |invs|
  {
    m[j] < B && invs[j] < B && Pow2(k) < m[j] < Pow2(k + 1) && invs[j] == Divide(Pow2(lb + k), m[j])
  }

  /** In the first i places there are the residues of the digits; the others are zero. */
  ghost predicate Filled(buf: seq<nat>, n: nat, m: seq<nat>, v: nat, dpl: nat, i: nat) {
    |buf| == n * |m| && forall t, j :: 0 <= t < n && 0 <= j < |m| ==> FilledAt(buf, n, m, v, dpl, i, t, j)
  }

  ghost predicate FilledAt(buf: seq<nat>, n: nat, m: seq<nat>, v: nat, dpl: nat, i: nat, t: nat, j: nat)
    requires j < |m|
  {
    m[j] >= 1 && BufAt(buf, n, t, j) == if t < i then Mod(Digit(v, dpl, t), m[j]) else 0
  }

  /** Place i of the first j buffers is new, and nothing else. */
  ghost predicate Column(was: seq<nat>, buf: seq<nat>, n: nat, m: seq<nat>, d: nat, i: nat, j: nat) {
    |buf| == |was| && forall t, l :: 0 <= t < n && 0 <= l < |m| ==> ColumnAt(was, buf, n, m, d, i, j, t, l)
  }

  ghost predicate ColumnAt(was: seq<nat>, buf: seq<nat>, n: nat, m: seq<nat>, d: nat, i: nat, j: nat, t: nat, l: nat)
    requires l < |m|
  {
    m[l] >= 1 && BufAt(buf, n, t, l) == if t == i && l < j then Mod(d, m[l]) else BufAt(was, n, t, l)
  }

  lemma {:induction false} ColumnStep(was: seq<nat>, s: seq<nat>, t: seq<nat>, n: nat, m: seq<nat>, d: nat, i: nat, j: nat)
    requires i < n && j < |m| && |s| == n * |m| && Index(n, i, j) < |s| && Column(was, s, n, m, d, i, j) && m[j] >= 1
    requires t == s[Index(n, i, j) := Mod(d, m[j])]
    ensures Column(was, t, n, m, d, i, j + 1)
  {
    hide Mod, Index;
    var next := j + 1;
    forall p, l | 0 <= p < n && 0 <= l < |m|
      ensures ColumnAt(was, t, n, m, d, i, next, p, l)
    {
      assert ColumnAt(was, s, n, m, d, i, j, p, l);
      if Index(n, p, l) == Index(n, i, j) {
        IndexOnce(n, p, l, i, j);
      }
    }
  }

  /** The residues of one digit. */
  method WriteResidues(buf: array<nat>, n: nat, i: nat, a: nat, a0: Limb, m: seq<nat>, invs: seq<nat>, lb: nat, k: nat, dpl: nat, ghost d: nat)
    requires i < n && buf.Length == n * |m| && Binary(lb) && k + 2 <= lb && dpl <= 2 * lb + k - 1 && InvertedMods(m, invs, lb, k)
    requires d < Pow2(dpl) && Parts(d, a, a0, lb, k, dpl)
    modifies buf
    ensures Column(old(buf[..]), buf[..], n, m, d, i, |m|)
  {
    hide Mod, Index, Parts, Column, Pow2, Divide;
    ghost var was := buf[..];
    ColumnStart(was, n, m, invs, lb, k, d, i);
    for j := 0 to |m|
      invariant Column(was, buf[..], n, m, d, i, j)
    {
      ghost var s := buf[..];
      assert InvertedAt(m, invs, lb, k, j);
      IndexBound(n, i, j, |m|);
      var r := ReduceDigit(a, a0, m[j], invs[j], lb, k, dpl, d);
      buf[Index(n, i, j)] := r;
      ColumnStep(was, s, buf[..], n, m, d, i, j);
    }
  }

  lemma {:induction false} ColumnStart(s: seq<nat>, n: nat, m: seq<nat>, invs: seq<nat>, lb: nat, k: nat, d: nat, i: nat)
    requires InvertedMods(m, invs, lb, k)
    ensures Column(s, s, n, m, d, i, 0)
  {
    hide Mod, Index, BufAt, Divide;
    forall t, l | 0 <= t < n && 0 <= l < |m|
      ensures ColumnAt(s, s, n, m, d, i, 0, t, l)
    {
      assert InvertedAt(m, invs, lb, k, l);
    }
  }

  lemma {:induction false} FilledStep(s: seq<nat>, t: seq<nat>, n: nat, m: seq<nat>, v: nat, dpl: nat, i: nat)
    requires i < n && Filled(s, n, m, v, dpl, i) && Column(s, t, n, m, Digit(v, dpl, i), i, |m|)
    ensures Filled(t, n, m, v, dpl, i + 1)
  {
    hide Mod, Index, BufAt, Digit;
    var next := i + 1;
    forall p, j | 0 <= p < n && 0 <= j < |m|
      ensures FilledAt(t, n, m, v, dpl, next, p, j)
    {
      assert FilledAt(s, n, m, v, dpl, i, p, j);
      assert ColumnAt(s, t, n, m, Digit(v, dpl, i), i, |m|, p, j);
    }
  }

  lemma {:induction false} FilledStart(buf: seq<nat>, n: nat, m: seq<nat>, invs: seq<nat>, lb: nat, k: nat, v: nat, dpl: nat)
    requires |buf| == n * |m| && InvertedMods(m, invs, lb, k) && forall i :: 0 <= i < |buf| ==> buf[i] == 0
    ensures Filled(buf, n, m, v, dpl, 0)
  {
    hide Mod, Index, Digit, Divide;
    forall p, j | 0 <= p < n && 0 <= j < |m|
      ensures FilledAt(buf, n, m, v, dpl, 0, p, j)
    {
      assert InvertedAt(m, invs, lb, k, j);
    }
  }

  /** No digits above the limbs. */
  lemma {:induction false} NoDigit(v: nat, bits: nat, dpl: nat, i: nat)
    requires v < Pow2(bits) && i * dpl >= bits
    ensures Digit(v, dpl, i) == 0
  {
    hide Pow2, Quo, Rem;
    Pow2Mono(bits, i * dpl);
    SplitIs(v, i * dpl, 0, v);
    SplitIs(0, dpl, 0, 0);
  }

  lemma {:induction false} FilledEnd(buf: seq<nat>, n: nat, m: seq<nat>, v: nat, dpl: nat, i: nat, bits: nat)
    requires Filled(buf, n, m, v, dpl, i) && v < Pow2(bits) && i <= n && (i == n || i * dpl >= bits)
    ensures Residues(buf, DigitSeq(v, dpl, n), m)
  {
    hide Mod, Index, BufAt, Digit, Pow2;
    var coef := DigitSeq(v, dpl, n);
    forall t, j | 0 <= t < n && 0 <= j < |m|
      ensures ResidueAt(buf, coef, m, t, j)
    {
      assert FilledAt(buf, n, m, v, dpl, i, t, j);
      if t >= i {
        MulMono(i, t, dpl);
        NoDigit(v, bits, dpl, t);
        RemIs(0, m[j], 0, 0);
      }
    }
  }

  /** limb_to_ntt: the residues of the digits of dpl bits. */
  method LimbToNtt(buf: array<nat>, n: nat, tab: array<Limb>, len: nat, dpl: nat, m: seq<nat>, invs: seq<nat>, lb: nat, k: nat)
    requires len <= tab.Length && buf.Length == n * |m| && Binary(lb) && 1 <= k && k + 2 <= lb && 1 <= dpl <= 2 * lb + k - 1
    requires InvertedMods(m, invs, lb, k)
    modifies buf
    ensures Residues(buf[..], DigitSeq(old(Val(tab[..len])), dpl, n), m)
  {
    hide Val, Pow2, Quo, Rem, Filled, InvertedMods, Residues, Parts;
    ghost var v := Val(tab[..len]);
    ClearBuffer(buf);
    FilledStart(buf[..], n, m, invs, lb, k, v, dpl);
    var places := Places(len * lb, dpl);
    var count := if n <= places then n else places;
    for i := 0 to count
      invariant Filled(buf[..], n, m, v, dpl, i)
    {
      ghost var s := buf[..];
      var a, a0 := ReadDigit(tab, len, lb, k, dpl, i * dpl);
      SplitAt(Quo(v, i * dpl), dpl);
      WriteResidues(buf, n, i, a, a0, m, invs, lb, k, dpl, Digit(v, dpl, i));
      FilledStep(s, buf[..], n, m, v, dpl, i);
    }
    BoundV(tab[..len], lb);
    FilledEnd(buf[..], n, m, v, dpl, count, len * lb);
  }

  method ClearBuffer(buf: array<nat>)
    modifies buf
    ensures forall i :: 0 <= i < buf.Length ==> buf[i] == 0
  {
    for i := 0 to buf.Length
      invariant forall j :: 0 <= j < i ==> buf[j] == 0
    {
      buf[i] := 0;
    }
  }
}
