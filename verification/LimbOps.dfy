/**
In-place limb-vector arithmetic: additions, subtractions and products by one
limb, each with its carry or borrow loop. A C pointer is an array and an offset.
*/
module LimbOps {
  import opened Arith
  import opened Limbs

  /** Wrap-around addition and subtraction of one machine limb. */
  function AddWrap(x: Limb, y: Limb): (r: Limb)
    ensures x + y == r + (if r < x then B else 0)
    ensures r < x <==> r < y
  {
    if x + y < B then x + y else x + y - B
  }

  function SubWrap(x: Limb, y: Limb): (r: Limb)
    ensures x - y == r - (if r > x then B else 0)
  {
    if x >= y then x - y else x - y + B
  }

  /** A vector read at `o` stays readable while a vector at `w` is written upwards. */
  ghost predicate Readable(dst: array<Limb>, w: nat, src: array<Limb>, o: nat, n: nat) {
    w + n <= dst.Length && o + n <= src.Length && (dst != src || w <= o || o + n <= w)
  }

  /** Everything outside [w, w+n) is as before. */
  twostate predicate OnlyRange(dst: array<Limb>, w: nat, n: nat)
    requires w + n <= dst.Length
    reads dst
  {
    forall j :: 0 <= j < dst.Length && !(w <= j < w + n) ==> dst[j] == old(dst[j])
  }

  lemma SliceSnoc(a: array<Limb>, lo: nat, hi: nat)
    requires lo <= hi < a.Length
    ensures a[lo..hi + 1] == a[lo..hi] + [a[hi]]
  {
  }

  /** A slice outside the written range is as before. */
  lemma Kept(a: array<Limb>, w: nat, n: nat, before: seq<Limb>, lo: nat)
    requires lo + |before| <= a.Length && (lo + |before| <= w || w + n <= lo)
    requires forall j {:trigger a[j]} :: lo <= j < lo + |before| ==> a[j] == before[j - lo]
    ensures a[lo..lo + |before|] == before
  {
  }

  lemma SubSlice(a: array<Limb>, lo: nat, hi: nat, i: nat, j: nat)
    requires lo <= hi <= a.Length && i <= j <= hi - lo
    ensures a[lo..hi][i..j] == a[lo + i..lo + j]
  {
    var s, t := a[lo..hi][i..j], a[lo + i..lo + j];
    forall k | 0 <= k < |s|
      ensures s[k] == t[k]
    {
      assert s[k] == a[lo..hi][i + k];
    }
  }

  lemma SliceSplit(a: array<Limb>, lo: nat, mid: nat, hi: nat)
    requires lo <= mid <= hi <= a.Length
    ensures a[lo..hi] == a[lo..mid] + a[mid..hi]
  {
  }

  lemma SliceCons(a: array<Limb>, lo: nat, hi: nat)
    requires lo < hi <= a.Length
    ensures a[lo..hi] == [a[lo]] + a[lo + 1..hi]
  {
  }

  /** `r` holds the low limbs of s + m*t + c, up to a signed carry `k`: the invariant of every carry loop. */
  ghost predicate Carried(r: seq<Limb>, k: int, s: seq<Limb>, t: seq<Limb>, m: int, c: int)
    requires |r| <= |s| == |t|
  {
    Val(r) + k * Pow(|r|) == Val(s[..|r|]) + m * Val(t[..|r|]) + c
  }

  lemma {:induction false} CarryStart(s: seq<Limb>, t: seq<Limb>, m: int, c: int)
    requires |s| == |t|
    ensures Carried([], c, s, t, m, c)
  {
  }

  lemma {:induction false} CarryStep(r: seq<Limb>, x: Limb, k: int, k': int,
                                     s: seq<Limb>, t: seq<Limb>, m: int, c: int)
    requires |r| < |s| == |t|
    requires Carried(r, k, s, t, m, c)
    requires x + k' * B == s[|r|] + m * t[|r|] + k
    ensures Carried(r + [x], k', s, t, m, c)
  {
    var i, p := |r|, Pow(|r|);
    ValSnoc(r, x);
    assert s[..i + 1] == s[..i] + [s[i]] && t[..i + 1] == t[..i] + [t[i]];
    ValSnoc(s[..i], s[i]);
    ValSnoc(t[..i], t[i]);
    CarryArith(x, k, k', s[i], m, t[i], B, p, Val(t[..i]));
  }

  lemma {:induction false} CarryEnd(r: seq<Limb>, k: int, s: seq<Limb>, t: seq<Limb>, m: int, c: int)
    requires |r| == |s| == |t| && Carried(r, k, s, t, m, c)
    ensures Val(r) + k * Pow(|r|) == Val(s) + m * Val(t) + c
  {
    assert s[..|r|] == s && t[..|r|] == t;
  }

  /** The same for a subtraction of b times t. */
  lemma {:induction false} BorrowEnd(r: seq<Limb>, k: int, s: seq<Limb>, t: seq<Limb>, b: int, c: int)
    requires |r| == |s| == |t| && Carried(r, 0 - k, s, t, 0 - b, 0 - c)
    ensures Val(r) - k * Pow(|r|) == Val(s) - Val(t) * b - c
  {
    CarryEnd(r, 0 - k, s, t, 0 - b, 0 - c);
    MulDist(0, k, Pow(|r|));
    MulDist(0, b, Val(t));
  }

  lemma CarryArith(x: int, k: int, k': int, u: int, m: int, v: int, b: int, p: int, w: int)
    requires x + k' * b == u + m * v + k
    ensures x * p + k' * (p * b) == u * p + (m * (w + v * p) - m * w) + k * p
  {
    MulDist(x, k' * b, p);
    MulDist(u + m * v, k, p);
    MulDist(u, m * v, p);
    MulAssoc(k', b, p);
    MulAssoc(m, v, p);
  }

  /** One column of an addition: two wrapping additions and the carry they reveal. */
  lemma AddDigit(v: Limb, w: Limb, k: int)
    requires 0 <= k <= 1
    ensures var a := AddWrap(v, w);
            var x := AddWrap(a, k);
            var k' := if x < k || a < v then 1 else 0;
            x + k' * B == v + 1 * w + k
  {
  }

  lemma UiDigit(v: Limb, k: Limb)
    ensures var a := AddWrap(v, k); a + (if a < k then 1 else 0) * B == v + 0 * v + k
    ensures var a := SubWrap(v, k); a + (0 - (if a > v then 1 else 0)) * B == v + 0 * v + (0 - k)
  {
  }

  lemma SubDigit(v: Limb, w: Limb, k: int)
    requires 0 <= k <= 1
    ensures var a := SubWrap(v, w);
            var x := SubWrap(a, k);
            var k' := if x > a || a > v then 1 else 0;
            x + (-k') * B == v + (-1) * w + (-k)
  {
  }

  /** res[] = op1[] + op2[] + carry; returns the carry out. */
  method MpAdd(res: array<Limb>, ro: nat, op1: array<Limb>, o1: nat, op2: array<Limb>, o2: nat,
               n: nat, carry: int) returns (k: int)
    requires Readable(res, ro, op1, o1, n) && Readable(res, ro, op2, o2, n)
    requires 0 <= carry <= 1
    modifies res
    ensures 0 <= k <= 1 && OnlyRange(res, ro, n)
    ensures Val(res[ro..ro + n]) + k * Pow(n) == old(Val(op1[o1..o1 + n])) + old(Val(op2[o2..o2 + n])) + carry
  {
    hide Val, Pow, Carried;
    ghost var s, t := op1[o1..o1 + n], op2[o2..o2 + n];
    k := carry;
    var i := 0;
    CarryStart(s, t, 1, carry);
    assert res[ro..ro + i] == [];
    while i < n
      invariant 0 <= i <= n && 0 <= k <= 1 && OnlyRange(res, ro, i)
      invariant forall j :: i <= j < n ==> op1[o1 + j] == s[j] && op2[o2 + j] == t[j]
      invariant Carried(res[ro..ro + i], k, s, t, 1, carry)
    {
      ghost var r, k0 := res[ro..ro + i], k;
      var v := op1[o1 + i];
      var a := AddWrap(v, op2[o2 + i]);
      var k1 := if a < v then 1 else 0;
      a := AddWrap(a, k);
      k := if a < k || k1 == 1 then 1 else 0;
      AddDigit(s[i], t[i], k0);
      CarryStep(r, a, k0, k, s, t, 1, carry);
      res[ro + i] := a;
      assert res[ro..ro + i + 1] == r + [a];
      i := i + 1;
    }
    CarryEnd(res[ro..ro + n], k, s, t, 1, carry);
  }

  /** res[] = op1[] - op2[] - carry; returns the borrow out. */
  method MpSub(res: array<Limb>, ro: nat, op1: array<Limb>, o1: nat, op2: array<Limb>, o2: nat,
               n: nat, carry: int) returns (k: int)
    requires Readable(res, ro, op1, o1, n) && Readable(res, ro, op2, o2, n)
    requires 0 <= carry <= 1
    modifies res
    ensures 0 <= k <= 1 && OnlyRange(res, ro, n)
    ensures Val(res[ro..ro + n]) - k * Pow(n) == old(Val(op1[o1..o1 + n])) - old(Val(op2[o2..o2 + n])) - carry
  {
    hide Val, Pow, Carried;
    ghost var s, t := op1[o1..o1 + n], op2[o2..o2 + n];
    k := carry;
    var i := 0;
    CarryStart(s, t, -1, -carry);
    assert res[ro..ro + i] == [];
    while i < n
      invariant 0 <= i <= n && 0 <= k <= 1 && OnlyRange(res, ro, i)
      invariant forall j :: i <= j < n ==> op1[o1 + j] == s[j] && op2[o2 + j] == t[j]
      invariant Carried(res[ro..ro + i], -k, s, t, -1, -carry)
    {
      ghost var r, k0 := res[ro..ro + i], -k;
      var v := op1[o1 + i];
      var a := SubWrap(v, op2[o2 + i]);
      var k1 := if a > v then 1 else 0;
      v := SubWrap(a, k);
      k := if v > a || k1 == 1 then 1 else 0;
      SubDigit(s[i], t[i], -k0);
      CarryStep(r, v, k0, -k, s, t, -1, -carry);
      res[ro + i] := v;
      assert res[ro..ro + i + 1] == r + [v];
      i := i + 1;
    }
    BorrowEnd(res[ro..ro + n], k, s, t, 1, carry);
  }

  /** A carry loop that stops early leaves the limbs above untouched, and they are already right. */
  lemma {:induction false} CarryStop(r: seq<Limb>, k: int, s: seq<Limb>, c: int)
    requires |r| <= |s| && (k == 0 || |r| == |s|)
    requires Carried(r, k, s, s, 0, c)
    ensures Val(r + s[|r|..]) + k * Pow(|s|) == Val(s) + c
  {
    ValConcat(r, s[|r|..]);
    ValSplit(s, |r|);
  }

  lemma {:induction false} BorrowStop(r: seq<Limb>, k: int, s: seq<Limb>, c: int)
    requires |r| <= |s| && (k == 0 || |r| == |s|)
    requires Carried(r, 0 - k, s, s, 0, 0 - c)
    ensures Val(r + s[|r|..]) - k * Pow(|s|) == Val(s) - c
  {
    CarryStop(r, 0 - k, s, 0 - c);
    MulDist(0, k, Pow(|s|));
  }

  /** tab[] += b; returns the carry out (`b` itself when there is no limb). */
  method MpAddUi(tab: array<Limb>, o: nat, b: Limb, n: nat) returns (k: Limb)
    requires o + n <= tab.Length
    modifies tab
    ensures OnlyRange(tab, o, n) && (n >= 1 ==> k <= 1)
    ensures Val(tab[o..o + n]) + k * Pow(n) == old(Val(tab[o..o + n])) + b
  {
    hide Val, Pow, Carried;
    ghost var s := tab[o..o + n];
    k := b;
    CarryStart(s, s, 0, b);
    assert tab[o..o] == [];
    var i := 0;
    while i < n && k != 0
      invariant 0 <= i <= n && OnlyRange(tab, o, i) && (i >= 1 ==> k <= 1)
      invariant Carried(tab[o..o + i], k, s, s, 0, b)
    {
      ghost var r, k0 := tab[o..o + i], k;
      UiDigit(s[i], k);
      var a := AddWrap(tab[o + i], k);
      k := if a < k then 1 else 0;
      CarryStep(r, a, k0, k, s, s, 0, b);
      tab[o + i] := a;
      assert tab[o..o + i + 1] == r + [a];
      i := i + 1;
    }
    CarryStop(tab[o..o + i], k, s, b);
    assert tab[o..o + n] == tab[o..o + i] + s[i..];
  }

  /** tab[] -= b; returns the borrow out (`b` itself when there is no limb). */
  method MpSubUi(tab: array<Limb>, o: nat, b: Limb, n: nat) returns (k: Limb)
    requires o + n <= tab.Length
    modifies tab
    ensures OnlyRange(tab, o, n) && (n >= 1 ==> k <= 1)
    ensures Val(tab[o..o + n]) - k * Pow(n) == old(Val(tab[o..o + n])) - b
  {
    hide Val, Pow, Carried;
    ghost var s := tab[o..o + n];
    k := b;
    CarryStart(s, s, 0, 0 - b);
    assert tab[o..o] == [];
    var i := 0;
    while i < n && (i == 0 || k != 0)
      invariant 0 <= i <= n && OnlyRange(tab, o, i) && (i >= 1 ==> k <= 1)
      invariant Carried(tab[o..o + i], 0 - k, s, s, 0, 0 - b)
    {
      ghost var r, k0: int := tab[o..o + i], k;
      UiDigit(s[i], k);
      var v := tab[o + i];
      var a := SubWrap(v, k);
      k := if a > v then 1 else 0;
      CarryStep(r, a, 0 - k0, 0 - k, s, s, 0, 0 - b);
      tab[o + i] := a;
      assert tab[o..o + i + 1] == r + [a];
      i := i + 1;
    }
    BorrowStop(tab[o..o + i], k, s, b);
    assert tab[o..o + n] == tab[o..o + i] + s[i..];
  }

  /** A product of two limbs plus two limbs still fits in two limbs. */
  lemma MulFits(x: Limb, y: Limb, k: Limb, w: Limb)
    ensures 0 <= x * y + k + w < B * B
  {
    MulFitsArith(x, y, k, w, B);
  }

  lemma MulFitsArith(x: nat, y: nat, k: nat, w: nat, b: nat)
    requires x < b && y < b && k < b && w < b
    ensures 0 <= x * y + k + w < b * b
  {
    MulMono(x, b - 1, y);
    MulMono(y, b - 1, b - 1);
    MulDist(b, 1, b - 1);
    MulDist(b, 1, b);
  }

  /** Division of a double limb, as the machine provides it. */
  method DivRem(t: nat, d: nat) returns (q: nat, r: nat)
    requires d > 0
    ensures t == q * d + r && r < d
  {
    q, r := t / d, t % d;
  }

  lemma QuotientBound(t: nat, d: nat, b: nat, q: nat, r: nat)
    requires t < b * d && t == q * d + r
    ensures q < b
  {
    if b <= q {
      MulMono(b, q, d);
    }
  }

  /** One column of a product, in double-limb arithmetic. */
  method MulDigit(w: Limb, x: Limb, b: Limb, k: Limb) returns (r: Limb, h: Limb)
    ensures r + h * B == w + b * x + k
  {
    MulFits(x, b, k, w);
    var q, lo := DivRem(x * b + k + w, B);
    QuotientBound(x * b + k + w, B, B, q, lo);
    r, h := lo, q;
  }

  /** One column of a multiply-and-subtract, in double-limb arithmetic modulo B^2. */
  method SubMulDigit(w: Limb, x: Limb, b: Limb, l: Limb) returns (r: Limb, h: Limb)
    ensures r + (0 - h) * B == w + (0 - b) * x + (0 - l)
  {
    ProductBound(x, b, l);
    var d: int := w - x * b - l;
    var t: nat := if d >= 0 then d else d + B * B;
    var q, lo := DivRem(t, B);
    SubMulArith(w, x * b + l, B, t, q, lo);
    MulDist(q, B, B);
    r, h := lo, if q == 0 then 0 else B - q;
  }

  lemma ProductBound(x: Limb, y: Limb, k: Limb)
    ensures 0 <= x * y + k <= (B - 1) * B
  {
    ProductBoundArith(x, y, k, B);
  }

  lemma ProductBoundArith(x: nat, y: nat, k: nat, b: nat)
    requires x < b && y < b && k < b
    ensures 0 <= x * y + k <= (b - 1) * b
  {
    MulMono(x, b - 1, y);
    MulMono(y, b - 1, b - 1);
    MulDist(b - 1, 1, b - 1);
  }

  lemma SubMulArith(w: nat, p: nat, b: nat, t: nat, q: nat, r: nat)
    requires w < b && p <= (b - 1) * b && b > 0
    requires t == (if w >= p then w - p else w - p + b * b) && t == q * b + r && r < b
    ensures q == 0 ==> w - p == r
    ensures q != 0 ==> w - p == r + (q - b) * b && 0 < q < b
  {
    MulDist(b, 1, b);
    MulDist(q, b, b);
    if w >= p {
      if q > 0 {
        MulMono(1, q, b);
      }
    } else if q >= b {
      MulMono(b, q, b);
    }
  }

  /** tabr[] = taba[] * b + l; returns the high limb. */
  method MpMul1(tabr: array<Limb>, ro: nat, taba: array<Limb>, ao: nat, n: nat, b: Limb, l: Limb) returns (h: Limb)
    requires Readable(tabr, ro, taba, ao, n)
    modifies tabr
    ensures OnlyRange(tabr, ro, n)
    ensures Val(tabr[ro..ro + n]) + h * Pow(n) == old(Val(taba[ao..ao + n])) * b + l
  {
    hide Val, Pow, Carried;
    ghost var z, s: seq<Limb> := seq(n, i => 0), taba[ao..ao + n];
    h := l;
    CarryStart(z, s, b, l);
    assert tabr[ro..ro] == [];
    for i := 0 to n
      invariant OnlyRange(tabr, ro, i)
      invariant forall j :: i <= j < n ==> taba[ao + j] == s[j]
      invariant Carried(tabr[ro..ro + i], h, z, s, b, l)
    {
      ghost var r, h0 := tabr[ro..ro + i], h;
      var x: Limb;
      x, h := MulDigit(0, taba[ao + i], b, h);
      CarryStep(r, x, h0, h, z, s, b, l);
      tabr[ro + i] := x;
      assert tabr[ro..ro + i + 1] == r + [x];
    }
    CarryEnd(tabr[ro..ro + n], h, z, s, b, l);
    ValZeros(z);
  }

  /** tabr[] += taba[] * b; returns the high limb. */
  method MpAddMul1(tabr: array<Limb>, ro: nat, taba: array<Limb>, ao: nat, n: nat, b: Limb) returns (l: Limb)
    requires Readable(tabr, ro, taba, ao, n)
    modifies tabr
    ensures OnlyRange(tabr, ro, n)
    ensures Val(tabr[ro..ro + n]) + l * Pow(n) == old(Val(tabr[ro..ro + n])) + old(Val(taba[ao..ao + n])) * b
  {
    hide Val, Pow, Carried;
    ghost var z, s := tabr[ro..ro + n], taba[ao..ao + n];
    l := 0;
    CarryStart(z, s, b, 0);
    assert tabr[ro..ro] == [];
    for i := 0 to n
      invariant OnlyRange(tabr, ro, i)
      invariant forall j :: i <= j < n ==> taba[ao + j] == s[j]
      invariant Carried(tabr[ro..ro + i], l, z, s, b, 0)
    {
      ghost var r, l0 := tabr[ro..ro + i], l;
      var x: Limb;
      x, l := MulDigit(tabr[ro + i], taba[ao + i], b, l);
      CarryStep(r, x, l0, l, z, s, b, 0);
      tabr[ro + i] := x;
      assert tabr[ro..ro + i + 1] == r + [x];
    }
    CarryEnd(tabr[ro..ro + n], l, z, s, b, 0);
  }

  /** tabr[] -= taba[] * b; returns the value to subtract from the high limb. */
  method MpSubMul1(tabr: array<Limb>, ro: nat, taba: array<Limb>, ao: nat, n: nat, b: Limb) returns (l: Limb)
    requires Readable(tabr, ro, taba, ao, n)
    modifies tabr
    ensures OnlyRange(tabr, ro, n)
    ensures Val(tabr[ro..ro + n]) - l * Pow(n) == old(Val(tabr[ro..ro + n])) - old(Val(taba[ao..ao + n])) * b
  {
    hide Val, Pow, Carried;
    ghost var z, s := tabr[ro..ro + n], taba[ao..ao + n];
    l := 0;
    CarryStart(z, s, 0 - b, 0);
    assert tabr[ro..ro] == [];
    for i := 0 to n
      invariant OnlyRange(tabr, ro, i)
      invariant forall j :: i <= j < n ==> taba[ao + j] == s[j]
      invariant Carried(tabr[ro..ro + i], 0 - l, z, s, 0 - b, 0)
    {
      ghost var r, l0: int := tabr[ro..ro + i], l;
      var x: Limb;
      x, l := SubMulDigit(tabr[ro + i], taba[ao + i], b, l);
      CarryStep(r, x, 0 - l0, 0 - l, z, s, 0 - b, 0);
      tabr[ro + i] := x;
      assert tabr[ro..ro + i + 1] == r + [x];
    }
    BorrowEnd(tabr[ro..ro + n], l, z, s, b, 0);
  }

  /** res[] = -op2[] modulo B^n, with the borrow returned. */
  method MpNeg(res: array<Limb>, ro: nat, op2: array<Limb>, o2: nat, n: nat, carry: int) returns (k: int)
    requires Readable(res, ro, op2, o2, n)
    requires 0 <= carry <= 1
    modifies res
    ensures 0 <= k <= 1 && OnlyRange(res, ro, n)
    ensures Val(res[ro..ro + n]) - k * Pow(n) == 0 - old(Val(op2[o2..o2 + n])) - carry
  {
    hide Val, Pow, Carried;
    ghost var z, t: seq<Limb> := seq(n, i => 0), op2[o2..o2 + n];
    k := carry;
    CarryStart(z, t, -1, -carry);
    assert res[ro..ro] == [];
    for i := 0 to n
      invariant 0 <= k <= 1 && OnlyRange(res, ro, i)
      invariant forall j :: i <= j < n ==> op2[o2 + j] == t[j]
      invariant Carried(res[ro..ro + i], -k, z, t, -1, -carry)
    {
      ghost var r, k0 := res[ro..ro + i], -k;
      SubDigit(0, t[i], k);
      var v: Limb := 0;
      var a := SubWrap(v, op2[o2 + i]);
      var k1 := if a > v then 1 else 0;
      v := SubWrap(a, k);
      k := if v > a || k1 == 1 then 1 else 0;
      CarryStep(r, v, k0, -k, z, t, -1, -carry);
      res[ro + i] := v;
      assert res[ro..ro + i + 1] == r + [v];
    }
    BorrowEnd(res[ro..ro + n], k, z, t, 1, carry);
    ValZeros(z);
  }

  /** `r` is the product of `s` and `t`. */
  ghost predicate IsProduct(r: seq<Limb>, s: seq<Limb>, t: seq<Limb>) {
    Val(r) == Val(s) * Val(t)
  }

  /** One row of a schoolbook product: `mid` becomes mid + s*x, with high limb `h`. */
  lemma {:induction false} MulRow(lo: seq<Limb>, mid: seq<Limb>, mid': seq<Limb>, h: Limb,
                                  s: seq<Limb>, t: seq<Limb>, x: Limb)
    requires |mid| == |mid'| && |lo| == |t| && IsProduct(lo + mid, s, t)
    requires Val(mid') + h * Pow(|mid|) == Val(mid) + Val(s) * x
    ensures IsProduct(lo + mid' + [h], s, t + [x])
  {
    hide Val, Pow;
    ValConcat(lo, mid);
    ValConcat(lo, mid' + [h]);
    assert lo + mid' + [h] == lo + (mid' + [h]);
    ValSnoc(mid', h);
    ValSnoc(t, x);
    MulRowArith(Pow(|lo|), Val(mid), Val(s), x, Val(t));
  }

  lemma MulRowArith(p: int, v: int, a: int, x: int, t: int)
    ensures p * (v + a * x) + a * t == p * v + a * (t + x * p)
  {
  }

  lemma {:induction false} MulFirst(r: seq<Limb>, h: Limb, s: seq<Limb>, x: Limb)
    requires |r| == |s| && Val(r) + h * Pow(|s|) == Val(s) * x + 0
    ensures IsProduct(r + [h], s, [x])
  {
    ValSnoc(r, h);
    ValSnoc([], x);
    assert [] + [x] == [x];
  }

  method MpMulRow(result: array<Limb>, ro: nat, i: nat, op1: array<Limb>, o1: nat, n1: nat, x: Limb,
                  ghost t: seq<Limb>)
    requires ro + i + n1 < result.Length && o1 + n1 <= op1.Length && result != op1 && |t| == i
    requires IsProduct(result[ro..ro + n1 + i], op1[o1..o1 + n1], t)
    modifies result
    ensures OnlyRange(result, ro + i, n1 + 1)
    ensures IsProduct(result[ro..ro + n1 + (i + 1)], op1[o1..o1 + n1], t + [x])
  {
    hide Val, Pow, IsProduct;
    ghost var lo, mid := result[ro..ro + i], result[ro + i..ro + i + n1];
    assert result[ro..ro + n1 + i] == lo + mid;
    var r := MpAddMul1(result, ro + i, op1, o1, n1, x);
    ghost var mid' := result[ro + i..ro + i + n1];
    MulRow(lo, mid, mid', r, op1[o1..o1 + n1], t, x);
    result[ro + i + n1] := r;
    assert result[ro..ro + n1 + (i + 1)] == lo + mid' + [r];
  }

  /** result[] = op1[] * op2[], schoolbook. */
  method MpMulBasecase(result: array<Limb>, ro: nat, op1: array<Limb>, o1: nat, n1: nat,
                       op2: array<Limb>, o2: nat, n2: nat)
    requires ro + n1 + n2 <= result.Length && o1 + n1 <= op1.Length && o2 + n2 <= op2.Length
    requires result != op1 && result != op2 && n2 >= 1
    modifies result
    ensures OnlyRange(result, ro, n1 + n2)
    ensures IsProduct(result[ro..ro + n1 + n2], op1[o1..o1 + n1], op2[o2..o2 + n2])
  {
    hide Val, Pow, IsProduct;
    ghost var s, t := op1[o1..o1 + n1], op2[o2..o2 + n2];
    var r := MpMul1(result, ro, op1, o1, n1, op2[o2], 0);
    MulFirst(result[ro..ro + n1], r, s, t[0]);
    result[ro + n1] := r;
    assert result[ro..ro + n1 + 1] == result[ro..ro + n1] + [r] && t[..1] == [t[0]];
    for i := 1 to n2
      invariant op1[o1..o1 + n1] == s && op2[o2..o2 + n2] == t
      invariant OnlyRange(result, ro, n1 + i)
      invariant IsProduct(result[ro..ro + n1 + i], s, t[..i])
    {
      MpMulRow(result, ro, i, op1, o1, n1, op2[o2 + i], t[..i]);
      assert t[..i + 1] == t[..i] + [t[i]];
    }
    assert t[..n2] == t;
  }

  /** `q` and the remainder `r` are the quotient of `t` with `high` above it by `d`. */
  ghost predicate Shifted(q: seq<Limb>, r: nat, t: seq<Limb>, d: nat, high: nat) {
    d * Val(q) + r == Val(t) + high * Pow(|t|)
  }

  /** tab_r[] = (tab[] + high*B^n) / d with d a power of two dividing B; returns the remainder. */
  method MpShr(tab_r: array<Limb>, ro: nat, tab: array<Limb>, o: nat, n: nat, d: nat, e: nat, high: Limb)
    returns (rem: Limb)
    requires ro + n <= tab_r.Length && o + n <= tab.Length && (tab_r == tab ==> ro == o)
    requires d >= 1 && d * e == B && high < d
    modifies tab_r
    ensures OnlyRange(tab_r, ro, n) && rem < d
    ensures Shifted(tab_r[ro..ro + n], rem, old(tab[o..o + n]), d, high)
  {
    hide Val, Pow, Shifted;
    ghost var s := tab[o..o + n];
    rem := high;
    var i := n;
    assert tab_r[ro + n..ro + n] == [] && s[n..] == [];
    ShrStart(d, high);
    while i > 0
      invariant 0 <= i <= n && rem < d
      invariant OnlyRange(tab_r, ro + i, n - i)
      invariant forall j :: 0 <= j < i ==> tab[o + j] == s[j]
      invariant Shifted(tab_r[ro + i..ro + n], rem, s[i..], d, high)
    {
      i := i - 1;
      ghost var hi := tab_r[ro + i + 1..ro + n];
      var x, r := ShrDigit(tab[o + i], rem, d, e);
      assert s[i..] == [s[i]] + s[i + 1..];
      ShrStep(hi, s[i + 1..], s[i], x, r, rem, d, high);
      tab_r[ro + i] := x;
      rem := r;
      assert tab_r[ro + i..ro + n] == [x] + hi;
    }
    assert s[0..] == s;
  }

  lemma {:induction false} ShrStart(d: nat, high: nat)
    ensures Shifted([], high, [], d, high)
  {
  }

  /** One limb of a right shift: the bits of `a` above `d`, with the `l` bits shifted out of the limb above. */
  method ShrDigit(a: Limb, l: Limb, d: nat, e: nat) returns (x: Limb, r: Limb)
    requires l < d && d * e == B
    ensures r < d && d * x + r == a + l * B
  {
    var q, r' := DivRem(a, d);
    ShrBound(a, q, r', l, d, e, B);
    x, r := q + l * e, r';
  }

  lemma ShrBound(a: nat, q: nat, r: nat, l: nat, d: nat, e: nat, b: nat)
    requires a < b && a == q * d + r && r < d && l < d && d * e == b
    ensures q + l * e < b && r < b && d * (q + l * e) + r == a + l * b
  {
    QuotientBound(a, d, e, q, r);
    MulMono(l, d - 1, e);
    MulDist(d, 1, e);
    MulMono(1, e, d);
    MulDist(q, l * e, d);
    MulAssoc(l, e, d);
  }

  lemma {:induction false} ShrStep(hi: seq<Limb>, t: seq<Limb>, a: Limb, x: Limb, r: nat, l: nat, d: nat, high: nat)
    requires |hi| == |t|
    requires d * x + r == a + l * B
    requires Shifted(hi, l, t, d, high)
    ensures Shifted([x] + hi, r, [a] + t, d, high)
  {
    hide Val;
    ValCons(x, hi);
    ValCons(a, t);
    ShrArith(d, B, x, l, r, a, Val(hi), Val(t), high, Pow(|t|));
  }

  lemma ShrArith(d: nat, b: nat, x: nat, l: nat, r: nat, a: nat, hi: nat, t: nat, high: nat, p: nat)
    requires d * x + r == a + l * b && d * hi + l == t + high * p
    ensures d * (x + b * hi) + r == a + b * t + high * (p * b)
  {
    MulDist(x, b * hi, d);
    MulAssoc(d, hi, b);
    MulDist(d * hi, l, b);
    MulDist(t, high * p, b);
    MulAssoc(high, p, b);
  }

  /** Compares two vectors of the same length: -1, 0 or 1. */
  method MpCmp(taba: array<Limb>, ao: nat, tabb: array<Limb>, bo: nat, n: nat) returns (c: int)
    requires ao + n <= taba.Length && bo + n <= tabb.Length
    ensures c == -1 || c == 0 || c == 1
    ensures c < 0 <==> Val(taba[ao..ao + n]) < Val(tabb[bo..bo + n])
    ensures c == 0 <==> Val(taba[ao..ao + n]) == Val(tabb[bo..bo + n])
  {
    hide Val, Pow;
    ghost var s, t := taba[ao..ao + n], tabb[bo..bo + n];
    var i := n;
    while i > 0
      invariant 0 <= i <= n && s[i..] == t[i..]
    {
      i := i - 1;
      if taba[ao + i] != tabb[bo + i] {
        if taba[ao + i] < tabb[bo + i] {
          TopDiffers(s, t, i);
          return -1;
        } else {
          TopDiffers(t, s, i);
          return 1;
        }
      }
      assert s[i..] == [s[i]] + s[i + 1..] && t[i..] == [t[i]] + t[i + 1..];
    }
    assert s[0..] == s && t[0..] == t;
    return 0;
  }

  lemma {:induction false} TopDiffers(s: seq<Limb>, t: seq<Limb>, i: nat)
    requires i < |s| == |t| && s[i] < t[i] && s[i + 1..] == t[i + 1..]
    ensures Val(s) < Val(t)
  {
    hide Val, Pow;
    ValSplit(s, i + 1);
    ValSplit(t, i + 1);
    assert s[..i + 1] == s[..i] + [s[i]] && t[..i + 1] == t[..i] + [t[i]];
    ValSnoc(s[..i], s[i]);
    ValSnoc(t[..i], t[i]);
    ValBound(s[..i]);
    MulMono(s[i] + 1, t[i], Pow(i));
    MulDist(s[i], 1, Pow(i));
  }
}
