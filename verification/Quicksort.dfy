/** rqsort: three-way partition and an explicit stack of 50 segments that never overflows. */
module Quicksort {
  import opened Sorting

  /** The elements of [i, j) compare with the pivot as its argument order says. */
  ghost predicate Equal<T>(cmp: (T, T) -> int, s: seq<T>, x: T, i: int, j: int) {
    forall k :: 0 <= i <= k < j <= |s| ==> cmp(x, s[k]) == 0
  }

  ghost predicate Smaller<T>(cmp: (T, T) -> int, s: seq<T>, x: T, i: int, j: int) {
    forall k :: 0 <= i <= k < j <= |s| ==> cmp(x, s[k]) > 0
  }

  ghost predicate Greater<T>(cmp: (T, T) -> int, s: seq<T>, x: T, i: int, j: int) {
    forall k :: 0 <= i <= k < j <= |s| ==> cmp(x, s[k]) < 0
  }

  /** Equal, smaller, unknown, greater, equal. */
  ghost predicate Parted<T>(cmp: (T, T) -> int, s: seq<T>, x: T, lo: int, plt: int, pi: int, pj: int, pgt: int, top: int) {
    0 <= lo < plt <= pi && pi <= pj + 1 && pj < pgt <= top <= |s| && s[lo] == x &&
    Equal(cmp, s, x, lo, plt) && Smaller(cmp, s, x, plt, pi) && Greater(cmp, s, x, pj + 1, pgt) && Equal(cmp, s, x, pgt, top)
  }

  /** med3: the index of the median of three elements. */
  method Med3<T(!new)>(a: array<T>, i: nat, j: nat, k: nat, cmp: (T, T) -> int) returns (m: nat)
    requires i < a.Length && j < a.Length && k < a.Length && Preorder(cmp)
    ensures m == i || m == j || m == k
    ensures (exists n :: n in multiset{i, j, k} - multiset{m} && cmp(a[n], a[m]) <= 0) &&
            (exists n :: n in multiset{i, j, k} - multiset{m} && cmp(a[n], a[m]) >= 0)
  {
    if cmp(a[i], a[j]) < 0 {
      if cmp(a[j], a[k]) < 0 {
        m := j;
        assert i in multiset{i, j, k} - multiset{m} && k in multiset{i, j, k} - multiset{m};
      } else if cmp(a[i], a[k]) < 0 {
        m := k;
        assert i in multiset{i, j, k} - multiset{m} && j in multiset{i, j, k} - multiset{m};
      } else {
        m := i;
        assert j in multiset{i, j, k} - multiset{m} && k in multiset{i, j, k} - multiset{m};
      }
    } else {
      if cmp(a[j], a[k]) > 0 {
        m := j;
        assert i in multiset{i, j, k} - multiset{m} && k in multiset{i, j, k} - multiset{m};
      } else if cmp(a[i], a[k]) < 0 {
        m := i;
        assert j in multiset{i, j, k} - multiset{m} && k in multiset{i, j, k} - multiset{m};
      } else {
        m := k;
        assert i in multiset{i, j, k} - multiset{m} && j in multiset{i, j, k} - multiset{m};
      }
    }
  }

  lemma {:induction false} UpEqual<T>(cmp: (T, T) -> int, s: seq<T>, x: T, lo: int, plt: int, pi: int, pj: int, pgt: int, top: int)
    requires Parted(cmp, s, x, lo, plt, pi, pj, pgt, top) && pi <= pj && cmp(x, s[pi]) == 0
    ensures Parted(cmp, Swapped(s, plt, pi), x, lo, plt + 1, pi + 1, pj, pgt, top)
  {
  }

  lemma {:induction false} UpSmaller<T>(cmp: (T, T) -> int, s: seq<T>, x: T, lo: int, plt: int, pi: int, pj: int, pgt: int, top: int)
    requires Parted(cmp, s, x, lo, plt, pi, pj, pgt, top) && pi <= pj && cmp(x, s[pi]) > 0
    ensures Parted(cmp, s, x, lo, plt, pi + 1, pj, pgt, top)
  {
  }

  lemma {:induction false} DownEqual<T>(cmp: (T, T) -> int, s: seq<T>, x: T, lo: int, plt: int, pi: int, pj: int, pgt: int, top: int)
    requires Parted(cmp, s, x, lo, plt, pi, pj, pgt, top) && pi <= pj && cmp(x, s[pj]) == 0
    ensures Parted(cmp, Swapped(s, pgt - 1, pj), x, lo, plt, pi, pj - 1, pgt - 1, top)
    ensures pi < pj ==> Swapped(s, pgt - 1, pj)[pi] == s[pi]
  {
  }

  lemma {:induction false} DownGreater<T>(cmp: (T, T) -> int, s: seq<T>, x: T, lo: int, plt: int, pi: int, pj: int, pgt: int, top: int)
    requires Parted(cmp, s, x, lo, plt, pi, pj, pgt, top) && pi <= pj && cmp(x, s[pj]) < 0
    ensures Parted(cmp, s, x, lo, plt, pi, pj - 1, pgt, top)
  {
  }

  lemma {:induction false} Exchange<T>(cmp: (T, T) -> int, s: seq<T>, x: T, lo: int, plt: int, pi: int, pj: int, pgt: int, top: int)
    requires Parted(cmp, s, x, lo, plt, pi, pj, pgt, top) && pi < pj && cmp(x, s[pi]) < 0 && cmp(x, s[pj]) > 0
    ensures Parted(cmp, Swapped(s, pi, pj), x, lo, plt, pi + 1, pj - 1, pgt, top)
  {
  }

  /** Skips smaller elements, collecting those equal to the pivot on the left. */
  method ScanUp<T(!new)>(a: array<T>, lo: nat, plt0: nat, pi0: nat, pj: nat, ghost pgt: int, ghost top: nat, cmp: (T, T) -> int,
                         ghost s: seq<T>) returns (plt: nat, pi: nat)
    requires lo < top <= a.Length && lo < plt0 && Permuted(s, a[..], lo, top) && Parted(cmp, a[..], a[lo], lo, plt0, pi0, pj - 1, pgt, top)
    modifies a
    ensures a[lo] == old(a[lo]) && plt <= pi <= pj && pi0 <= pi && Permuted(s, a[..], lo, top)
    ensures Parted(cmp, a[..], a[lo], lo, plt, pi, pj - 1, pgt, top) && (pi < pj ==> cmp(a[lo], a[pi]) < 0)
  {
    plt, pi := plt0, pi0;
    ghost var x := a[lo];
    PartedBounds(cmp, a[..], x, lo, plt, pi, pj - 1, pgt, top);
    hide Permuted, Parted, Swapped;
    while pi < pj && cmp(a[lo], a[pi]) >= 0
      invariant lo < plt <= pi <= pj && pi0 <= pi && a[lo] == x && Permuted(s, a[..], lo, top) && Parted(cmp, a[..], x, lo, plt, pi, pj - 1, pgt, top)
      decreases pj - pi
    {
      if cmp(a[lo], a[pi]) == 0 {
        UpEqual(cmp, a[..], x, lo, plt, pi, pj - 1, pgt, top);
        SwapIn(a, plt, pi, s, lo, top);
        plt := plt + 1;
      } else {
        UpSmaller(cmp, a[..], x, lo, plt, pi, pj - 1, pgt, top);
      }
      pi := pi + 1;
      PartedBounds(cmp, a[..], x, lo, plt, pi, pj - 1, pgt, top);
    }
  }

  lemma {:induction false} PartedBounds<T>(cmp: (T, T) -> int, s: seq<T>, x: T, lo: int, plt: int, pi: int, pj: int, pgt: int, top: int)
    requires Parted(cmp, s, x, lo, plt, pi, pj, pgt, top)
    ensures 0 <= lo < plt <= pi && pi <= pj + 1 && pj < pgt <= top <= |s| && s[lo] == x
  {
  }

  /** Skips greater elements from the top, collecting those equal to the pivot on the right. */
  method ScanDown<T(!new)>(a: array<T>, lo: nat, ghost plt: int, pi: nat, pj0: nat, pgt0: nat, ghost top: nat, cmp: (T, T) -> int,
                           ghost s: seq<T>) returns (pj: int, pgt: nat)
    requires lo < top <= a.Length && Permuted(s, a[..], lo, top) && Parted(cmp, a[..], a[lo], lo, plt, pi, pj0 - 1, pgt0, top)
    requires pi < pj0 ==> cmp(a[lo], a[pi]) < 0
    modifies a
    ensures a[lo] == old(a[lo]) && Permuted(s, a[..], lo, top)
    ensures Parted(cmp, a[..], a[lo], lo, plt, pi, pj, pgt, top) && pj < pj0
    ensures pi <= pj ==> cmp(a[lo], a[pi]) < 0
    ensures pi < pj ==> cmp(a[lo], a[pj]) > 0
  {
    pj, pgt := pj0 - 1, pgt0;
    ghost var x := a[lo];
    PartedBounds(cmp, a[..], x, lo, plt, pi, pj, pgt, top);
    hide Permuted, Parted, Swapped;
    while pi < pj && cmp(a[lo], a[pj]) <= 0
      invariant lo < pi <= pj + 1 && pj < pgt <= top && a[lo] == x && Permuted(s, a[..], lo, top) && pj < pj0
      invariant Parted(cmp, a[..], x, lo, plt, pi, pj, pgt, top) && (pi <= pj ==> cmp(x, a[pi]) < 0)
      decreases pj - pi
    {
      if cmp(a[lo], a[pj]) == 0 {
        ghost var t := a[..];
        DownEqual(cmp, t, x, lo, plt, pi, pj, pgt, top);
        pgt := pgt - 1;
        SwapIn(a, pgt, pj, s, lo, top);
        assert a[pi] == a[..][pi] == t[pi];
      } else {
        DownGreater(cmp, a[..], x, lo, plt, pi, pj, pgt, top);
      }
      pj := pj - 1;
      PartedBounds(cmp, a[..], x, lo, plt, pi, pj, pgt, top);
    }
  }

  /** Partitions a[lo..top) around a[lo] into elements equal, smaller, greater and equal. */
  method FourWay<T(!new)>(a: array<T>, lo: nat, top: nat, cmp: (T, T) -> int, ghost s: seq<T>)
    returns (plt: nat, pi: nat, pgt: nat)
    requires lo < top <= a.Length && Preorder(cmp) && Permuted(s, a[..], lo, top)
    modifies a
    ensures Permuted(s, a[..], lo, top) && Parted(cmp, a[..], a[lo], lo, plt, pi, pi - 1, pgt, top)
  {
    plt, pi, pgt := lo + 1, lo + 1, top;
    var pj: nat, done := top, false;
    PartedStart(cmp, a[..], lo, top);
    hide Permuted, Parted, Preorder;
    while !done
      invariant plt > lo && Permuted(s, a[..], lo, top) && Parted(cmp, a[..], a[lo], lo, plt, pi, if done then pi - 1 else pj - 1, pgt, top)
      invariant !done ==> pi <= pj
      decreases !done, if done then 0 else pj - pi
    {
      plt, pi, pj, pgt, done := OneRound(a, lo, plt, pi, pj, pgt, top, cmp, s);
    }
  }

  /** Both scans, and an exchange unless they have met. */
  method OneRound<T(!new)>(a: array<T>, lo: nat, plt0: nat, pi0: nat, pj0: nat, pgt0: nat, ghost top: nat, cmp: (T, T) -> int, ghost s: seq<T>)
    returns (plt: nat, pi: nat, pj: nat, pgt: nat, done: bool)
    requires lo < top <= a.Length && plt0 > lo && Permuted(s, a[..], lo, top)
    requires Parted(cmp, a[..], a[lo], lo, plt0, pi0, pj0 - 1, pgt0, top) && pi0 <= pj0
    modifies a
    ensures plt > lo && Permuted(s, a[..], lo, top)
    ensures Parted(cmp, a[..], a[lo], lo, plt, pi, if done then pi - 1 else pj - 1, pgt, top)
    ensures !done ==> pi <= pj && pj - pi < pj0 - pi0
  {
    hide Permuted, Parted, Swapped;
    ghost var x := a[lo];
    plt, pi := ScanUp(a, lo, plt0, pi0, pj0, pgt0, top, cmp, s);
    PartedBounds(cmp, a[..], x, lo, plt, pi, pj0 - 1, pgt0, top);
    var j;
    j, pgt := ScanDown(a, lo, plt, pi, pj0, pgt0, top, cmp, s);
    PartedBounds(cmp, a[..], x, lo, plt, pi, j, pgt, top);
    pj := j;
    done := pi >= j;
    if done {
      if pi == j {
        DownGreater(cmp, a[..], x, lo, plt, pi, j, pgt, top);
      }
      return;
    }
    Exchange(cmp, a[..], x, lo, plt, pi, j, pgt, top);
    SwapIn(a, pi, j, s, lo, top);
    pi := pi + 1;
  }

  lemma {:induction false} PartedStart<T(!new)>(cmp: (T, T) -> int, s: seq<T>, lo: nat, top: nat)
    requires lo < top <= |s| && Preorder(cmp)
    ensures Parted(cmp, s, s[lo], lo, lo + 1, lo + 1, top - 1, top, top)
  {
    Reflexive(cmp, s[lo]);
  }

  /** t is s with the blocks of n elements at x and y exchanged. */
  ghost predicate Exchanged<T>(s: seq<T>, t: seq<T>, x: nat, y: nat, n: nat) {
    |s| == |t| && x + n <= y && y + n <= |s| &&
    (forall k :: 0 <= k < |s| && !(x <= k < x + n) && !(y <= k < y + n) ==> t[k] == s[k]) &&
    (forall k :: x <= k < x + n ==> t[k] == s[y + (k - x)]) &&
    (forall k :: y <= k < y + n ==> t[k] == s[x + (k - y)])
  }

  method SwapBlock<T>(a: array<T>, x: nat, y: nat, n: nat, ghost s: seq<T>, ghost lo: nat, ghost hi: nat)
    requires lo <= x && x + n <= y && y + n <= hi <= a.Length && Permuted(s, a[..], lo, hi)
    modifies a
    ensures Permuted(s, a[..], lo, hi) && Exchanged(old(a[..]), a[..], x, y, n)
  {
    ghost var t := a[..];
    hide Permuted, Exchanged, Swapped;
    ExchangeNone(t, x, y);
    var k := 0;
    while k < n
      invariant 0 <= k <= n && Permuted(s, a[..], lo, hi) && Exchanged(t, a[..], x, y, k)
      decreases n - k
    {
      ExchangeOne(t, a[..], x, y, k);
      SwapIn(a, x + k, y + k, s, lo, hi);
      k := k + 1;
    }
  }

  lemma {:induction false} ExchangeNone<T>(s: seq<T>, x: nat, y: nat)
    requires x <= y <= |s|
    ensures Exchanged(s, s, x, y, 0)
  {
  }

  lemma {:induction false} ExchangeOne<T>(s: seq<T>, t: seq<T>, x: nat, y: nat, k: nat)
    requires Exchanged(s, t, x, y, k) && x + k < y && y + k < |s|
    ensures Exchanged(s, Swapped(t, x + k, y + k), x, y, k + 1)
  {
  }

  /** After both block exchanges: smaller, equal, greater. */
  ghost predicate ThreeWay<T>(cmp: (T, T) -> int, s: seq<T>, x: T, lo: int, p: int, q: int, hi: int) {
    0 <= lo <= p < q <= hi <= |s| && Smaller(cmp, s, x, lo, p) && Equal(cmp, s, x, p, q) && Greater(cmp, s, x, q, hi)
  }

  lemma {:induction false} LeftBlock<T>(cmp: (T, T) -> int, s: seq<T>, t: seq<T>, x: T, lo: int, plt: int, pi: int, pgt: int, top: int, n: nat)
    requires Parted(cmp, s, x, lo, plt, pi, pi - 1, pgt, top) && n == (if plt - lo > pi - plt then pi - plt else plt - lo)
    requires Exchanged(s, t, lo, pi - n, n)
    ensures Smaller(cmp, t, x, lo, lo + (pi - plt)) && Equal(cmp, t, x, lo + (pi - plt), pi)
    ensures Greater(cmp, t, x, pi, pgt) && Equal(cmp, t, x, pgt, top)
  {
  }

  lemma {:induction false} RightBlock<T>(cmp: (T, T) -> int, s: seq<T>, t: seq<T>, x: T, lo: int, p: int, pi: int, pgt: int, top: int, n: nat)
    requires 0 <= lo <= p < pi <= pgt <= top <= |s| && n == (if top - pgt > pgt - pi then pgt - pi else top - pgt)
    requires Smaller(cmp, s, x, lo, p) && Equal(cmp, s, x, p, pi) && Greater(cmp, s, x, pi, pgt) && Equal(cmp, s, x, pgt, top)
    requires Exchanged(s, t, pi, top - n, n)
    ensures ThreeWay(cmp, t, x, lo, p, top - (pgt - pi), top)
  {
  }

  /** Moves a pivot to the front, and partitions a[lo..hi): smaller, equal and greater elements. */
  method Partition<T(!new)>(a: array<T>, lo: nat, hi: nat, cmp: (T, T) -> int) returns (p: nat, q: nat, ghost x: T)
    requires lo + 6 < hi <= a.Length && Preorder(cmp)
    modifies a
    ensures Permuted(old(a[..]), a[..], lo, hi) && ThreeWay(cmp, a[..], x, lo, p, q, hi)
  {
    ghost var s := a[..];
    PermutedRefl(s, lo, hi);
    var m4 := (hi - lo) / 4;
    var m := Med3(a, lo + m4, lo + 2 * m4, lo + 3 * m4, cmp);
    hide Permuted, Parted, Preorder, Swapped, ThreeWay;
    SwapIn(a, lo, m, s, lo, hi);
    var plt, pi, pgt := FourWay(a, lo, hi, cmp, s);
    x := a[lo];
    p, q := Gather(a, lo, plt, pi, pgt, hi, cmp, s);
  }

  /** Moves the elements equal to the pivot to the middle. */
  method Gather<T(!new)>(a: array<T>, lo: nat, plt: nat, pi: nat, pgt: nat, hi: nat, ghost cmp: (T, T) -> int, ghost s: seq<T>)
    returns (p: nat, q: nat)
    requires lo < hi <= a.Length && Permuted(s, a[..], lo, hi) && Parted(cmp, a[..], a[lo], lo, plt, pi, pi - 1, pgt, hi)
    modifies a
    ensures Permuted(s, a[..], lo, hi) && ThreeWay(cmp, a[..], old(a[lo]), lo, p, q, hi)
  {
    hide Permuted, Parted, Exchanged, ThreeWay, Smaller, Equal, Greater;
    ghost var x := a[lo];
    ghost var t := a[..];
    PartedBounds(cmp, t, x, lo, plt, pi, pi - 1, pgt, hi);
    var span := if plt - lo > pi - plt then pi - plt else plt - lo;
    SwapBlock(a, lo, pi - span, span, s, lo, hi);
    LeftBlock(cmp, t, a[..], x, lo, plt, pi, pgt, hi, span);
    p := lo + (pi - plt);
    var span2 := if hi - pgt > pgt - pi then pgt - pi else hi - pgt;
    t := a[..];
    SwapBlock(a, pi, hi - span2, span2, s, lo, hi);
    q := hi - (pgt - pi);
    RightBlock(cmp, t, a[..], x, lo, p, pi, pgt, hi, span2);
  }

  /** A segment still to be sorted, and how many partitions led to it. */
  datatype Seg = Seg(base: nat, count: nat, depth: nat)

  predicate Within(g: Seg, i: int, j: int) {
    g.base <= i && j < g.base + g.count
  }

  ghost predicate Together(segs: seq<Seg>, i: int, j: int) {
    exists k :: 0 <= k < |segs| && Within(segs[k], i, j)
  }

  /** Elements that are not in one pending segment are already in order. */
  ghost predicate Sorted<T>(cmp: (T, T) -> int, s: seq<T>, n: nat, segs: seq<Seg>)
    requires n <= |s|
  {
    forall i, j :: 0 <= i < j < n ==> Together(segs, i, j) || cmp(s[i], s[j]) <= 0
  }

  predicate Disjoint(g: Seg, h: Seg) {
    g.base + g.count <= h.base || h.base + h.count <= g.base
  }

  /** Segments inside [0, n) that do not overlap. */
  ghost predicate Apart(segs: seq<Seg>, n: nat) {
    (forall k :: 0 <= k < |segs| ==> segs[k].base + segs[k].count <= n) &&
    (forall k, m :: 0 <= k < m < |segs| ==> Disjoint(segs[k], segs[m]))
  }

  lemma {:induction false} TogetherSnoc(segs: seq<Seg>, g: Seg, i: int, j: int)
    ensures Together(segs + [g], i, j) <==> Together(segs, i, j) || Within(g, i, j)
  {
    var all := segs + [g];
    if Together(segs, i, j) {
      var k :| 0 <= k < |segs| && Within(segs[k], i, j);
      assert Within(all[k], i, j);
    }
    if Within(g, i, j) {
      assert Within(all[|segs|], i, j);
    }
  }

  /** Permuting the current segment keeps what is in order. */
  lemma {:induction false} Rearranged<T>(cmp: (T, T) -> int, s: seq<T>, t: seq<T>, n: nat, rest: seq<Seg>, g: Seg)
    requires n <= |s| && Apart(rest + [g], n) && Sorted(cmp, s, n, rest + [g]) && Permuted(s, t, g.base, g.base + g.count)
    ensures |t| == |s| && Sorted(cmp, t, n, rest + [g])
  {
    var lo, hi := g.base, g.base + g.count;
    assert (rest + [g])[|rest|] == g;
    forall i, j | 0 <= i < j < n && !Together(rest + [g], i, j)
      ensures cmp(t[i], t[j]) <= 0
    {
      var i', j' := i, j;
      if lo <= i < hi {
        i' := Origin(s, t, lo, hi, i);
      }
      if lo <= j < hi {
        j' := Origin(s, t, lo, hi, j);
      }
      TogetherSnoc(rest, g, i, j);
      TogetherSnoc(rest, g, i', j');
      StillApart(rest, g, n, i, j, i', j');
      assert cmp(s[i'], s[j']) <= 0;
    }
  }

  /** Moving a position inside the current segment does not bring it together with others. */
  lemma {:induction false} StillApart(rest: seq<Seg>, g: Seg, n: nat, i: nat, j: nat, i': nat, j': nat)
    requires Apart(rest + [g], n) && i < j && !Together(rest, i, j) && !Within(g, i, j)
    requires (i' == i && !Within(g, i, i)) || (Within(g, i, i) && Within(g, i', i'))
    requires (j' == j && !Within(g, j, j)) || (Within(g, j, j) && Within(g, j', j'))
    ensures i' < j' && !Together(rest, i', j') && !Within(g, i', j')
  {
    forall k | 0 <= k < |rest|
      ensures !Within(rest[k], i', j')
    {
      assert (rest + [g])[k] == rest[k] && (rest + [g])[|rest|] == g;
      assert Disjoint(rest[k], g) && !Within(rest[k], i, j);
    }
  }

  /** A partitioned segment leaves two. */
  lemma {:induction false} SplitSegment<T(!new)>(cmp: (T, T) -> int, s: seq<T>, n: nat, rest: seq<Seg>, g: Seg, x: T, p: nat, q: nat,
                                                 first: Seg, second: Seg)
    requires n <= |s| && Preorder(cmp) && Apart(rest + [g], n) && Sorted(cmp, s, n, rest + [g])
    requires ThreeWay(cmp, s, x, g.base, p, q, g.base + g.count)
    requires var a, b := (g.base, p - g.base), (q, g.base + g.count - q);
             ((first.base, first.count) == a && (second.base, second.count) == b) ||
             ((first.base, first.count) == b && (second.base, second.count) == a)
    ensures Sorted(cmp, s, n, rest + [first] + [second]) && Apart(rest + [first] + [second], n)
  {
    SplitApart(rest, g, n, p, q, first, second);
    forall i, j | 0 <= i < j < n && !Together(rest + [first] + [second], i, j)
      ensures cmp(s[i], s[j]) <= 0
    {
      TogetherSnoc(rest + [first], second, i, j);
      TogetherSnoc(rest, first, i, j);
      TogetherSnoc(rest, g, i, j);
      if Within(g, i, j) {
        AcrossParts(cmp, s, x, g.base, p, q, g.base + g.count, i, j);
      }
    }
  }

  lemma {:induction false} SplitApart(rest: seq<Seg>, g: Seg, n: nat, p: nat, q: nat, first: Seg, second: Seg)
    requires Apart(rest + [g], n) && g.base <= p < q <= g.base + g.count
    requires var a, b := (g.base, p - g.base), (q, g.base + g.count - q);
             ((first.base, first.count) == a && (second.base, second.count) == b) ||
             ((first.base, first.count) == b && (second.base, second.count) == a)
    ensures Apart(rest + [first] + [second], n)
  {
    var old_, all := rest + [g], rest + [first] + [second];
    assert old_[|rest|] == g;
    forall k, m | 0 <= k < m < |all|
      ensures Disjoint(all[k], all[m])
    {
      if k < |rest| {
        assert old_[k] == rest[k] && Disjoint(old_[k], old_[|rest|]);
        if m < |rest| {
          assert old_[m] == rest[m] && Disjoint(old_[k], old_[m]);
        }
      }
    }
    forall k | 0 <= k < |all|
      ensures all[k].base + all[k].count <= n
    {
      if k < |rest| {
        assert old_[k] == rest[k];
      }
    }
  }

  /** Elements of different parts are in order. */
  lemma {:induction false} AcrossParts<T(!new)>(cmp: (T, T) -> int, s: seq<T>, x: T, lo: nat, p: nat, q: nat, hi: nat, i: nat, j: nat)
    requires Preorder(cmp) && ThreeWay(cmp, s, x, lo, p, q, hi) && lo <= i < j < hi && !(j < p) && !(q <= i)
    ensures cmp(s[i], s[j]) <= 0
  {
    assert cmp(s[i], x) <= 0;
    assert cmp(x, s[j]) <= 0;
  }

  /** A segment that has been sorted is no longer pending. */
  lemma {:induction false} SegmentDone<T>(cmp: (T, T) -> int, s: seq<T>, n: nat, rest: seq<Seg>, g: Seg)
    requires n <= |s| && Sorted(cmp, s, n, rest + [g]) && InOrder(cmp, s, g.base, g.base + g.count) && g.base + g.count <= n
    ensures Sorted(cmp, s, n, rest)
  {
    forall i, j | 0 <= i < j < n && !Together(rest, i, j)
      ensures cmp(s[i], s[j]) <= 0
    {
      TogetherSnoc(rest, g, i, j);
    }
  }

  /** The stack never needs more slots than partitions were made on the way to its top. */
  ghost predicate DepthsOk(stack: seq<Seg>) {
    |stack| <= 50 && forall k :: 0 <= k < |stack| ==> stack[k].depth >= k
  }

  ghost function Weight(stack: seq<Seg>): nat {
    if stack == [] then 0 else Weight(stack[..|stack| - 1]) + 2 * stack[|stack| - 1].count + 1
  }

  lemma {:induction false} WeightSnoc(stack: seq<Seg>, g: Seg)
    ensures Weight(stack + [g]) == Weight(stack) + 2 * g.count + 1
  {
    assert (stack + [g])[..|stack|] == stack;
  }

  /** The state of the sort: pending segments, in order elsewhere. */
  ghost predicate Pending<T>(cmp: (T, T) -> int, s0: seq<T>, s: seq<T>, n: nat, segs: seq<Seg>) {
    n <= |s| && Permuted(s0, s, 0, n) && Apart(segs, n) && Sorted(cmp, s, n, segs)
  }

  /** rqsort: sorts the first n elements. */
  method RqSort<T(!new)>(a: array<T>, n: nat, cmp: (T, T) -> int)
    requires n <= a.Length && Preorder(cmp)
    modifies a
    ensures Permuted(old(a[..]), a[..], 0, n) && InOrder(cmp, a[..], 0, n)
  {
    ghost var s := a[..];
    PermutedRefl(s, 0, n);
    if n < 2 {
      return;
    }
    var stack := [Seg(0, n, 0)];
    PendingStart(cmp, s, n);
    hide Pending, Permuted, InOrder, Preorder;
    while |stack| > 0
      invariant Pending(cmp, s, a[..], n, stack) && DepthsOk(stack)
      decreases Weight(stack)
    {
      var g := stack[|stack| - 1];
      ghost var before := stack;
      stack := stack[..|stack| - 1];
      assert before == stack + [g];
      WeightSnoc(stack, g);
      stack := SortSegment(a, n, stack, g, cmp, s);
    }
    PendingEnd(cmp, s, a[..], n, stack);
  }

  lemma {:induction false} PendingStart<T>(cmp: (T, T) -> int, s: seq<T>, n: nat)
    requires n <= |s|
    ensures Pending(cmp, s, s, n, [Seg(0, n, 0)])
  {
    var segs := [Seg(0, n, 0)];
    forall i, j | 0 <= i < j < n
      ensures Together(segs, i, j)
    {
      assert Within(segs[0], i, j);
    }
  }

  lemma {:induction false} PendingEnd<T>(cmp: (T, T) -> int, s0: seq<T>, s: seq<T>, n: nat, segs: seq<Seg>)
    requires Pending(cmp, s0, s, n, segs) && segs == []
    ensures Permuted(s0, s, 0, n) && InOrder(cmp, s, 0, n)
  {
    hide Permuted;
  }

  lemma {:induction false} PendingIs<T>(cmp: (T, T) -> int, s0: seq<T>, s: seq<T>, n: nat, segs: seq<Seg>, g: Seg)
    requires Pending(cmp, s0, s, n, segs + [g])
    ensures n <= |s| && g.base + g.count <= n
  {
    hide Permuted, Sorted;
    assert (segs + [g])[|segs|] == g;
  }

  /** The current segment has been sorted in place. */
  lemma {:induction false} PendingDone<T>(cmp: (T, T) -> int, s0: seq<T>, s: seq<T>, t: seq<T>, n: nat, rest: seq<Seg>, g: Seg)
    requires Pending(cmp, s0, s, n, rest + [g]) && Permuted(s, t, g.base, g.base + g.count) && InOrder(cmp, t, g.base, g.base + g.count)
    ensures Pending(cmp, s0, t, n, rest)
  {
    PendingIs(cmp, s0, s, n, rest, g);
    hide Permuted, InOrder, Sorted;
    PermutedSize(s, t, g.base, g.base + g.count);
    Rearranged(cmp, s, t, n, rest, g);
    SegmentDone(cmp, t, n, rest, g);
    PermutedWiden(s, t, g.base, g.base + g.count, 0, n);
    PermutedTrans(s0, s, t, 0, n);
    assert forall k :: 0 <= k < |rest| ==> (rest + [g])[k] == rest[k];
  }

  /** The current segment has been partitioned. */
  lemma {:induction false} PendingSplit<T(!new)>(cmp: (T, T) -> int, s0: seq<T>, s: seq<T>, t: seq<T>, n: nat, rest: seq<Seg>, g: Seg,
                                                 x: T, p: nat, q: nat, first: Seg, second: Seg)
    requires Pending(cmp, s0, s, n, rest + [g]) && Preorder(cmp) && Permuted(s, t, g.base, g.base + g.count)
    requires ThreeWay(cmp, t, x, g.base, p, q, g.base + g.count)
    requires var a, b := (g.base, p - g.base), (q, g.base + g.count - q);
             ((first.base, first.count) == a && (second.base, second.count) == b) ||
             ((first.base, first.count) == b && (second.base, second.count) == a)
    ensures Pending(cmp, s0, t, n, rest + [first] + [second])
  {
    PendingIs(cmp, s0, s, n, rest, g);
    hide Permuted, Sorted, ThreeWay, Preorder, Apart;
    PermutedSize(s, t, g.base, g.base + g.count);
    Rearranged(cmp, s, t, n, rest, g);
    SplitSegment(cmp, t, n, rest, g, x, p, q, first, second);
    PermutedWiden(s, t, g.base, g.base + g.count, 0, n);
    PermutedTrans(s0, s, t, 0, n);
  }

  /** Partitions the segment g until it is small or too deep, pushing the larger part each time, and sorts the rest. */
  method SortSegment<T(!new)>(a: array<T>, n: nat, stack0: seq<Seg>, g0: Seg, cmp: (T, T) -> int, ghost s: seq<T>) returns (stack: seq<Seg>)
    requires Preorder(cmp) && Pending(cmp, s, a[..], n, stack0 + [g0]) && DepthsOk(stack0) && g0.depth >= |stack0|
    modifies a
    ensures Pending(cmp, s, a[..], n, stack) && DepthsOk(stack) && Weight(stack) < Weight(stack0) + 2 * g0.count + 1
  {
    hide Pending, Preorder, Permuted, InOrder, ThreeWay;
    stack := stack0;
    var g := g0;
    while g.count > 6
      invariant Pending(cmp, s, a[..], n, stack + [g]) && DepthsOk(stack) && g.depth >= |stack|
      invariant Weight(stack) + 2 * g.count <= Weight(stack0) + 2 * g0.count
      decreases g.count
    {
      PendingIs(cmp, s, a[..], n, stack, g);
      ghost var t := a[..];
      if g.depth + 1 > 50 {
        HeapSort(a, g.base, g.count, cmp);
        PendingDone(cmp, s, t, a[..], n, stack, g);
        return;
      }
      var p, q, x := Partition(a, g.base, g.base + g.count, cmp);
      PartBounds(cmp, a[..], x, g.base, p, q, g.base + g.count);
      var left, right := Seg(g.base, p - g.base, g.depth + 1), Seg(q, g.base + g.count - q, g.depth + 1);
      var push, next := if left.count > right.count then left else right, if left.count > right.count then right else left;
      PendingSplit(cmp, s, t, a[..], n, stack, g, x, p, q, push, next);
      WeightSnoc(stack, push);
      stack := stack + [push];
      g := next;
    }
    PendingIs(cmp, s, a[..], n, stack, g);
    ghost var t := a[..];
    InsertionSort(a, g.base, g.base + g.count, cmp);
    PendingDone(cmp, s, t, a[..], n, stack, g);
  }

  lemma {:induction false} PartBounds<T>(cmp: (T, T) -> int, s: seq<T>, x: T, lo: int, p: int, q: int, hi: int)
    requires ThreeWay(cmp, s, x, lo, p, q, hi)
    ensures 0 <= lo <= p < q <= hi
  {
  }
}
