/** Introsort in place: three-way quicksort with an explicit stack, heapsort and insertion sort. */
module Sorting {

  /** The comparison function is a total preorder. */
  ghost predicate Preorder<T(!new)>(cmp: (T, T) -> int) {
    (forall x, y :: cmp(x, y) < 0 <==> cmp(y, x) > 0) &&
    (forall x, y, z :: cmp(x, y) <= 0 && cmp(y, z) <= 0 ==> cmp(x, z) <= 0)
  }

  /** s[lo..hi) is in order. */
  ghost predicate InOrder<T>(cmp: (T, T) -> int, s: seq<T>, lo: int, hi: int) {
    forall i, j :: 0 <= lo <= i < j < hi <= |s| ==> cmp(s[i], s[j]) <= 0
  }

  /** t is s with only the elements of [lo, hi) permuted. */
  ghost predicate Permuted<T>(s: seq<T>, t: seq<T>, lo: int, hi: int) {
    |s| == |t| && multiset(s) == multiset(t) &&
    (forall k :: 0 <= k < |s| && !(lo <= k < hi) ==> s[k] == t[k])
  }

  lemma {:induction false} PermutedTrans<T>(s: seq<T>, t: seq<T>, u: seq<T>, lo: int, hi: int)
    requires Permuted(s, t, lo, hi) && Permuted(t, u, lo, hi)
    ensures Permuted(s, u, lo, hi)
  {
  }

  lemma {:induction false} PermutedWiden<T>(s: seq<T>, t: seq<T>, lo: int, hi: int, lo': int, hi': int)
    requires Permuted(s, t, lo, hi) && lo' <= lo && hi <= hi'
    ensures Permuted(s, t, lo', hi')
  {
  }

  /** The elements of the permuted range are the same. */
  lemma {:induction false} SameElements<T>(s: seq<T>, t: seq<T>, lo: nat, hi: nat)
    requires Permuted(s, t, lo, hi) && lo <= hi <= |s|
    ensures multiset(s[lo..hi]) == multiset(t[lo..hi])
  {
    assert s[..lo] == t[..lo] && s[hi..] == t[hi..];
    Parts(s, lo, hi);
    Parts(t, lo, hi);
    Cancel(multiset(s[..lo]), multiset(s[lo..hi]), multiset(t[lo..hi]), multiset(s[hi..]));
  }

  lemma {:induction false} Cancel<T>(p: multiset<T>, x: multiset<T>, y: multiset<T>, q: multiset<T>)
    requires p + x + q == p + y + q
    ensures x == y
  {
    forall e
      ensures x[e] == y[e]
    {
      assert (p + x + q)[e] == p[e] + x[e] + q[e] && (p + y + q)[e] == p[e] + y[e] + q[e];
    }
  }

  lemma {:induction false} Parts<T>(s: seq<T>, lo: nat, hi: nat)
    requires lo <= hi <= |s|
    ensures multiset(s) == multiset(s[..lo]) + multiset(s[lo..hi]) + multiset(s[hi..])
  {
    assert s == s[..lo] + s[lo..hi] + s[hi..];
  }

  /** Where an element of the permuted range came from. */
  lemma {:induction false} Origin<T>(s: seq<T>, t: seq<T>, lo: nat, hi: nat, k: nat) returns (m: nat)
    requires Permuted(s, t, lo, hi) && lo <= k < hi <= |s|
    ensures lo <= m < hi && s[m] == t[k]
  {
    SameElements(s, t, lo, hi);
    assert t[lo..hi][k - lo] in multiset(t[lo..hi]);
    assert t[k] in s[lo..hi];
    var i :| 0 <= i < hi - lo && s[lo..hi][i] == t[k];
    m := lo + i;
  }

  ghost function Swapped<T>(s: seq<T>, i: nat, j: nat): (t: seq<T>)
    requires i < |s| && j < |s|
    ensures |t| == |s|
  {
    s[i := s[j]][j := s[i]]
  }

  lemma {:induction false} SwapPermutes<T>(s: seq<T>, i: nat, j: nat)
    requires i < |s| && j < |s|
    ensures Permuted(s, Swapped(s, i, j), if i <= j then i else j, if i <= j then j + 1 else i + 1)
  {
  }

  method Swap<T>(a: array<T>, i: nat, j: nat)
    requires i < a.Length && j < a.Length
    modifies a
    ensures a[..] == Swapped(old(a[..]), i, j)
  {
    a[i], a[j] := a[j], a[i];
  }

  /** Swaps and records that only [lo, hi) is touched, relative to an earlier state s. */
  method SwapIn<T>(a: array<T>, i: nat, j: nat, ghost s: seq<T>, ghost lo: nat, ghost hi: nat)
    requires lo <= i < hi && lo <= j < hi <= a.Length && Permuted(s, a[..], lo, hi)
    modifies a
    ensures a[..] == Swapped(old(a[..]), i, j) && Permuted(s, a[..], lo, hi)
  {
    ghost var t := a[..];
    SwapPermutes(t, i, j);
    Swap(a, i, j);
    PermutedWiden(t, a[..], if i <= j then i else j, if i <= j then j + 1 else i + 1, lo, hi);
    PermutedTrans(s, t, a[..], lo, hi);
  }

  /** Insertion sort of a[lo..hi). */
  method InsertionSort<T(!new)>(a: array<T>, lo: nat, hi: nat, cmp: (T, T) -> int)
    requires lo <= hi <= a.Length && Preorder(cmp)
    modifies a
    ensures Permuted(old(a[..]), a[..], lo, hi) && InOrder(cmp, a[..], lo, hi)
  {
    ghost var s := a[..];
    if lo == hi {
      return;
    }
    var i := lo + 1;
    assert InOrder(cmp, a[..], lo, i) && Permuted(s, a[..], lo, hi);
    hide Permuted, InOrder, Preorder;
    while i < hi
      invariant lo < i <= hi && Permuted(s, a[..], lo, hi) && InOrder(cmp, a[..], lo, i)
      decreases hi - i
    {
      Insert(a, lo, hi, i, cmp, s);
      i := i + 1;
    }
  }

  /** Moves a[i] down to its place in the sorted a[lo..i). */
  method Insert<T(!new)>(a: array<T>, lo: nat, hi: nat, i: nat, cmp: (T, T) -> int, ghost s: seq<T>)
    requires lo <= i < hi <= a.Length && Preorder(cmp) && Permuted(s, a[..], lo, hi) && InOrder(cmp, a[..], lo, i)
    modifies a
    ensures Permuted(s, a[..], lo, hi) && InOrder(cmp, a[..], lo, i + 1)
  {
    hide Permuted, InOrder, Inserting, Preorder, Swapped;
    var j := i;
    InsertStart(cmp, a[..], lo, i);
    while j > lo && cmp(a[j - 1], a[j]) > 0
      invariant lo <= j <= i && Permuted(s, a[..], lo, hi) && Inserting(cmp, a[..], lo, i, j)
      decreases j
    {
      InsertStep(cmp, a[..], lo, i, j);
      SwapIn(a, j, j - 1, s, lo, hi);
      j := j - 1;
    }
    InsertDone(cmp, a[..], lo, i, j);
  }

  /** a[lo..i] is in order, except that the element at j may be too small for what precedes it. */
  ghost predicate Inserting<T>(cmp: (T, T) -> int, s: seq<T>, lo: int, i: int, j: int) {
    0 <= lo <= j <= i < |s| &&
    forall m, n :: lo <= m < n <= i && n != j ==> cmp(s[m], s[n]) <= 0
  }

  lemma {:induction false} InsertStart<T>(cmp: (T, T) -> int, s: seq<T>, lo: int, i: int)
    requires 0 <= lo <= i < |s| && InOrder(cmp, s, lo, i)
    ensures Inserting(cmp, s, lo, i, i)
  {
  }

  lemma {:induction false} InsertStep<T(!new)>(cmp: (T, T) -> int, s: seq<T>, lo: int, i: int, j: int)
    requires Preorder(cmp) && Inserting(cmp, s, lo, i, j) && lo < j && cmp(s[j - 1], s[j]) > 0
    ensures Inserting(cmp, Swapped(s, j, j - 1), lo, i, j - 1)
  {
  }

  lemma {:induction false} InsertDone<T(!new)>(cmp: (T, T) -> int, s: seq<T>, lo: int, i: int, j: int)
    requires Preorder(cmp) && Inserting(cmp, s, lo, i, j) && (j > lo ==> cmp(s[j - 1], s[j]) <= 0)
    ensures InOrder(cmp, s, lo, i + 1)
  {
    forall m, n | lo <= m < n < i + 1
      ensures cmp(s[m], s[n]) <= 0
    {
      if n == j && m < j - 1 {
        assert cmp(s[m], s[j - 1]) <= 0;
      }
    }
  }

  function Parent(c: nat): nat
    requires c >= 1
  {
    (c - 1) / 2
  }

  /** Node c is not larger than node p, in the heap at lo. */
  ghost predicate Below<T>(cmp: (T, T) -> int, s: seq<T>, lo: nat, c: nat, p: nat) {
    lo + c < |s| && lo + p < |s| && cmp(s[lo + c], s[lo + p]) <= 0
  }

  /** The nodes from i on are not smaller than their children, in the heap of n nodes at lo. */
  ghost predicate Heap<T>(cmp: (T, T) -> int, s: seq<T>, lo: nat, i: int, n: nat) {
    forall c :: 1 <= c < n && i <= Parent(c) ==> Below(cmp, s, lo, c, Parent(c))
  }

  /** The same, except that node r may be smaller than its children; its parent is not. */
  ghost predicate Sifting<T>(cmp: (T, T) -> int, s: seq<T>, lo: nat, i: int, n: nat, r: nat) {
    (forall c :: 1 <= c < n && i <= Parent(c) != r ==> Below(cmp, s, lo, c, Parent(c))) &&
    (r >= 1 && i <= Parent(r) ==> forall c :: 1 <= c < n && Parent(c) == r ==> Below(cmp, s, lo, c, Parent(r)))
  }

  /** c is the larger child of r. */
  ghost predicate LargerChild<T>(cmp: (T, T) -> int, s: seq<T>, lo: nat, n: nat, r: nat, c: nat) {
    1 <= c < n && Parent(c) == r && forall d :: 1 <= d < n && Parent(d) == r ==> Below(cmp, s, lo, d, c)
  }

  /** A swap of the nodes r and c, seen from the nodes d and e. */
  lemma {:induction false} SwappedBelow<T>(cmp: (T, T) -> int, s: seq<T>, t: seq<T>, lo: nat, r: nat, c: nat, d: nat, e: nat)
    requires lo + r < |s| && lo + c < |s| && t == Swapped(s, lo + r, lo + c)
    ensures var d', e' := if d == r then c else if d == c then r else d, if e == r then c else if e == c then r else e;
            Below(cmp, t, lo, d, e) == Below(cmp, s, lo, d', e')
  {
  }

  lemma {:induction false} SiftStep<T(!new)>(cmp: (T, T) -> int, s: seq<T>, t: seq<T>, lo: nat, i: int, n: nat, r: nat, c: nat)
    requires lo + n <= |s| && i <= r < n && Preorder(cmp) && Sifting(cmp, s, lo, i, n, r) && LargerChild(cmp, s, lo, n, r, c)
    requires Below(cmp, s, lo, r, c) && t == Swapped(s, lo + r, lo + c)
    ensures Sifting(cmp, t, lo, i, n, c)
  {
    hide Preorder, Below;
    forall d | 1 <= d < n && i <= Parent(d) != c
      ensures Below(cmp, t, lo, d, Parent(d))
    {
      SwappedBelow(cmp, s, t, lo, r, c, d, Parent(d));
    }
    forall d | 1 <= d < n && Parent(d) == c
      ensures Below(cmp, t, lo, d, r)
    {
      SwappedBelow(cmp, s, t, lo, r, c, d, r);
    }
  }

  lemma {:induction false} SiftDone<T>(cmp: (T, T) -> int, s: seq<T>, lo: nat, i: int, n: nat, r: nat)
    requires Sifting(cmp, s, lo, i, n, r) && forall d :: 1 <= d < n && Parent(d) == r ==> Below(cmp, s, lo, d, r)
    ensures Heap(cmp, s, lo, i, n)
  {
    hide Below;
  }

  /** The child that the loop looks at. */
  method PickChild<T(!new)>(a: array<T>, lo: nat, n: nat, r: nat, cmp: (T, T) -> int) returns (c: nat)
    requires lo + n <= a.Length && 2 * r + 1 < n && Preorder(cmp)
    ensures LargerChild(cmp, a[..], lo, n, r, c) && r < c < n
  {
    c := 2 * r + 1;
    if c < n - 1 && cmp(a[lo + c], a[lo + c + 1]) <= 0 {
      c := c + 1;
    }
    Reflexive(cmp, a[lo + c]);
    forall d | 1 <= d < n && Parent(d) == r
      ensures Below(cmp, a[..], lo, d, c)
    {
      assert d == 2 * r + 1 || d == 2 * r + 2;
    }
  }

  lemma {:induction false} Reflexive<T(!new)>(cmp: (T, T) -> int, x: T)
    requires Preorder(cmp)
    ensures cmp(x, x) == 0
  {
  }

  /** Restores the heap below node i. */
  method SiftDown<T(!new)>(a: array<T>, lo: nat, i: nat, n: nat, cmp: (T, T) -> int)
    requires lo + n <= a.Length && i < n && Preorder(cmp) && Heap(cmp, a[..], lo, i + 1, n)
    modifies a
    ensures Permuted(old(a[..]), a[..], lo, lo + n) && Heap(cmp, a[..], lo, i, n)
  {
    ghost var s := a[..];
    var r := i;
    SiftStart(cmp, s, lo, i, n);
    PermutedRefl(s, lo, lo + n);
    hide Permuted, Heap, Sifting, LargerChild, Preorder, Below, Swapped;
    while 2 * r + 1 < n
      invariant i <= r < n && Permuted(s, a[..], lo, lo + n) && Sifting(cmp, a[..], lo, i, n, r)
      decreases n - r
    {
      ghost var t := a[..];
      var c := PickChild(a, lo, n, r, cmp);
      if cmp(a[lo + r], a[lo + c]) > 0 {
        ChildrenBelow(cmp, t, lo, n, r, c);
        SiftDone(cmp, t, lo, i, n, r);
        return;
      }
      IsBelow(cmp, t, lo, r, c);
      SwapIn(a, lo + r, lo + c, s, lo, lo + n);
      SiftStep(cmp, t, a[..], lo, i, n, r, c);
      r := c;
    }
    NoChildren(n, r);
    SiftDone(cmp, a[..], lo, i, n, r);
  }

  lemma {:induction false} NoChildren(n: nat, r: nat)
    requires 2 * r + 1 >= n
    ensures forall d :: 1 <= d < n ==> Parent(d) != r
  {
  }

  lemma {:induction false} IsBelow<T>(cmp: (T, T) -> int, s: seq<T>, lo: nat, c: nat, p: nat)
    requires lo + c < |s| && lo + p < |s| && cmp(s[lo + c], s[lo + p]) <= 0
    ensures Below(cmp, s, lo, c, p)
  {
  }

  lemma {:induction false} PermutedRefl<T>(s: seq<T>, lo: int, hi: int)
    ensures Permuted(s, s, lo, hi)
  {
  }

  lemma {:induction false} SiftStart<T>(cmp: (T, T) -> int, s: seq<T>, lo: nat, i: nat, n: nat)
    requires i < n && Heap(cmp, s, lo, i + 1, n)
    ensures Sifting(cmp, s, lo, i, n, i)
  {
    hide Below;
  }

  lemma {:induction false} ChildrenBelow<T(!new)>(cmp: (T, T) -> int, s: seq<T>, lo: nat, n: nat, r: nat, c: nat)
    requires lo + n <= |s| && r < n && c < n && Preorder(cmp) && LargerChild(cmp, s, lo, n, r, c) && cmp(s[lo + r], s[lo + c]) > 0
    ensures forall d :: 1 <= d < n && Parent(d) == r ==> Below(cmp, s, lo, d, r)
  {
    forall d | 1 <= d < n && Parent(d) == r
      ensures Below(cmp, s, lo, d, r)
    {
      assert Below(cmp, s, lo, d, c);
    }
  }

  lemma {:induction false} RootIsLargest<T(!new)>(cmp: (T, T) -> int, s: seq<T>, lo: nat, n: nat, k: nat)
    requires lo + n <= |s| && k < n && Preorder(cmp) && Heap(cmp, s, lo, 0, n)
    ensures cmp(s[lo + k], s[lo]) <= 0
  {
    if k == 0 {
      Reflexive(cmp, s[lo]);
    } else {
      RootIsLargest(cmp, s, lo, n, Parent(k));
      assert Below(cmp, s, lo, k, Parent(k));
    }
  }

  /** The nodes from i on are in their final places. */
  ghost predicate Tail<T>(cmp: (T, T) -> int, s: seq<T>, lo: nat, i: nat, n: nat)
    requires lo + n <= |s| && i <= n
  {
    InOrder(cmp, s, lo + i, lo + n) && forall k, m :: lo <= k < lo + i <= m < lo + n ==> cmp(s[k], s[m]) <= 0
  }

  /** The largest of the heap, moved behind it. */
  lemma {:induction false} TailGrows<T(!new)>(cmp: (T, T) -> int, s: seq<T>, t: seq<T>, lo: nat, i: nat, n: nat)
    requires lo + n <= |s| && 0 < i < n && Preorder(cmp) && Heap(cmp, s, lo, 0, i + 1) && Tail(cmp, s, lo, i + 1, n)
    requires t == Swapped(s, lo, lo + i)
    ensures Tail(cmp, t, lo, i, n) && Heap(cmp, t, lo, 1, i)
  {
    forall c | 1 <= c < i && 1 <= Parent(c)
      ensures Below(cmp, t, lo, c, Parent(c))
    {
      assert Below(cmp, s, lo, c, Parent(c));
    }
    forall k | lo <= k < lo + i
      ensures cmp(t[k], t[lo + i]) <= 0
    {
      RootIsLargest(cmp, s, lo, i + 1, if k == lo then i else k - lo);
    }
  }

  /** Permuting what precedes the tail keeps it. */
  lemma {:induction false} TailKept<T(!new)>(cmp: (T, T) -> int, s: seq<T>, t: seq<T>, lo: nat, i: nat, n: nat)
    requires lo + n <= |s| && i <= n && Tail(cmp, s, lo, i, n) && Permuted(s, t, lo, lo + i)
    ensures Tail(cmp, t, lo, i, n)
  {
    forall k, m | lo <= k < lo + i <= m < lo + n
      ensures cmp(t[k], t[m]) <= 0
    {
      var o := Origin(s, t, lo, lo + i, k);
      assert cmp(s[o], s[m]) <= 0;
    }
  }

  /** heapsortx */
  method HeapSort<T(!new)>(a: array<T>, lo: nat, n: nat, cmp: (T, T) -> int)
    requires lo + n <= a.Length && Preorder(cmp)
    modifies a
    ensures Permuted(old(a[..]), a[..], lo, lo + n) && InOrder(cmp, a[..], lo, lo + n)
  {
    ghost var s := a[..];
    PermutedRefl(s, lo, lo + n);
    if n <= 1 {
      return;
    }
    hide Permuted, Heap, InOrder, Preorder, Tail, Below;
    Heapify(a, lo, n, cmp);
    TailEmpty(cmp, a[..], lo, n);
    var i := n - 1;
    while i > 0
      invariant 0 <= i < n && Permuted(s, a[..], lo, lo + n) && Heap(cmp, a[..], lo, 0, i + 1) && Tail(cmp, a[..], lo, i + 1, n)
      decreases i
    {
      MaxToEnd(a, lo, i, n, cmp, s);
      i := i - 1;
    }
    TailAll(cmp, a[..], lo, n);
  }

  method Heapify<T(!new)>(a: array<T>, lo: nat, n: nat, cmp: (T, T) -> int)
    requires lo + n <= a.Length && Preorder(cmp)
    modifies a
    ensures Permuted(old(a[..]), a[..], lo, lo + n) && Heap(cmp, a[..], lo, 0, n)
  {
    ghost var s := a[..];
    var i := n / 2;
    PermutedRefl(s, lo, lo + n);
    HeapLeaves(cmp, s, lo, n);
    hide Permuted, Heap, Preorder;
    while i > 0
      invariant 0 <= i <= n / 2 && Permuted(s, a[..], lo, lo + n) && Heap(cmp, a[..], lo, i, n)
      decreases i
    {
      i := i - 1;
      ghost var t := a[..];
      SiftDown(a, lo, i, n, cmp);
      PermutedTrans(s, t, a[..], lo, lo + n);
    }
  }

  lemma {:induction false} HeapLeaves<T>(cmp: (T, T) -> int, s: seq<T>, lo: nat, n: nat)
    ensures Heap(cmp, s, lo, n / 2, n)
  {
  }

  /** Moves the root behind the heap of i nodes that is left, and restores the heap. */
  method MaxToEnd<T(!new)>(a: array<T>, lo: nat, i: nat, n: nat, cmp: (T, T) -> int, ghost s: seq<T>)
    requires 0 < i < n && lo + n <= a.Length && Preorder(cmp) && Permuted(s, a[..], lo, lo + n)
    requires Heap(cmp, a[..], lo, 0, i + 1) && Tail(cmp, a[..], lo, i + 1, n)
    modifies a
    ensures Permuted(s, a[..], lo, lo + n) && Heap(cmp, a[..], lo, 0, i) && Tail(cmp, a[..], lo, i, n)
  {
    hide Permuted, Heap, Preorder, Tail, Swapped;
    ghost var u := a[..];
    SwapIn(a, lo, lo + i, s, lo, lo + n);
    ghost var t := a[..];
    TailGrows(cmp, u, t, lo, i, n);
    SiftDown(a, lo, 0, i, cmp);
    PermutedSize(t, a[..], lo, lo + i);
    TailKept(cmp, t, a[..], lo, i, n);
    PermutedWiden(t, a[..], lo, lo + i, lo, lo + n);
    PermutedTrans(s, t, a[..], lo, lo + n);
  }

  lemma {:induction false} PermutedSize<T>(s: seq<T>, t: seq<T>, lo: int, hi: int)
    requires Permuted(s, t, lo, hi)
    ensures |s| == |t|
  {
  }

  lemma {:induction false} TailEmpty<T>(cmp: (T, T) -> int, s: seq<T>, lo: nat, n: nat)
    requires lo + n <= |s|
    ensures Tail(cmp, s, lo, n, n)
  {
  }

  lemma {:induction false} TailAll<T>(cmp: (T, T) -> int, s: seq<T>, lo: nat, n: nat)
    requires lo + n <= |s| && 1 <= n && Tail(cmp, s, lo, 1, n)
    ensures InOrder(cmp, s, lo, lo + n)
  {
  }
}
