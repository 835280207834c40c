/** Character sets as sorted lists of boundary points, and their algebra in place. */
module CharRanges {
  import opened ReCode
  import opened ReSyntax
  import opened ReMatch
  import opened ReVm
  import opened ReRange

  /** The number of points at or below c. */
  ghost function Count(p: seq<nat>, c: nat): (n: nat)
    ensures n <= |p|
  {
    if p == [] then 0 else Count(p[..|p| - 1], c) + if p[|p| - 1] <= c then 1 else 0
  }

  /** c is in the set if an odd number of boundaries lie at or below it. */
  ghost predicate In(p: seq<nat>, c: nat) {
    Count(p, c) % 2 == 1
  }

  predicate InOrder(p: seq<nat>) {
    forall i, j :: 0 <= i < j < |p| ==> p[i] <= p[j]
  }

  /** Strictly increasing points of closed-open intervals. */
  predicate Canonical(p: seq<nat>) {
    |p| % 2 == 0 && Increasing(p)
  }

  lemma {:induction false} CountSnoc(p: seq<nat>, v: nat, c: nat)
    ensures Count(p + [v], c) == Count(p, c) + if v <= c then 1 else 0
  {
    assert (p + [v])[..|p|] == p;
  }

  lemma {:induction false} CountAll(p: seq<nat>, c: nat)
    requires forall i :: 0 <= i < |p| ==> p[i] <= c
    ensures Count(p, c) == |p|
  {
    if p != [] {
      CountAll(p[..|p| - 1], c);
    }
  }

  lemma {:induction false} CountNone(p: seq<nat>, c: nat)
    requires forall i :: 0 <= i < |p| ==> c < p[i]
    ensures Count(p, c) == 0
  {
    if p != [] {
      CountNone(p[..|p| - 1], c);
    }
  }

  lemma {:induction false} CountConcat(p: seq<nat>, q: seq<nat>, c: nat)
    ensures Count(p + q, c) == Count(p, c) + Count(q, c)
  {
    if q == [] {
      assert p + q == p;
    } else {
      var r := q[..|q| - 1];
      CountConcat(p, r, c);
      assert p + q == (p + r) + [q[|q| - 1]];
      CountSnoc(p + r, q[|q| - 1], c);
    }
  }

  /** The union of the intervals, as the compiler reads a class. */
  lemma {:induction false} MemberIsIn(p: seq<nat>, c: nat)
    requires |p| % 2 == 0 && InOrder(p)
    ensures Member(p, c) <==> In(p, c)
  {
    hide Count;
    if p == [] {
      CountNone(p, c);
    } else {
      var q := p[2..];
      MemberIsIn(q, c);
      CountPair(p, c);
      if c < p[1] {
        CountNone(q, c);
        NoneMember(q, c);
      }
    }
  }

  lemma {:induction false} CountPair(p: seq<nat>, c: nat)
    requires |p| >= 2
    ensures Count(p, c) == (if p[0] <= c then 1 else 0) + (if p[1] <= c then 1 else 0) + Count(p[2..], c)
  {
    hide Count;
    assert p == [p[0], p[1]] + p[2..];
    CountConcat([p[0], p[1]], p[2..], c);
    assert [p[0], p[1]] == [] + [p[0]] + [p[1]];
    CountSnoc([] + [p[0]], p[1], c);
    CountSnoc([], p[0], c);
    CountNone([], c);
  }

  lemma {:induction false} NoneMember(p: seq<nat>, c: nat)
    requires |p| % 2 == 0 && forall i :: 0 <= i < |p| ==> c < p[i]
    ensures !Member(p, c)
  {
    if p != [] {
      NoneMember(p[2..], c);
    }
  }

  /** A set has one canonical list of points. */
  lemma {:induction false} CanonicalUnique(p: seq<nat>, q: seq<nat>)
    requires Increasing(p) && Increasing(q) && forall c: nat :: In(p, c) == In(q, c)
    ensures p == q
    decreases |p| + |q|
  {
    hide Count, In;
    if p != [] && (q == [] || p[|p| - 1] > q[|q| - 1]) {
      var c := LastDiffers(p, q);
      assert false;
    } else if q != [] && (p == [] || q[|q| - 1] > p[|p| - 1]) {
      var c := LastDiffers(q, p);
      assert false;
    } else if p != [] {
      var v := p[|p| - 1];
      var p', q' := p[..|p| - 1], q[..|q| - 1];
      assert p == p' + [v] && q == q' + [v];
      forall c: nat
        ensures In(p', c) == In(q', c)
      {
        WithoutLast(p', v, c);
        WithoutLast(q', v, c);
      }
      CanonicalUnique(p', q');
    }
  }

  lemma {:induction false} WithoutLast(p: seq<nat>, v: nat, c: nat)
    ensures In(p + [v], c) == if v <= c then !In(p, c) else In(p, c)
  {
    hide Count;
    CountSnoc(p, v, c);
  }

  lemma {:induction false} BelowLast(p: seq<nat>)
    requires Increasing(p)
    ensures forall i :: 0 <= i < |p| ==> p[i] <= p[|p| - 1] && (i < |p| - 1 ==> p[i] < p[|p| - 1])
  {
  }

  /** Sets whose last boundaries differ are different. */
  lemma {:induction false} LastDiffers(p: seq<nat>, q: seq<nat>) returns (c: nat)
    requires Increasing(p) && Increasing(q) && p != [] && (q == [] || p[|p| - 1] > q[|q| - 1])
    ensures In(p, c) != In(q, c)
  {
    hide Count, Increasing;
    BelowLast(p);
    BelowLast(q);
    var v := p[|p| - 1];
    var p' := p[..|p| - 1];
    assert p == p' + [v];
    c := v;
    assert |p| > 1 ==> p[0] < v;
    CountAll(p, v);
    CountAll(q, v);
    if In(p, v) == In(q, v) {
      if v == 0 {
        assert false;
      }
      c := v - 1;
      CountSnoc(p', v, c);
      CountAll(p', c);
      CountAll(q, c);
    }
  }

  datatype SetOp = Union | Inter | Xor

  predicate Combine(op: SetOp, x: bool, y: bool) {
    match op
    case Union => x || y
    case Inter => x && y
    case Xor => x != y
  }

  /** The points consumed so far give the result so far. */
  ghost predicate Merged(out: seq<nat>, a: seq<nat>, b: seq<nat>, op: SetOp) {
    (|out| % 2 == 1) == Combine(op, |a| % 2 == 1, |b| % 2 == 1) &&
    forall c: nat :: In(out, c) == Combine(op, In(a, c), In(b, c))
  }

  /** All points are at most v. */
  ghost predicate UpTo(p: seq<nat>, v: nat) {
    forall i :: 0 <= i < |p| ==> p[i] <= v
  }

  /** One merge step: v is consumed from a, from b or from both, and added if the status changes. */
  lemma {:induction false} MergeStep(out: seq<nat>, a: seq<nat>, b: seq<nat>, a': seq<nat>, b': seq<nat>, v: nat, op: SetOp)
    requires Merged(out, a, b, op) && UpTo(out, v) && UpTo(a, v) && UpTo(b, v)
    requires (a' == a || a' == a + [v]) && (b' == b || b' == b + [v])
    ensures var is_in := Combine(op, |a'| % 2 == 1, |b'| % 2 == 1);
            Merged(if is_in != (|out| % 2 == 1) then out + [v] else out, a', b', op)
  {
    hide In;
    var is_in := Combine(op, |a'| % 2 == 1, |b'| % 2 == 1);
    var out' := if is_in != (|out| % 2 == 1) then out + [v] else out;
    forall c: nat
      ensures In(out', c) == Combine(op, In(a', c), In(b', c))
    {
      After(out, out', v, c);
      After(a, a', v, c);
      After(b, b', v, c);
    }
  }

  /** Below v nothing changes; from v on every point counts. */
  lemma {:induction false} After(p: seq<nat>, p': seq<nat>, v: nat, c: nat)
    requires UpTo(p, v) && (p' == p || p' == p + [v])
    ensures c < v ==> In(p', c) == In(p, c)
    ensures c >= v ==> In(p', c) == (|p'| % 2 == 1)
  {
    hide Count;
    CountSnoc(p, v, c);
    if c >= v {
      CountAll(p, c);
    }
  }

  /** A list of points read as a set, between the point of view of the writer at k and the reader at i. */
  ghost predicate SameSet(p: seq<nat>, q: seq<nat>) {
    forall c: nat :: In(p, c) == In(q, c)
  }

  /** An empty interval, or two intervals that touch, can be dropped. */
  lemma {:induction false} DropPair(p: seq<nat>, v: nat, q: seq<nat>)
    ensures SameSet(p + [v, v] + q, p + q)
  {
    hide Count;
    forall c: nat
      ensures In(p + [v, v] + q, c) == In(p + q, c)
    {
      CountConcat(p + [v, v], q, c);
      CountConcat(p, [v, v], c);
      CountConcat(p, q, c);
      CountPair([v, v], c);
      assert [v, v][2..] == [];
      CountNone([], c);
    }
  }

  lemma {:induction false} SameTrans(p: seq<nat>, q: seq<nat>, r: seq<nat>)
    requires SameSet(p, q) && SameSet(q, r)
    ensures SameSet(p, r)
  {
    hide In;
    forall c: nat
      ensures In(p, c) == In(r, c)
    {
      assert In(p, c) == In(q, c) == In(r, c);
    }
  }

  /** k points are written and the points from i on are still to be read. */
  ghost predicate Compressed(pt: seq<nat>, p: seq<nat>, k: nat, i: nat) {
    k <= i <= |p| == |pt| && k % 2 == 0 && pt[i..] == p[i..] && SameSet(pt[..k] + p[i..], p) && Increasing(pt[..k]) &&
    (k > 0 && i < |p| ==> pt[k - 1] < p[i]) && forall j :: 0 <= j < k ==> pt[j] in p
  }

  lemma {:induction false} CompressStart(p: seq<nat>)
    ensures Compressed(p, p, 0, 0)
  {
    hide SameSet;
    assert p[..0] + p[0..] == p;
    SameRefl(p);
  }

  lemma {:induction false} CompressNow(pt: seq<nat>, p: seq<nat>, k: nat, i: nat)
    requires Compressed(pt, p, k, i) && i + 1 < |p|
    ensures |pt| == |p| && pt[i] == p[i] && pt[i + 1] == p[i + 1] && pt[i..] == p[i..] && SameSet(pt[..k] + p[i..], p) && k <= i
    ensures InOrder(p) ==> p[i] <= p[i + 1]
  {
    hide SameSet;
    assert pt[i..][0] == p[i..][0] && pt[i..][1] == p[i..][1];
  }

  lemma {:induction false} CompressSkip(pt: seq<nat>, p: seq<nat>, k: nat, i: nat)
    requires Compressed(pt, p, k, i) && i + 1 < |p| && p[i] == p[i + 1] && InOrder(p)
    ensures Compressed(pt, p, k, i + 2)
  {
    hide SameSet;
    EmptyGoes(pt[..k], p, i);
    assert pt[i + 2..] == pt[i..][2..] && p[i + 2..] == p[i..][2..];
  }

  lemma {:induction false} CompressCopy(pt: seq<nat>, pt': seq<nat>, p: seq<nat>, k: nat, i: nat, j: nat)
    requires Compressed(pt, p, k, i) && i <= j && j + 1 < |p| && p[i] < p[j + 1] && (j + 2 < |p| ==> p[j + 1] < p[j + 2])
    requires SameSet(pt[..k] + [p[i], p[j + 1]] + p[j + 2..], p) && pt' == pt[k := pt[i]][k + 1 := pt[j + 1]]
    ensures Compressed(pt', p, k + 2, j + 2)
  {
    hide SameSet;
    assert pt[i] == pt[i..][0] && pt[j + 1] == pt[i..][j + 1 - i];
    assert pt'[..k + 2] == pt[..k] + [p[i], p[j + 1]];
    assert pt'[j + 2..] == pt[i..][j + 2 - i..] && p[j + 2..] == p[i..][j + 2 - i..];
    IncreasingPair(pt[..k], p[i], p[j + 1]);
  }

  lemma {:induction false} IncreasingPair(p: seq<nat>, v: nat, w: nat)
    requires Increasing(p) && (p != [] ==> p[|p| - 1] < v) && v < w
    ensures Increasing(p + [v, w])
  {
    var q := p + [v, w];
    forall i, j | 0 <= i < j < |q|
      ensures q[i] < q[j]
    {
      if i < |p| && j >= |p| {
        assert i == |p| - 1 || p[i] < p[|p| - 1];
      }
    }
  }

  lemma {:induction false} CompressEnd(pt: seq<nat>, p: seq<nat>, k: nat, i: nat)
    requires Compressed(pt, p, k, i) && i == |p|
    ensures k <= |pt| && Canonical(pt[..k]) && SameSet(pt[..k], p) && forall v :: v in pt[..k] ==> v in p
  {
    hide SameSet;
    assert pt[..k] + p[i..] == pt[..k];
  }

  /** The points up to i of a and j of b are merged. */
  ghost predicate Merging(out: seq<nat>, a: seq<nat>, b: seq<nat>, i: nat, j: nat, op: SetOp) {
    i <= |a| && j <= |b| && Merged(out, a[..i], b[..j], op) && InOrder(out) &&
    (i < |a| ==> UpTo(out, a[i]) && UpTo(b[..j], a[i])) && (j < |b| ==> UpTo(out, b[j]) && UpTo(a[..i], b[j])) &&
    forall v :: v in out ==> v in a || v in b
  }

  /** v is the next point: from a, from b, or from both. */
  ghost predicate NextPoint(a: seq<nat>, b: seq<nat>, i: nat, j: nat, i': nat, j': nat, v: nat) {
    i <= i' <= i + 1 && j <= j' <= j + 1 && (i' > i || j' > j) && i' <= |a| && j' <= |b| &&
    (i' > i ==> v == a[i]) && (j' > j ==> v == b[j]) && (i' < |a| ==> v <= a[i']) && (j' < |b| ==> v <= b[j'])
  }

  lemma {:induction false} MergingStep(out: seq<nat>, a: seq<nat>, b: seq<nat>, i: nat, j: nat, i': nat, j': nat, v: nat, op: SetOp)
    requires InOrder(a) && InOrder(b) && Merging(out, a, b, i, j, op) && NextPoint(a, b, i, j, i', j', v)
    ensures var isIn := Combine(op, i' % 2 == 1, j' % 2 == 1);
            Merging(if isIn != (|out| % 2 == 1) then out + [v] else out, a, b, i', j', op)
  {
    hide Merged, Combine;
    Prefixes(a, b, i, j, i', v);
    Prefixes(b, a, j, i, j', v);
    assert UpTo(out, v) && UpTo(a[..i], v) && UpTo(b[..j], v);
    MergeStep(out, a[..i], b[..j], a[..i'], b[..j'], v, op);
    assert v in a || v in b;
    SortedSnoc(out, v);
    UpMore(out, v, if i' < |a| then a[i'] else v);
    UpMore(out, v, if j' < |b| then b[j'] else v);
    UpMore(a[..i], v, if j' < |b| then b[j'] else v);
    UpMore(b[..j], v, if i' < |a| then a[i'] else v);
  }

  lemma {:induction false} Prefixes(a: seq<nat>, b: seq<nat>, i: nat, j: nat, i': nat, v: nat)
    requires InOrder(a) && i <= i' <= i + 1 && i' <= |a| && (i' > i ==> v == a[i])
    ensures a[..i'] == if i' > i then a[..i] + [v] else a[..i]
    ensures i' > i ==> UpTo(a[..i], v)
  {
  }

  lemma {:induction false} SortedSnoc(p: seq<nat>, v: nat)
    requires InOrder(p) && UpTo(p, v)
    ensures InOrder(p + [v])
  {
  }

  lemma {:induction false} UpMore(p: seq<nat>, v: nat, w: nat)
    requires UpTo(p, v) && v <= w
    ensures UpTo(p, w) && UpTo(p + [v], w)
  {
  }

  /** No point is next to an equal one. */
  ghost predicate Separate(p: seq<nat>) {
    forall i, j :: 0 <= i && j == i + 1 && j < |p| ==> p[i] != p[j]
  }

  /** The list without an empty interval at the front. */
  ghost function Trimmed(p: seq<nat>): seq<nat> {
    if |p| >= 2 && p[0] == p[1] then p[2..] else p
  }

  /** The points of an interval from c > 0 whose upper end has wrapped to zero are merged with a set. */
  predicate Wraps(a: seq<nat>, b: seq<nat>, op: SetOp) {
    op == Union && Canonical(a) && |b| == 2 && 0 == b[1] < b[0]
  }

  /** What the merge then gives: nothing new if c is in the set, and a zero out of order otherwise. */
  ghost function Joined(p: seq<nat>, c: nat): seq<nat> {
    var i := Count(p, c);
    if i % 2 == 1 then p
    else if i > 0 && p[i - 1] == c then p[..i - 1] + [0] + p[i..]
    else p[..i] + [c, 0] + p[i..]
  }

  /** The final list: an interval from 0 to c at the front has become empty. */
  ghost function Wrapped(p: seq<nat>, c: nat): seq<nat> {
    if |p| >= 2 && p[0] == 0 && p[1] == c then p[2..] else Joined(p, c)
  }

  lemma {:induction false} CountAt(p: seq<nat>, i: nat, c: nat)
    requires Increasing(p) && i <= |p| && (i > 0 ==> p[i - 1] <= c) && (i < |p| ==> c < p[i])
    ensures Count(p, c) == i
  {
    hide Count;
    assert p == p[..i] + p[i..];
    CountConcat(p[..i], p[i..], c);
    CountAll(p[..i], c);
    CountNone(p[i..], c);
  }

  /** Where c falls among the points. */
  lemma {:induction false} CountSplits(p: seq<nat>, c: nat)
    requires Increasing(p)
    ensures var i := Count(p, c); (i > 0 ==> p[i - 1] <= c) && (i < |p| ==> c < p[i])
  {
    hide Count;
    var i := 0;
    while i < |p| && p[i] <= c
      invariant i <= |p| && (i > 0 ==> p[i - 1] <= c)
    {
      i := i + 1;
    }
    CountAt(p, i, c);
  }

  /** The merged list has no equal neighbours but perhaps the first two. */
  lemma {:induction false} JoinedSeparate(p: seq<nat>, c: nat)
    requires Canonical(p) && c > 0
    ensures |Joined(p, c)| % 2 == 0 && Separate(Trimmed(Joined(p, c))) && Trimmed(Joined(p, c)) == Wrapped(p, c)
  {
    hide Count;
    CountSplits(p, c);
    if |p| >= 2 && p[0] == 0 && p[1] == c {
      CountAt(p, 2, c);
    }
    var i := Count(p, c);
    if i % 2 == 1 {
      IncreasingSeparate(p);
    } else if i > 0 && p[i - 1] == c {
      assert 0 < i - 1;
      JoinTie(p, i);
    } else {
      JoinBetween(p, i, c);
    }
  }

  lemma {:induction false} IncreasingSeparate(p: seq<nat>)
    requires Increasing(p)
    ensures Separate(p) && Trimmed(p) == p
  {
  }

  lemma {:induction false} JoinTie(p: seq<nat>, i: nat)
    requires Canonical(p) && 2 <= i <= |p|
    ensures var q := p[..i - 1] + [0] + p[i..];
            |q| % 2 == 0 && Separate(Trimmed(q)) && Trimmed(q) == if i == 2 && p[0] == 0 then p[2..] else q
  {
    var q := p[..i - 1] + [0] + p[i..];
    if i == 2 {
      assert q == [p[0], 0] + p[2..];
      IncreasingSeparate(p[2..]);
      JoinFront(p[0], p[2..]);
    } else {
      JoinLater(p, i);
    }
  }

  lemma {:induction false} JoinFront(v: nat, t: seq<nat>)
    requires Separate(t) && 0 !in t
    ensures Trimmed([v, 0] + t) == if v == 0 then t else [v, 0] + t
    ensures v != 0 ==> Separate([v, 0] + t)
  {
    assert ([v, 0] + t)[2..] == t;
    var q := [v, 0] + t;
    if v != 0 {
      forall i, j | 0 <= i && j == i + 1 && j < |q|
        ensures q[i] != q[j]
      {
        if i >= 2 {
          assert t[i - 2] != t[j - 2];
        } else if i == 1 {
          assert q[j] in t;
        }
      }
    }
  }

  lemma {:induction false} JoinLater(p: seq<nat>, i: nat)
    requires Canonical(p) && 2 < i <= |p|
    ensures var q := p[..i - 1] + [0] + p[i..]; Separate(q) && Trimmed(q) == q
  {
    var q := p[..i - 1] + [0] + p[i..];
    assert q[0] == p[0] < p[1] == q[1];
    assert p[0] < p[i - 2] == q[i - 2];
    forall x, y | 0 <= x && y == x + 1 && y < |q|
      ensures q[x] != q[y]
    {
      if x < i - 2 {
        assert q[x] == p[x] < p[y] == q[y];
      } else if x == i - 1 {
        assert p[0] < p[y] == q[y];
      } else if x >= i {
        assert q[x] == p[x] < p[y] == q[y];
      }
    }
  }

  lemma {:induction false} JoinBetween(p: seq<nat>, i: nat, c: nat)
    requires Canonical(p) && i <= |p| && c > 0 && (i > 0 ==> p[i - 1] < c) && (i < |p| ==> c < p[i])
    ensures var q := p[..i] + [c, 0] + p[i..];
            |q| % 2 == 0 && Separate(q) && Trimmed(q) == q
  {
  }

  /** Only in these cases are the points still in order: c was in the set, or all from 0 up to c and is now lost. */
  lemma {:induction false} WrappedInOrder(p: seq<nat>, c: nat)
    requires Canonical(p) && c > 0
    ensures InOrder(Wrapped(p, c)) <==> In(p, c) || (|p| >= 2 && p[0] == 0 && p[1] == c)
  {
    hide Count, Increasing;
    CountSplits(p, c);
    if |p| >= 2 && p[0] == 0 && p[1] == c {
      IncreasingInOrder(p);
      NextAbove(p, c, 1);
      CountAt(p, 2, c);
    } else if Count(p, c) % 2 == 1 {
      IncreasingInOrder(p);
    } else {
      JoinedDisorder(p, c, Count(p, c));
    }
  }

  lemma {:induction false} IncreasingInOrder(p: seq<nat>)
    requires Increasing(p)
    ensures InOrder(p) && (|p| >= 2 ==> InOrder(p[2..]))
  {
  }

  lemma {:induction false} JoinedDisorder(p: seq<nat>, c: nat, i: nat)
    requires Canonical(p) && c > 0 && i == Count(p, c) && i % 2 == 0 && !(|p| >= 2 && p[0] == 0 && p[1] == c)
    ensures !InOrder(Joined(p, c))
  {
    hide Count, Increasing;
    var q := Joined(p, c);
    if i > 0 && p[i - 1] == c {
      AboveZero(p, i - 2);
      assert q[i - 2] == p[i - 2] && q[i - 1] == 0;
    } else {
      assert q[i] == c && q[i + 1] == 0;
    }
  }

  lemma {:induction false} AboveZero(p: seq<nat>, i: nat)
    requires Increasing(p) && i < |p| && (i == 0 ==> p[0] > 0)
    ensures p[i] > 0
  {
    if i > 0 {
      assert p[0] < p[i];
    }
  }

  /** The point taken from a, from b or from both. */
  ghost predicate Taken(a: seq<nat>, b: seq<nat>, i: nat, j: nat, i': nat, j': nat, v: nat) {
    i <= |a| && j <= |b| &&
    if i < |a| && j < |b| && a[i] == b[j] then v == a[i] && i' == i + 1 && j' == j + 1
    else if j == |b| || (i < |a| && a[i] < b[j]) then i < |a| && v == a[i] && i' == i + 1 && j' == j
    else v == b[j] && i' == i && j' == j + 1
  }

  /** out is what the merge to w has given for the points up to i of a and j of the wrapped interval from c. */
  ghost predicate Wrapping(out: seq<nat>, w: seq<nat>, a: seq<nat>, c: nat, i: nat, j: nat) {
    i <= |a| && j <= 2 &&
    (j == 0 ==> out == a[..i] && (i > 0 ==> a[i - 1] < c)) &&
    (j == 1 ==> w == out + (if i % 2 == 1 then [] else [0]) + a[i..] && |out| % 2 == 1 && (i < |a| ==> c < a[i])) &&
    (j == 2 ==> w == out + a[i..] && |out| % 2 == i % 2)
  }

  /** One step: the next point is v, and it is added if the status changes. */
  lemma {:induction false} WrappingStep(out: seq<nat>, out': seq<nat>, a: seq<nat>, b: seq<nat>, i: nat, j: nat, i': nat, j': nat, v: nat)
    requires Wraps(a, b, Union) && Wrapping(out, Joined(a, b[0]), a, b[0], i, j) && Taken(a, b, i, j, i', j', v)
    requires out' == if (i' % 2 == 1 || j' % 2 == 1) != (|out| % 2 == 1) then out + [v] else out
    ensures Wrapping(out', Joined(a, b[0]), a, b[0], i', j')
  {
    hide Joined, Increasing;
    if j == 0 && j' == 1 {
      FirstWrapped(out, out', a, b[0], i, i');
    } else if j == 0 {
      assert a[..i'] == a[..i] + [a[i]];
    } else if j == 1 {
      SecondWrapped(out, out', Joined(a, b[0]), a, b[0], i);
    } else {
      RestWrapped(out, Joined(a, b[0]), a, i);
    }
  }

  lemma {:induction false} SecondWrapped(out: seq<nat>, out': seq<nat>, w: seq<nat>, a: seq<nat>, c: nat, i: nat)
    requires Wrapping(out, w, a, c, i, 1) && out' == if i % 2 == 1 then out else out + [0]
    ensures Wrapping(out', w, a, c, i, 2)
  {
  }

  lemma {:induction false} RestWrapped(out: seq<nat>, w: seq<nat>, a: seq<nat>, i: nat)
    requires i < |a| && w == out + a[i..]
    ensures w == out + [a[i]] + a[i + 1..]
  {
  }

  /** After the lower end c has been merged. */
  lemma {:induction false} FirstWrapped(out: seq<nat>, out': seq<nat>, a: seq<nat>, c: nat, i: nat, i': nat)
    requires Canonical(a) && c > 0 && i <= i' <= |a| && (i > 0 ==> a[i - 1] < c) && out == a[..i]
    requires if i' > i then i' == i + 1 && a[i] == c else i < |a| ==> c < a[i]
    requires out' == if |out| % 2 == 0 then out + [c] else out
    ensures (i' < |a| ==> c < a[i']) && |out'| % 2 == 1
    ensures Joined(a, c) == out' + (if i' % 2 == 1 then [] else [0]) + a[i'..]
  {
    hide Count, Increasing, Joined;
    NextAbove(a, c, i);
    JoinedIs(a, c, i');
    if i' > i {
      Tied(a, c, i);
    } else {
      Between(a, c, i);
    }
  }

  lemma {:induction false} Tied(a: seq<nat>, c: nat, i: nat)
    requires i < |a| && a[i] == c
    ensures a == a[..i] + [c] + a[i + 1..] && a[..i + 1 - 1] + [0] + a[i + 1..] == a[..i] + [0] + a[i + 1..]
    ensures a == (a[..i] + [c]) + [] + a[i + 1..]
  {
  }

  lemma {:induction false} Between(a: seq<nat>, c: nat, i: nat)
    requires i <= |a|
    ensures a == a[..i] + [] + a[i..] && a[..i] + [c, 0] + a[i..] == (a[..i] + [c]) + [0] + a[i..]
  {
  }

  lemma {:induction false} NextAbove(a: seq<nat>, c: nat, i: nat)
    requires Increasing(a)
    ensures i + 1 < |a| && a[i] == c ==> c < a[i + 1]
  {
  }

  lemma {:induction false} JoinedIs(p: seq<nat>, c: nat, i: nat)
    requires Increasing(p) && i <= |p| && (i > 0 ==> p[i - 1] <= c) && (i < |p| ==> c < p[i])
    ensures Joined(p, c) == if i % 2 == 1 then p else if i > 0 && p[i - 1] == c then p[..i - 1] + [0] + p[i..] else p[..i] + [c, 0] + p[i..]
  {
    hide Count;
    CountAt(p, i, c);
  }

  class CharRange {
    var points: seq<nat>

    constructor ()
      ensures points == []
    {
      points := [];
    }

    method AddPoint(v: nat)
      modifies this
      ensures points == old(points) + [v]
    {
      points := points + [v];
    }

    /** Merges consecutive intervals and removes empty ones, in place. */
    method Compress()
      requires |points| % 2 == 0
      modifies this
      ensures InOrder(old(points)) ==> Canonical(points) && SameSet(points, old(points)) && forall v :: v in points ==> v in old(points)
      ensures Separate(Trimmed(old(points))) ==> points == Trimmed(old(points))
    {
      hide Compressed, SameSet, InOrder, Separate, Trimmed, Copied;
      var len := |points|;
      ghost var p := points;
      var i, k := 0, 0;
      CompressStart(p);
      CopiedStart(p);
      while i + 1 < len
        invariant 0 <= k <= i <= len == |points| && i % 2 == 0 && points[i..] == p[i..]
        invariant InOrder(p) ==> Compressed(points, p, k, i)
        invariant Separate(Trimmed(p)) ==> Copied(points, p, k, i)
      {
        SameTail(points, p, i, i);
        if InOrder(p) {
          CompressNow(points, p, k, i);
        }
        if points[i] == points[i + 1] {
          if InOrder(p) {
            CompressSkip(points, p, k, i);
          }
          if Separate(Trimmed(p)) {
            CopiedSkip(points, p, k, i);
          }
          i := i + 2;
        } else {
          var j := Run(i, len, k, p);
          ghost var before := points;
          points := points[k := points[i]];
          points := points[k + 1 := points[j + 1]];
          CopiedTail(before, points, p, k, i, j);
          if Separate(Trimmed(p)) {
            CopiedStep(before, points, p, k, i, j);
          }
          if InOrder(p) {
            CompressCopy(before, points, p, k, i, j);
          }
          k := k + 2;
          i := j + 2;
        }
      }
      if InOrder(p) {
        CompressEnd(points, p, k, i);
      }
      if Separate(Trimmed(p)) {
        CopiedEnd(points, p, k, i);
      }
      points := points[..k];
    }

    /** The last of the intervals that touch, from i on. */
    method Run(i: nat, len: nat, k: nat, ghost p: seq<nat>) returns (j: nat)
      requires k <= i && i + 1 < len == |points| == |p| && i % 2 == 0 && len % 2 == 0
      requires points[i..] == p[i..] && (InOrder(p) ==> p[i] < p[i + 1] && SameSet(points[..k] + p[i..], p))
      ensures i <= j && j + 1 < len && j % 2 == 0 && (Separate(p[i..]) ==> j == i)
      ensures InOrder(p) ==> p[i] < p[j + 1] && (j + 2 < len ==> p[j + 1] < p[j + 2])
      ensures InOrder(p) ==> SameSet(points[..k] + [p[i], p[j + 1]] + p[j + 2..], p)
    {
      hide In, SameSet;
      j := i;
      assert points[..k] + p[i..] == points[..k] + [p[i], p[i + 1]] + p[i + 2..];
      while j + 3 < len && points[j + 1] == points[j + 2]
        invariant i <= j && j + 1 < len && j % 2 == 0 && (Separate(p[i..]) ==> j == i)
        invariant InOrder(p) ==> p[i] < p[j + 1] && SameSet(points[..k] + [p[i], p[j + 1]] + p[j + 2..], p)
        decreases len - j
      {
        SameTail(points, p, i, j + 1);
        if InOrder(p) {
          TouchGoes(points[..k], p, i, j);
        }
        if j == i {
          NotSeparate(p, i);
        }
        j := j + 2;
      }
      if InOrder(p) && j + 3 < len {
        SameTail(points, p, i, j + 1);
      }
    }

    /**
    The union, intersection or symmetric difference of two sets; duplicated points are allowed. The
    union with an interval whose upper end has wrapped to zero is the list of Wrapped.
    */
    method Op(a: seq<nat>, b: seq<nat>, op: SetOp)
      requires points == [] && |a| % 2 == 0 && |b| % 2 == 0 && InOrder(a) && (InOrder(b) || Wraps(a, b, op))
      modifies this
      ensures InOrder(b) ==> Canonical(points) && forall v :: v in points ==> v in a || v in b
      ensures InOrder(b) && op == Union ==> forall c: nat :: In(points, c) == (In(a, c) || In(b, c))
      ensures InOrder(b) && op == Inter ==> forall c: nat :: In(points, c) == (In(a, c) && In(b, c))
      ensures InOrder(b) && op == Xor ==> forall c: nat :: In(points, c) == (In(a, c) != In(b, c))
      ensures Wraps(a, b, op) ==> points == Wrapped(a, b[0])
    {
      hide In, Merging, Combine, InOrder, Wrapped, Joined, Wrapping, Separate, Trimmed;
      var i, j := 0, 0;
      MergingStart(a, b, op);
      if Wraps(a, b, op) {
        WrappingStart(a, b[0]);
      }
      while i < |a| || j < |b|
        invariant i <= |a| && j <= |b|
        invariant InOrder(b) ==> Merging(points, a, b, i, j, op)
        invariant Wraps(a, b, op) ==> Wrapping(points, Joined(a, b[0]), a, b[0], i, j)
        decreases |a| + |b| - i - j
      {
        var v;
        ghost var i0, j0 := i, j;
        if i < |a| && j < |b| && a[i] == b[j] {
          v := a[i];
          i, j := i + 1, j + 1;
        } else if j == |b| || (i < |a| && a[i] < b[j]) {
          v := a[i];
          i := i + 1;
        } else {
          v := b[j];
          j := j + 1;
        }
        if InOrder(b) {
          NextInOrder(a, b, i0, j0, i, j, v);
          MergingStep(points, a, b, i0, j0, i, j, v, op);
        }
        if Wraps(a, b, op) {
          UnionIs(i % 2 == 1, j % 2 == 1);
          WrappingStep(points, if (i % 2 == 1 || j % 2 == 1) != (|points| % 2 == 1) then points + [v] else points, a, b, i0, j0, i, j, v);
        }
        var isIn := Combine(op, i % 2 == 1, j % 2 == 1);
        if isIn != (|points| % 2 == 1) {
          AddPoint(v);
        }
      }
      ghost var merged := points;
      if InOrder(b) {
        MergingEnd(points, a, b, op);
      }
      if Wraps(a, b, op) {
        WrappingEnd(points, a, b[0]);
      }
      Compress();
      if InOrder(b) {
        SameAs(points, merged);
        CombineIs(op);
      }
    }

    /** Adds the points of b to the set. */
    method Union1(b: seq<nat>)
      requires |points| % 2 == 0 && InOrder(points) && |b| % 2 == 0 && (InOrder(b) || Wraps(points, b, Union))
      modifies this
      ensures InOrder(b) ==> Canonical(points) && (forall c: nat :: In(points, c) == (In(old(points), c) || In(b, c))) &&
                             forall v :: v in points ==> v in old(points) || v in b
      ensures Wraps(old(points), b, Union) ==> points == Wrapped(old(points), b[0])
    {
      hide In;
      var a := points;
      points := [];
      Op(a, b, Union);
    }

    /**
    Adds the interval from c1 to c2 inclusive. The upper end is c2 + 1 in 32 bits: at UINT32_MAX it
    wraps to zero: the interval from 0 then adds nothing, and any other gives the list of Wrapped.
    */
    method UnionInterval(c1: nat, c2: nat)
      requires |points| % 2 == 0 && InOrder(points) && c1 <= c2 <= 0xffff_ffff && (0 < c1 && c2 == 0xffff_ffff ==> Canonical(points))
      modifies this
      ensures c2 < 0xffff_ffff ==> Canonical(points) && forall c: nat :: In(points, c) == (In(old(points), c) || c1 <= c <= c2)
      ensures c2 == 0xffff_ffff && c1 == 0 ==> Canonical(points) && SameSet(points, old(points))
      ensures c2 == 0xffff_ffff && c1 > 0 ==> points == Wrapped(old(points), c1)
    {
      hide In;
      ghost var p := points;
      var end := if c2 == UINT32_MAX then 0 else c2 + 1;
      Union1([c1, end]);
      if c1 <= end {
        forall c: nat
          ensures In(points, c) == (In(p, c) || c1 <= c < end)
        {
          OneInterval(c1, end, c);
        }
      }
    }

    /** The complement below UINT32_MAX. */
    method Invert()
      requires |points| % 2 == 0 && InOrder(points) && forall v :: v in points ==> v <= UINT32_MAX
      modifies this
      ensures Canonical(points) && forall v :: v in points ==> v <= UINT32_MAX
      ensures forall c: nat :: In(points, c) == (c < 0xffff_ffff && !In(old(points), c))
    {
      hide In;
      ghost var p := points;
      points := [0] + points + [UINT32_MAX];
      ghost var q := points;
      SortedBetween(p);
      Compress();
      SameAs(points, q);
      forall c: nat
        ensures In(points, c) == (c < UINT32_MAX && !In(p, c))
      {
        Flipped(p, c);
      }
    }
  }

  lemma {:induction false} SameTail(p: seq<nat>, q: seq<nat>, i: nat, j: nat)
    requires |p| == |q| && i <= j && j + 1 < |p| && p[i..] == q[i..]
    ensures p[j] == q[j] && p[j + 1] == q[j + 1]
  {
    assert p[i..][j - i] == q[i..][j - i] && p[i..][j + 1 - i] == q[i..][j + 1 - i];
  }

  /** Without equal neighbours but perhaps the first two, the points are copied one by one. */
  ghost predicate Copied(pt: seq<nat>, p: seq<nat>, k: nat, i: nat)
    requires k <= i <= |p| == |pt|
  {
    var d := |p| - |Trimmed(p)|;
    if i < d then i == 0 && k == 0 else k == i - d && pt[..k] == p[d..i]
  }

  lemma {:induction false} CopiedStart(p: seq<nat>)
    ensures Copied(p, p, 0, 0)
  {
  }

  lemma {:induction false} CopiedTail(pt: seq<nat>, pt': seq<nat>, p: seq<nat>, k: nat, i: nat, j: nat)
    requires k <= i <= j && j + 1 < |p| == |pt| && pt[i..] == p[i..] && pt' == pt[k := pt[i]][k + 1 := pt[j + 1]]
    ensures pt'[j + 2..] == p[j + 2..]
  {
    assert pt'[j + 2..] == pt[i..][j + 2 - i..] && p[j + 2..] == p[i..][j + 2 - i..];
  }

  lemma {:induction false} NotSeparate(p: seq<nat>, i: nat)
    requires i + 2 < |p| && p[i + 1] == p[i + 2]
    ensures !Separate(p[i..])
  {
    var q := p[i..];
    assert q[1] == q[2];
  }

  /** From where the copying starts no two neighbours are equal. */
  lemma {:induction false} SeparateFrom(p: seq<nat>, i: nat)
    requires Separate(Trimmed(p)) && i <= |p| && |p| - |Trimmed(p)| <= i
    ensures Separate(p[i..])
  {
    var d := |p| - |Trimmed(p)|;
    assert Trimmed(p) == p[d..];
    forall x, y | 0 <= x && y == x + 1 && y < |p[i..]|
      ensures p[i..][x] != p[i..][y]
    {
      assert p[d..][i - d + x] != p[d..][i - d + y];
    }
  }

  lemma {:induction false} CopiedSkip(pt: seq<nat>, p: seq<nat>, k: nat, i: nat)
    requires k <= i && i + 1 < |p| == |pt| && p[i] == p[i + 1] && Copied(pt, p, k, i) && Separate(Trimmed(p))
    ensures Copied(pt, p, k, i + 2)
  {
    hide Separate;
    if |p| - |Trimmed(p)| <= i {
      SeparateFrom(p, i);
      EqualPair(p, i);
      assert false;
    }
  }

  lemma {:induction false} EqualPair(p: seq<nat>, i: nat)
    requires i + 1 < |p| && p[i] == p[i + 1]
    ensures !Separate(p[i..])
  {
    var q := p[i..];
    assert q[0] == q[1];
  }

  lemma {:induction false} CopiedStep(pt: seq<nat>, pt': seq<nat>, p: seq<nat>, k: nat, i: nat, j: nat)
    requires k <= i <= j && j + 1 < |p| == |pt| && p[i] != p[i + 1] && Copied(pt, p, k, i) && Separate(Trimmed(p))
    requires pt[i..] == p[i..] && pt' == pt[k := pt[i]][k + 1 := pt[j + 1]] && (Separate(p[i..]) ==> j == i)
    ensures k + 2 <= j + 2 <= |p| == |pt'| && Copied(pt', p, k + 2, j + 2)
  {
    hide Separate, Trimmed;
    TrimmedBy(p);
    SeparateFrom(p, i);
    SameTail(pt, p, i, i);
    TwoWritten(pt, k, p[i], p[i + 1]);
    TwoRead(p, |p| - |Trimmed(p)|, i);
  }

  lemma {:induction false} TrimmedBy(p: seq<nat>)
    ensures var d := |p| - |Trimmed(p)|; d == 0 || (d == 2 && p[0] == p[1])
  {
  }

  lemma {:induction false} TwoWritten(pt: seq<nat>, k: nat, v: nat, w: nat)
    requires k + 1 < |pt|
    ensures pt[k := v][k + 1 := w][..k + 2] == pt[..k] + [v, w]
  {
  }

  lemma {:induction false} TwoRead(p: seq<nat>, d: nat, i: nat)
    requires d <= i && i + 1 < |p|
    ensures p[d..i + 2] == p[d..i] + [p[i], p[i + 1]]
  {
  }

  lemma {:induction false} CopiedEnd(pt: seq<nat>, p: seq<nat>, k: nat, i: nat)
    requires k <= i == |p| == |pt| && Copied(pt, p, k, i)
    ensures pt[..k] == Trimmed(p)
  {
  }

  lemma {:induction false} WrappingStart(a: seq<nat>, c: nat)
    ensures Wrapping([], Joined(a, c), a, c, 0, 0)
  {
    hide Joined;
  }

  lemma {:induction false} WrappingEnd(out: seq<nat>, a: seq<nat>, c: nat)
    requires Wrapping(out, Joined(a, c), a, c, |a|, 2) && Canonical(a) && c > 0
    ensures |out| % 2 == 0 && Separate(Trimmed(out)) && Trimmed(out) == Wrapped(a, c)
  {
    hide Wrapped, Joined, Separate, Trimmed;
    assert out + a[|a|..] == out;
    JoinedSeparate(a, c);
  }

  lemma {:induction false} UnionIs(x: bool, y: bool)
    ensures Combine(Union, x, y) == (x || y)
  {
  }

  lemma {:induction false} CombineIs(op: SetOp)
    ensures forall x, y :: Combine(op, x, y) == match op case Union => x || y case Inter => x && y case Xor => x != y
  {
  }

  lemma {:induction false} NextInOrder(a: seq<nat>, b: seq<nat>, i: nat, j: nat, i': nat, j': nat, v: nat)
    requires InOrder(a) && InOrder(b) && Taken(a, b, i, j, i', j', v)
    ensures NextPoint(a, b, i, j, i', j', v)
  {
  }

  lemma {:induction false} EmptyGoes(out: seq<nat>, p: seq<nat>, i: nat)
    requires i + 1 < |p| && p[i] == p[i + 1] && SameSet(out + p[i..], p)
    ensures SameSet(out + p[i + 2..], p)
  {
    hide In, SameSet;
    assert out + p[i..] == out + [p[i], p[i]] + p[i + 2..];
    DropPair(out, p[i], p[i + 2..]);
    SameSym(out + p[i..], out + p[i + 2..]);
    SameTrans(out + p[i + 2..], out + p[i..], p);
  }

  lemma {:induction false} TouchGoes(out: seq<nat>, p: seq<nat>, i: nat, j: nat)
    requires i <= j && j + 3 < |p| && p[j + 1] == p[j + 2] && SameSet(out + [p[i], p[j + 1]] + p[j + 2..], p)
    ensures SameSet(out + [p[i], p[j + 3]] + p[j + 4..], p)
  {
    hide In, SameSet;
    var v, pre, post := p[j + 1], out + [p[i]], [p[j + 3]] + p[j + 4..];
    assert out + [p[i], v] + p[j + 2..] == pre + [v, v] + post;
    assert out + [p[i], p[j + 3]] + p[j + 4..] == pre + post;
    DropPair(pre, v, post);
    SameSym(pre + [v, v] + post, pre + post);
    SameTrans(pre + post, pre + [v, v] + post, p);
  }

  lemma {:induction false} SameSym(p: seq<nat>, q: seq<nat>)
    requires SameSet(p, q)
    ensures SameSet(q, p)
  {
    hide In;
    forall c: nat
      ensures In(q, c) == In(p, c)
    {
      assert In(p, c) == In(q, c);
    }
  }

  lemma {:induction false} SameAs(p: seq<nat>, q: seq<nat>)
    requires SameSet(p, q)
    ensures forall c: nat :: In(p, c) == In(q, c)
  {
  }

  lemma {:induction false} MergingStart(a: seq<nat>, b: seq<nat>, op: SetOp)
    ensures Merging([], a, b, 0, 0, op)
  {
    hide Merged;
    NothingMerged(op);
    assert a[..0] == [] && b[..0] == [];
  }

  lemma {:induction false} MergingEnd(out: seq<nat>, a: seq<nat>, b: seq<nat>, op: SetOp)
    requires Merging(out, a, b, |a|, |b|, op) && |a| % 2 == 0 && |b| % 2 == 0
    ensures |out| % 2 == 0 && InOrder(out) && forall v :: v in out ==> v in a || v in b
    ensures forall c: nat :: In(out, c) == Combine(op, In(a, c), In(b, c))
  {
    hide Merged, In;
    assert a[..|a|] == a && b[..|b|] == b;
    MergedIs(out, a, b, op);
  }

  lemma {:induction false} NothingMerged(op: SetOp)
    ensures Merged([], [], [], op)
  {
  }

  lemma {:induction false} MergedIs(out: seq<nat>, a: seq<nat>, b: seq<nat>, op: SetOp)
    requires Merged(out, a, b, op)
    ensures (|out| % 2 == 1) == Combine(op, |a| % 2 == 1, |b| % 2 == 1)
    ensures forall c: nat :: In(out, c) == Combine(op, In(a, c), In(b, c))
  {
    hide In;
  }

  lemma {:induction false} OneInterval(v: nat, w: nat, c: nat)
    requires v <= w
    ensures In([v, w], c) <==> v <= c < w
  {
    hide Count;
    CountPair([v, w], c);
    assert [v, w][2..] == [];
    CountNone([], c);
  }

  lemma {:induction false} SortedBetween(p: seq<nat>)
    requires InOrder(p) && forall v :: v in p ==> v <= UINT32_MAX
    ensures InOrder([0] + p + [UINT32_MAX])
  {
    assert forall i :: 0 <= i < |p| ==> p[i] in p;
  }

  lemma {:induction false} Flipped(p: seq<nat>, c: nat)
    requires |p| % 2 == 0 && forall v :: v in p ==> v <= UINT32_MAX
    ensures In([0] + p + [UINT32_MAX], c) == (c < UINT32_MAX && !In(p, c))
  {
    hide Count;
    CountSnoc([0] + p, UINT32_MAX, c);
    CountConcat([0], p, c);
    CountAll([0], c);
    if c >= UINT32_MAX {
      assert forall i :: 0 <= i < |p| ==> p[i] in p;
      CountAll(p, c);
    }
  }

  /** The opcode emitted for a canonical set accepts exactly its members. */
  lemma {:induction false} EmittedClass(p: seq<nat>, c: nat)
    requires Canonical(p) && (forall v :: v in p ==> v <= UINT32_MAX) && |p| / 2 < 65535 && c <= 0x10_ffff
    ensures ClassOk(p) && IsCharOp(ClassCode(p)) && (CharTest(ClassCode(p), c) <==> In(p, c))
  {
    hide In, ClassCode, CharTest, Member;
    TestCorrect(InClass(p), c);
    MemberIsIn(p, c);
  }

  /** Inverting twice gives the canonical list back. */
  lemma {:induction false} InvertTwice(p: seq<nat>, q: seq<nat>, r: seq<nat>)
    requires Canonical(p) && Canonical(r) && forall v :: v in p ==> v <= UINT32_MAX
    requires forall c: nat :: In(q, c) == (c < UINT32_MAX && !In(p, c))
    requires forall c: nat :: In(r, c) == (c < UINT32_MAX && !In(q, c))
    ensures r == p
  {
    hide In;
    forall c: nat
      ensures In(r, c) == In(p, c)
    {
      assert In(r, c) == (c < UINT32_MAX && !In(q, c));
      if c >= UINT32_MAX {
        NothingAbove(p, c);
      }
    }
    CanonicalUnique(r, p);
  }

  lemma {:induction false} NothingAbove(p: seq<nat>, c: nat)
    requires |p| % 2 == 0 && (forall v :: v in p ==> v <= UINT32_MAX) && c >= UINT32_MAX
    ensures !In(p, c)
  {
    hide Count;
    assert forall i :: 0 <= i < |p| ==> p[i] in p;
    CountAll(p, c);
  }

  lemma {:induction false} SameRefl(p: seq<nat>)
    ensures SameSet(p, p)
  {
  }
}
