/** Character classes end to end: the emitted ranges accept exactly the members of the class. */
module ReRange {
  import opened ReCode
  import opened ReSyntax
  import opened ReMatch
  import opened ReVm

  /** c lies in one of the closed ranges lo..hi - 1. */
  ghost predicate InPairs(ps: seq<(nat, nat)>, c: nat, lo: nat, hi: nat) {
    exists k :: lo <= k < hi && k < |ps| && ps[k].0 <= c <= ps[k].1
  }

  /** Non-empty ranges in increasing order. */
  ghost predicate Sorted(ps: seq<(nat, nat)>) {
    (forall k :: 0 <= k < |ps| ==> ps[k].0 <= ps[k].1) &&
    (forall j, k :: 0 <= j < k < |ps| ==> ps[j].1 < ps[k].0)
  }

  /** The binary search finds the range of c if there is one. */
  lemma {:induction false} SearchCorrect(ps: seq<(nat, nat)>, c: nat, lo: nat, hi: nat)
    requires Sorted(ps) && lo <= hi <= |ps|
    ensures Search(ps, c, lo, hi) <==> InPairs(ps, c, lo, hi)
    decreases hi - lo
  {
    if lo < hi {
      var mid := (lo + (hi - 1)) / 2;
      if c < ps[mid].0 {
        SearchCorrect(ps, c, lo, mid);
        assert forall k :: mid < k < |ps| ==> ps[mid].1 < ps[k].0;
      } else if c > ps[mid].1 {
        SearchCorrect(ps, c, mid + 1, hi);
        assert forall k :: 0 <= k < mid ==> ps[k].1 < ps[mid].0;
      }
    }
  }

  lemma {:induction false} MemberAt(p: seq<nat>, c: nat)
    requires |p| % 2 == 0
    ensures Member(p, c) <==> exists k: nat :: 2 * k + 1 < |p| && p[2 * k] <= c < p[2 * k + 1]
  {
    if |p| >= 2 {
      var q := p[2..];
      MemberAt(q, c);
      if p[0] <= c < p[1] {
        assert p[2 * 0] <= c < p[2 * 0 + 1];
      } else if Member(q, c) {
        var k: nat :| 2 * k + 1 < |q| && q[2 * k] <= c < q[2 * k + 1];
        assert p[2 * (k + 1)] <= c < p[2 * (k + 1) + 1];
      } else if exists k: nat :: 2 * k + 1 < |p| && p[2 * k] <= c < p[2 * k + 1] {
        var k: nat :| 2 * k + 1 < |p| && p[2 * k] <= c < p[2 * k + 1];
        assert k > 0;
        assert q[2 * (k - 1)] <= c < q[2 * (k - 1) + 1];
      }
    }
  }

  lemma {:induction false} PairAtIndex(p: seq<nat>, wide: bool, k: nat)
    requires |p| % 2 == 0 && Increasing(p) && 2 * k + 1 < |p|
    ensures ClassPairs(p, wide)[k].0 == p[2 * k]
    ensures ClassPairs(p, wide)[k].1 == if !wide && p[2 * k + 1] == UINT32_MAX then 0xffff else p[2 * k + 1] - 1
  {
    assert p[0] < p[1];
    if k > 0 {
      var q := p[2..];
      assert forall i, j :: 0 <= i < j < |q| ==> q[i] == p[i + 2] && q[j] == p[j + 2];
      PairAtIndex(q, wide, k - 1);
      assert q[2 * (k - 1)] == p[2 * k] && q[2 * (k - 1) + 1] == p[2 * k + 1];
    }
  }

  lemma {:induction false} ClassSorted(p: seq<nat>, wide: bool)
    requires ClassOk(p)
    requires !wide ==> forall i :: 0 <= i < |p| ==> p[i] <= 0xffff || (i == |p| - 1 && p[i] == UINT32_MAX)
    ensures Sorted(ClassPairs(p, wide))
    ensures PairsBelow(ClassPairs(p, wide), if wide then U32 else U16)
  {
    var ps := ClassPairs(p, wide);
    forall k | 0 <= k < |ps|
      ensures ps[k].0 <= ps[k].1 && ps[k].0 < (if wide then U32 else U16) && ps[k].1 < (if wide then U32 else U16)
    {
      PairAtIndex(p, wide, k);
      assert p[2 * k] < p[2 * k + 1];
      assert p[2 * k + 1] in p && p[2 * k] in p;
    }
    forall j, k | 0 <= j < k < |ps|
      ensures ps[j].1 < ps[k].0
    {
      PairAtIndex(p, wide, j);
      PairAtIndex(p, wide, k);
      assert p[2 * j + 1] < p[2 * k] && p[2 * j + 1] < p[|p| - 1];
    }
  }

  /** Up to the infinite end of a 16-bit class, ranges and points agree. */
  lemma {:induction false} PairsAreMembers(p: seq<nat>, wide: bool, c: nat)
    requires ClassOk(p) && c <= 0x10_ffff && (wide || c < 0xffff || (p != [] && p[|p| - 1] != UINT32_MAX))
    ensures InPairs(ClassPairs(p, wide), c, 0, |p| / 2) <==> Member(p, c)
  {
    MemberAt(p, c);
    var ps := ClassPairs(p, wide);
    if InPairs(ps, c, 0, |p| / 2) {
      var k :| 0 <= k < |p| / 2 && k < |ps| && ps[k].0 <= c <= ps[k].1;
      PairAtIndex(p, wide, k);
      assert p[2 * k] < p[2 * k + 1];
      assert p[2 * k] <= c < p[2 * k + 1];
    }
    if Member(p, c) {
      var k: nat :| 2 * k + 1 < |p| && p[2 * k] <= c < p[2 * k + 1];
      PairAtIndex(p, wide, k);
      assert p[|p| - 1] in p;
      assert ps[k].0 <= c <= ps[k].1;
    }
  }

  /** The opcode emitted for a class is encodable and accepts exactly its members. */
  lemma {:induction false} ClassCorrect(p: seq<nat>, c: nat)
    requires ClassOk(p) && c <= 0x10_ffff
    ensures IsCharOp(ClassCode(p)) && Encodable(ClassCode(p))
    ensures CharTest(ClassCode(p), c) <==> Member(p, c)
  {
    hide Member, Search, InPairs, Sorted, ClassPairs, PairsBelow;
    if |p| > 0 {
      var n := |p| / 2;
      var last := p[|p| - 1];
      var high := if last == UINT32_MAX then p[|p| - 2] else last;
      var wide := high > 0xffff;
      NarrowBounds(p, high);
      ClassSorted(p, wide);
      var ps := ClassPairs(p, wide);
      SearchCorrect(ps, c, 0, n);
      PairAtIndex(p, wide, n - 1);
      if !wide && last == UINT32_MAX && c >= 0xffff {
        MemberLast(p, c);
        FirstBelow(ps, c);
      } else {
        PairsAreMembers(p, wide, c);
        InPairsBounds(ps, c);
      }
    } else {
      EmptyClass(c);
    }
  }

  lemma {:induction false} EmptyClass(c: nat)
    ensures !Member([], c)
  {
  }

  lemma {:induction false} NarrowBounds(p: seq<nat>, high: nat)
    requires ClassOk(p) && |p| > 0 && high == (if p[|p| - 1] == UINT32_MAX then p[|p| - 2] else p[|p| - 1])
    ensures high <= 0xffff ==>
              forall i :: 0 <= i < |p| ==> p[i] <= 0xffff || (i == |p| - 1 && p[i] == UINT32_MAX)
  {
    assert forall i :: 0 <= i < |p| - 2 ==> p[i] < p[|p| - 2];
    assert forall i :: 0 <= i < |p| - 1 ==> p[i] < p[|p| - 1];
  }

  lemma {:induction false} MemberLast(p: seq<nat>, c: nat)
    requires ClassOk(p) && |p| > 0 && p[|p| - 1] == UINT32_MAX && p[|p| - 2] <= 0xffff <= c <= 0x10_ffff
    ensures Member(p, c)
  {
    MemberAt(p, c);
    var k := |p| / 2 - 1;
    assert p[2 * k] <= c < p[2 * k + 1];
  }

  lemma {:induction false} FirstBelow(ps: seq<(nat, nat)>, c: nat)
    requires Sorted(ps) && |ps| > 0 && PairsBelow(ps, U16) && c >= 0xffff
    ensures ps[0].0 <= c
  {
    assert ps[0] in ps;
  }

  lemma {:induction false} InPairsBounds(ps: seq<(nat, nat)>, c: nat)
    requires Sorted(ps) && |ps| > 0
    ensures InPairs(ps, c, 0, |ps|) ==> ps[0].0 <= c <= ps[|ps| - 1].1
  {
    if InPairs(ps, c, 0, |ps|) {
      var k :| 0 <= k < |ps| && ps[k].0 <= c <= ps[k].1;
      if k > 0 {
        assert ps[0].1 < ps[k].0;
      }
      if k < |ps| - 1 {
        assert ps[k].1 < ps[|ps| - 1].0;
      }
    }
  }

  /** Every character test compiles to an opcode that performs it. */
  lemma {:induction false} TestCorrect(t: Test, c: nat)
    requires NodeOk(Atom(t), false, 0) && c <= 0x10_ffff
    ensures IsCharOp(TestCode(t)) && Encodable(TestCode(t))
    ensures CharTest(TestCode(t), c) <==> Accepts(t, c)
  {
    if t.InClass? {
      ClassCorrect(t.points, c);
    }
  }
}
