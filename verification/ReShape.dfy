/**
Well-formed code: every jump lands on an instruction boundary where a linear scan finds the
depth that the jump leaves, counters are there when used, and capture indices are in range.
*/
module ReShape {
  import opened ReCode
  import opened ReSyntax
  import opened ReMatch
  import opened ReUnfold
  import opened ReVm
  import opened ReRun
  import opened ReCorrect
  import opened ReGreedy

  /** The byte offset of the instruction with index i, and the depth of the linear scan there. */
  ghost function Pos(code: seq<Instr>, i: nat): nat
    requires i <= |code|
  {
    CodeSize(code[..i])
  }

  ghost function Dep(code: seq<Instr>, i: nat): int
    requires i <= |code|
  {
    EndDepth(code[..i], 0)
  }

  /** `off` bytes after instruction i starts instruction k, at the depth that instruction i leaves. */
  ghost predicate Lands(code: seq<Instr>, i: nat, off: int, k: nat) {
    i < |code| && k <= |code| && Pos(code, k) == Pos(code, i + 1) + off && Dep(code, k) == Dep(code, i + 1)
  }

  ghost predicate Target(code: seq<Instr>, i: nat, off: int, lim: nat) {
    exists k: nat :: k <= lim && Lands(code, i, off, k)
  }

  /** The body of a greedy loop: `count` characters, then `match`, up to instruction k. */
  ghost predicate Body(code: seq<Instr>, i: nat, count: nat, k: nat) {
    i + 1 < k <= |code| && code[k - 1] == Match && SimpleCount(code[i + 1..k - 1]) == Some(count)
  }

  ghost predicate GreedyTarget(code: seq<Instr>, i: nat, off: int, count: nat, lim: nat) {
    exists k: nat :: k <= lim && Lands(code, i, off, k) && Body(code, i, count, k)
  }

  /** Instruction i is well-formed, with nc captures, and jumps at most to instruction `lim`. */
  ghost predicate InstrOk(code: seq<Instr>, i: nat, nc: nat, lim: nat)
    requires i < |code|
  {
    Dep(code, i) >= 0 &&
    match code[i]
    case Goto(o) => Target(code, i, o, lim)
    case SplitGotoFirst(o) => Target(code, i, o, lim)
    case SplitNextFirst(o) => Target(code, i, o, lim)
    case Lookahead(o) => Target(code, i, o, lim)
    case NegLookahead(o) => Target(code, i, o, lim)
    case Loop(o) => Dep(code, i) >= 1 && Target(code, i, o, lim)
    case BneCharPos(o) => Dep(code, i) >= 1 && Target(code, i, o, lim)
    case Drop => Dep(code, i) >= 1
    case SaveStart(x) => x < nc
    case SaveEnd(x) => x < nc
    case SaveReset(_, y) => y < nc
    case SimpleGreedy(o, _, _, c) => c > 0 && GreedyTarget(code, i, o, c, lim)
    case _ => true
  }

  ghost predicate Shaped(code: seq<Instr>, nc: nat) {
    forall i | 0 <= i < |code| :: InstrOk(code, i, nc, |code|)
  }

  /** The depth of a scan that starts deeper. */
  lemma {:induction false} DepthShift(code: seq<Instr>, d: int)
    ensures EndDepth(code, d) == d + EndDepth(code, 0)
  {
    if code != [] {
      DepthShift(code[1..], d + Delta(code[0]));
      DepthShift(code[1..], Delta(code[0]));
    }
  }

  /** Code surrounded by other code. */
  lemma {:induction false} Within(p: seq<Instr>, a: seq<Instr>, q: seq<Instr>, k: nat)
    requires k <= |a|
    ensures Pos(p + a + q, |p| + k) == CodeSize(p) + Pos(a, k)
    ensures Dep(p + a + q, |p| + k) == EndDepth(p, 0) + Dep(a, k)
  {
    hide CodeSize, EndDepth;
    assert (p + a + q)[..|p| + k] == p + a[..k];
    CodeSizeAppend(p, a[..k]);
    DepthAppend(p, a[..k], 0);
    DepthShift(a[..k], EndDepth(p, 0));
  }

  lemma {:induction false} TargetWithin(p: seq<Instr>, a: seq<Instr>, q: seq<Instr>, i: nat, off: int, k: nat)
    requires Lands(a, i, off, k)
    ensures Lands(p + a + q, |p| + i, off, |p| + k)
  {
    hide Pos, Dep, CodeSize, EndDepth;
    Within(p, a, q, k);
    Within(p, a, q, i + 1);
  }

  lemma {:induction false} BodyWithin(p: seq<Instr>, a: seq<Instr>, q: seq<Instr>, i: nat, count: nat, k: nat)
    requires Body(a, i, count, k)
    ensures Body(p + a + q, |p| + i, count, |p| + k)
  {
    hide SimpleCount;
    assert (p + a + q)[|p| + i + 1..|p| + k - 1] == a[i + 1..k - 1];
  }

  /** A well-formed instruction stays well-formed in a larger program. */
  lemma {:induction false} InstrWithin(p: seq<Instr>, a: seq<Instr>, q: seq<Instr>, i: nat, nc: nat, lim: nat)
    requires i < |a| && InstrOk(a, i, nc, lim) && EndDepth(p, 0) >= 0
    ensures InstrOk(p + a + q, |p| + i, nc, |p| + lim)
  {
    hide Pos, Dep, CodeSize, EndDepth, Lands, Body;
    Within(p, a, q, i);
    var w := p + a + q;
    assert w[|p| + i] == a[i];
    forall off, k: nat | k <= lim && Lands(a, i, off, k)
      ensures Target(w, |p| + i, off, |p| + lim)
    {
      TargetWithin(p, a, q, i, off, k);
    }
    if a[i].SimpleGreedy? {
      var k: nat :| k <= lim && Lands(a, i, a[i].next, k) && Body(a, i, a[i].count, k);
      TargetWithin(p, a, q, i, a[i].next, k);
      BodyWithin(p, a, q, i, a[i].count, k);
    }
  }

  /** All instructions of `a` are well-formed inside p + a + q. */
  ghost predicate ShapedWithin(p: seq<Instr>, a: seq<Instr>, q: seq<Instr>, nc: nat) {
    forall i | |p| <= i < |p| + |a| :: InstrOk(p + a + q, i, nc, |p + a + q|)
  }

  lemma {:induction false} InstrLimit(a: seq<Instr>, i: nat, nc: nat, lim: nat, lim': nat)
    requires i < |a| && InstrOk(a, i, nc, lim) && lim <= lim'
    ensures InstrOk(a, i, nc, lim')
  {
    hide Pos, Dep, Lands, Body;
  }

  lemma {:induction false} Embed(p: seq<Instr>, a: seq<Instr>, q: seq<Instr>, nc: nat)
    requires Shaped(a, nc) && EndDepth(p, 0) >= 0
    ensures ShapedWithin(p, a, q, nc)
  {
    hide InstrOk, EndDepth;
    forall i | |p| <= i < |p| + |a|
      ensures InstrOk(p + a + q, i, nc, |p + a + q|)
    {
      InstrWithin(p, a, q, i - |p|, nc, |a|);
      InstrLimit(p + a + q, i, nc, |p| + |a|, |p + a + q|);
    }
  }

  lemma {:induction false} ShapedAppend(a: seq<Instr>, b: seq<Instr>, nc: nat)
    requires Shaped(a, nc) && Shaped(b, nc) && EndDepth(a, 0) == 0
    ensures Shaped(a + b, nc)
  {
    hide InstrOk, EndDepth;
    EmptyDepth(0);
    Embed([], a, b, nc);
    Embed(a, b, [], nc);
    assert [] + a + b == a + b && a + b + [] == a + b;
  }

  /** Code that neither jumps nor uses counters. */
  lemma {:induction false} ShapedFlat(a: seq<Instr>, nc: nat)
    requires forall i | i in a :: Delta(i) == 0 && !HasOffset(i) && !i.SimpleGreedy?
    requires forall i | i in a :: (i.SaveStart? || i.SaveEnd? ==> i.idx < nc) && (i.SaveReset? ==> i.last < nc)
    ensures Shaped(a, nc) && EndDepth(a, 0) == 0
  {
    hide EndDepth, CodeSize;
    forall i | 0 <= i <= |a|
      ensures Dep(a, i) == 0
    {
      FlatDepth(a[..i]);
    }
    FlatDepth(a);
    forall i | 0 <= i < |a|
      ensures InstrOk(a, i, nc, |a|)
    {
      assert a[i] in a;
      assert !a[i].Drop? by { assert Delta(a[i]) == 0; }
    }
  }

  lemma {:induction false} FlatDepth(a: seq<Instr>)
    requires forall i | i in a :: Delta(i) == 0
    ensures EndDepth(a, 0) == 0
  {
    if a != [] {
      assert a[0] in a;
      FlatDepth(a[1..]);
    }
  }

  /** Where a prefix ends. */
  lemma {:induction false} Ends(code: seq<Instr>, i: nat, pre: seq<Instr>, size: nat, depth: int)
    requires i <= |code| && code[..i] == pre && CodeSize(pre) == size && EndDepth(pre, 0) == depth
    ensures Pos(code, i) == size && Dep(code, i) == depth
  {
    hide CodeSize, EndDepth;
  }

  /** The size and depth of one instruction after a fragment. */
  lemma {:induction false} Snoc(a: seq<Instr>, i: Instr)
    ensures CodeSize(a + [i]) == CodeSize(a) + Size(i) && EndDepth(a + [i], 0) == EndDepth(a, 0) + Delta(i)
  {
    hide CodeSize, EndDepth, Size, Delta;
    CodeSizeAppend(a, [i]);
    DepthAppend(a, [i], 0);
    EndOne(i, EndDepth(a, 0));
    One(i);
  }

  /** The size and depth of a fragment after a fragment. */
  lemma {:induction false} Join(a: seq<Instr>, b: seq<Instr>)
    ensures CodeSize(a + b) == CodeSize(a) + CodeSize(b) && EndDepth(a + b, 0) == EndDepth(a, 0) + EndDepth(b, 0)
  {
    hide CodeSize, EndDepth;
    CodeSizeAppend(a, b);
    DepthAppend(a, b, 0);
    DepthShift(b, EndDepth(a, 0));
  }

  lemma {:induction false} One(i: Instr)
    ensures CodeSize([i]) == Size(i) && EndDepth([i], 0) == Delta(i) && CodeSize([]) == 0 && EndDepth([], 0) == 0
  {
    assert [i][1..] == [];
  }

  lemma {:induction false} ShapedAlt(a: seq<Instr>, b: seq<Instr>, nc: nat)
    requires Shaped(a, nc) && Shaped(b, nc) && EndDepth(a, 0) == 0 && EndDepth(b, 0) == 0
    ensures Shaped([SplitNextFirst(CodeSize(a) + 5)] + a + [Goto(CodeSize(b))] + b, nc)
  {
    hide CodeSize, EndDepth, Pos, Dep, Shaped;
    var s, g := SplitNextFirst(CodeSize(a) + 5), Goto(CodeSize(b));
    var w := [s] + a + [g] + b;
    One(s);
    Join([s], a);
    Snoc([s] + a, g);
    Join([s] + a + [g], b);
    Embed([s], a, [g] + b, nc);
    Embed([s] + a + [g], b, [], nc);
    assert [s] + a + ([g] + b) == w && [s] + a + [g] + b + [] == w;
    Ends(w, 0, [], 0, 0);
    Ends(w, 1, [s], 5, 0);
    Ends(w, |a| + 1, [s] + a, 5 + CodeSize(a), 0);
    Ends(w, |a| + 2, [s] + a + [g], 10 + CodeSize(a), 0);
    Ends(w, |w|, w, 10 + CodeSize(a) + CodeSize(b), 0);
    assert Lands(w, 0, CodeSize(a) + 5, |a| + 2);
    assert Lands(w, |a| + 1, CodeSize(b), |w|);
    assert InstrOk(w, 0, nc, |w|) && InstrOk(w, |a| + 1, nc, |w|);
    Cover([s], a, [g], b, nc);
  }

  /** A program is well-formed if its parts are, in place. */
  lemma {:induction false} Cover(p: seq<Instr>, a: seq<Instr>, q: seq<Instr>, b: seq<Instr>, nc: nat)
    requires var w := p + a + q + b;
             ShapedWithin(p, a, q + b, nc) && ShapedWithin(p + a + q, b, [], nc) &&
             (forall i | 0 <= i < |p| :: InstrOk(w, i, nc, |w|)) &&
             (forall i | |p| + |a| <= i < |p| + |a| + |q| :: InstrOk(w, i, nc, |w|))
    ensures Shaped(p + a + q + b, nc)
  {
    hide InstrOk;
    var w := p + a + q + b;
    assert p + a + (q + b) == w && p + a + q + b + [] == w;
    forall i | 0 <= i < |w|
      ensures InstrOk(w, i, nc, |w|)
    {
    }
  }

  /** A well-formed fragment between well-formed instructions. */
  lemma {:induction false} Wrap(p: seq<Instr>, a: seq<Instr>, q: seq<Instr>, nc: nat)
    requires Shaped(a, nc) && EndDepth(p, 0) >= 0
    requires var w := p + a + q;
             (forall i | 0 <= i < |p| :: InstrOk(w, i, nc, |w|)) && (forall i | |p| + |a| <= i < |w| :: InstrOk(w, i, nc, |w|))
    ensures Shaped(p + a + q, nc)
  {
    hide InstrOk, EndDepth;
    Embed(p, a, q, nc);
  }

  lemma {:induction false} ShapedGroup(i: Instr, a: seq<Instr>, j: Instr, nc: nat)
    requires Shaped(a, nc) && EndDepth(a, 0) == 0 && (i.SaveStart? || i.SaveEnd?) && (j.SaveStart? || j.SaveEnd?)
    requires i.idx < nc && j.idx < nc
    ensures Shaped([i] + a + [j], nc)
  {
    hide CodeSize, EndDepth, Pos, Dep, Shaped;
    var w := [i] + a + [j];
    One(i);
    Join([i], a);
    Ends(w, 0, [], 0, 0);
    Ends(w, |a| + 1, [i] + a, CodeSize([i] + a), 0);
    Wrap([i], a, [j], nc);
  }

  lemma {:induction false} ShapedLook(i: Instr, a: seq<Instr>, nc: nat)
    requires Shaped(a, nc) && EndDepth(a, 0) == 0 && (i == Lookahead(CodeSize(a) + 1) || i == NegLookahead(CodeSize(a) + 1))
    ensures Shaped([i] + a + [Match], nc)
  {
    hide CodeSize, EndDepth, Pos, Dep, Shaped;
    var w := [i] + a + [Match];
    One(i);
    Join([i], a);
    Snoc([i] + a, Match);
    Ends(w, 0, [], 0, 0);
    Ends(w, 1, [i], 5, 0);
    Ends(w, |a| + 1, [i] + a, 5 + CodeSize(a), 0);
    Ends(w, |w|, w, 6 + CodeSize(a), 0);
    assert Lands(w, 0, CodeSize(a) + 1, |w|);
    Wrap([i], a, [Match], nc);
  }

  lemma {:induction false} ShapedGreedy(a: seq<Instr>, min: nat, max: nat, count: nat, nc: nat)
    requires Shaped(a, nc) && EndDepth(a, 0) == 0 && SimpleCount(a) == Some(count) && count > 0
    ensures Shaped([SimpleGreedy(CodeSize(a) + 1, min, max, count)] + a + [Match], nc)
  {
    hide CodeSize, EndDepth, Pos, Dep, Shaped, SimpleCount, Target;
    var i := SimpleGreedy(CodeSize(a) + 1, min, max, count);
    var w := [i] + a + [Match];
    One(i);
    Join([i], a);
    Snoc([i] + a, Match);
    Ends(w, 0, [], 0, 0);
    Ends(w, 1, [i], 17, 0);
    Ends(w, |a| + 1, [i] + a, 17 + CodeSize(a), 0);
    Ends(w, |w|, w, 18 + CodeSize(a), 0);
    assert w[1..|w| - 1] == a;
    assert Lands(w, 0, CodeSize(a) + 1, |w|) && Body(w, 0, count, |w|);
    Wrap([i], a, [Match], nc);
  }

  lemma {:induction false} ShapedChecked(a: seq<Instr>, greedy: bool, nc: nat)
    requires Shaped(a, nc) && EndDepth(a, 0) == 0
    ensures var len: int := CodeSize(a);
            Shaped([Split(greedy, len + 6), PushCharPos] + a + [BneCharPos(-(len + 11))], nc)
  {
    hide CodeSize, EndDepth, Pos, Dep, Shaped;
    var len: int := CodeSize(a);
    var i, j := Split(greedy, len + 6), BneCharPos(-(len + 11));
    var p := [i, PushCharPos];
    var w := p + a + [j];
    One(i);
    Snoc([i], PushCharPos);
    assert [i] + [PushCharPos] == p;
    Join(p, a);
    Snoc(p + a, j);
    Ends(w, 0, [], 0, 0);
    Ends(w, 1, [i], 5, 0);
    Ends(w, |a| + 2, p + a, 6 + len, 1);
    Ends(w, |w|, w, 11 + len, 0);
    assert Lands(w, 0, len + 6, |w|) && Lands(w, |a| + 2, -(len + 11), 0);
    Wrap(p, a, [j], nc);
  }

  lemma {:induction false} ShapedStar(a: seq<Instr>, greedy: bool, nc: nat)
    requires Shaped(a, nc) && EndDepth(a, 0) == 0
    ensures Shaped(StarCode(a, greedy), nc)
  {
    hide CodeSize, EndDepth, Pos, Dep, Shaped, NeedsCheck;
    var len: int := CodeSize(a);
    ShapedChecked(a, greedy, nc);
    var i, j := Split(greedy, len + 5), Goto(-(len + 10));
    var w := [i] + a + [j];
    One(i);
    Join([i], a);
    Snoc([i] + a, j);
    Ends(w, 0, [], 0, 0);
    Ends(w, 1, [i], 5, 0);
    Ends(w, |a| + 1, [i] + a, 5 + len, 0);
    Ends(w, |w|, w, 10 + len, 0);
    assert Lands(w, 0, len + 5, |w|) && Lands(w, |a| + 1, -(len + 10), 0);
    Wrap([i], a, [j], nc);
  }

  lemma {:induction false} ShapedUpTo(a: seq<Instr>, k: nat, greedy: bool, nc: nat)
    requires Shaped(a, nc) && EndDepth(a, 0) == 0
    ensures Shaped(UpToCode(a, k, greedy), nc)
  {
    hide CodeSize, EndDepth, Pos, Dep, Shaped;
    var len: int := CodeSize(a);
    var i, j := Split(greedy, len + 5), Loop(-(len + 10));
    var p, q := [PushI32(k), i], [j, Drop];
    var w := p + a + q;
    One(PushI32(k));
    Snoc([PushI32(k)], i);
    assert [PushI32(k)] + [i] == p;
    Join(p, a);
    Snoc(p + a, j);
    Snoc(p + a + [j], Drop);
    assert p + a + [j] + [Drop] == w;
    Ends(w, 0, [], 0, 0);
    Ends(w, 1, [PushI32(k)], 5, 1);
    Ends(w, 2, p, 10, 1);
    Ends(w, |a| + 2, p + a, 10 + len, 1);
    Ends(w, |a| + 3, p + a + [j], 15 + len, 1);
    assert Lands(w, 1, len + 5, |a| + 3) && Lands(w, |a| + 2, -(len + 10), 1);
    Wrap(p, a, q, nc);
  }

  lemma {:induction false} ShapedTimes(a: seq<Instr>, k: nat, nc: nat)
    requires Shaped(a, nc) && EndDepth(a, 0) == 0
    ensures Shaped(TimesCode(a, k), nc)
  {
    hide CodeSize, EndDepth, Pos, Dep, Shaped;
    if k != 1 {
      var len: int := CodeSize(a);
      var j := Loop(-(len + 5));
      var p, q := [PushI32(k)], [j, Drop];
      var w := p + a + q;
      One(PushI32(k));
      Join(p, a);
      Snoc(p + a, j);
      Snoc(p + a + [j], Drop);
      assert p + a + [j] + [Drop] == w;
      Ends(w, 0, [], 0, 0);
      Ends(w, 1, p, 5, 1);
      Ends(w, |a| + 1, p + a, 5 + len, 1);
      Ends(w, |a| + 2, p + a + [j], 10 + len, 1);
      assert Lands(w, |a| + 1, -(len + 5), 1);
      Wrap(p, a, q, nc);
    }
  }

  lemma {:induction false} ShapedPlus(a: seq<Instr>, greedy: bool, nc: nat)
    requires Shaped(a, nc) && EndDepth(a, 0) == 0
    ensures Shaped(a + [Split(greedy, -(CodeSize(a) + 5))], nc)
  {
    hide CodeSize, EndDepth, Pos, Dep, Shaped;
    var len: int := CodeSize(a);
    var j := Split(greedy, -(len + 5));
    var w := a + [j];
    One(j);
    Snoc(a, j);
    assert [] + a + [j] == w;
    Ends(w, 0, [], 0, 0);
    Ends(w, |a|, a, len, 0);
    Ends(w, |w|, w, len + 5, 0);
    assert Lands(w, |a|, -(len + 5), 0);
    Wrap([], a, [j], nc);
  }

  lemma {:induction false} ShapedOnce(a: seq<Instr>, greedy: bool, nc: nat)
    requires Shaped(a, nc) && EndDepth(a, 0) == 0
    ensures Shaped([Split(greedy, CodeSize(a))] + a, nc)
  {
    hide CodeSize, EndDepth, Pos, Dep, Shaped;
    var i := Split(greedy, CodeSize(a));
    var w := [i] + a;
    One(i);
    Join([i], a);
    assert [i] + a + [] == w;
    Ends(w, 0, [], 0, 0);
    Ends(w, 1, [i], 5, 0);
    Ends(w, |w|, w, 5 + CodeSize(a), 0);
    assert Lands(w, 0, CodeSize(a), |w|);
    Wrap([i], a, [], nc);
  }
}
