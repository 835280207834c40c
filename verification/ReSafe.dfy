/**
Safety of whole runs, for every pattern the compiler accepts and every subject: the program
counter is on an instruction boundary, the counter stack is as deep as the linear scan says,
and the machine never gets stuck, whether or not it halts.
*/
module ReSafe {
  import opened ReCode
  import opened ReSyntax
  import opened ReMatch
  import opened ReUnfold
  import opened ReVm
  import opened ReLaws
  import opened ReRun
  import opened ReCorrect
  import opened ReGreedy
  import opened ReMain
  import opened ReQuant
  import opened ReProgram
  import opened ReShape

  lemma {:induction false} ShapedNode(n: Node, back: bool, cc: nat, nc: nat)
    requires cc + NumCaps(n) <= nc
    ensures Shaped(Compile(n, back, cc), nc)
    decreases n
  {
    hide Shaped, Compile, EndDepth, CodeSize, Results, NodeOk, ResultsAll, SetAll, QuantCode;
    var s, x := Subject([], false, false), State(0, []);
    match n
    case Cat(l, r) =>
      CatUnfold(s, l, r, back, cc, x);
      ShapedNode(l, back, cc, nc);
      ShapedNode(r, back, cc + NumCaps(l), nc);
      Balanced(l, back, cc, 0);
      Balanced(r, back, cc + NumCaps(l), 0);
      var a, b := Compile(l, back, cc), Compile(r, back, cc + NumCaps(l));
      ShapedAppend(a, b, nc);
      ShapedAppend(b, a, nc);
    case Alt(l, r) =>
      AltUnfold(s, l, r, back, cc, x);
      ShapedNode(l, back, cc, nc);
      ShapedNode(r, back, cc + NumCaps(l), nc);
      Balanced(l, back, cc, 0);
      Balanced(r, back, cc + NumCaps(l), 0);
      ShapedAlt(Compile(l, back, cc), Compile(r, back, cc + NumCaps(l)), nc);
    case Group(m) =>
      GroupUnfold(s, m, back, cc, x);
      ShapedNode(m, back, cc + 1, nc);
      Balanced(m, back, cc + 1, 0);
      if back {
        ShapedGroup(SaveEnd(cc), Compile(m, back, cc + 1), SaveStart(cc), nc);
      } else {
        ShapedGroup(SaveStart(cc), Compile(m, back, cc + 1), SaveEnd(cc), nc);
      }
    case Look(neg, b, m) =>
      LookUnfold(s, neg, b, m, back, cc, x);
      ShapedNode(m, b, cc, nc);
      Balanced(m, b, cc, 0);
      var a := Compile(m, b, cc);
      ShapedLook(if neg then NegLookahead(CodeSize(a) + 1) else Lookahead(CodeSize(a) + 1), a, nc);
    case Quant(m, min, max, greedy) =>
      QuantUnfold(s, n, back, cc, x);
      ShapedNode(m, back, cc, nc);
      Balanced(m, back, cc, 0);
      ResetShaped(m, min, cc, nc);
      ShapedQuant(Compile(m, back, cc), min, max, greedy, ResetCode(m, min, cc), nc);
    case _ => ShapedLeaf(n, back, cc, nc);
  }

  lemma {:induction false} ResetShaped(m: Node, min: nat, cc: nat, nc: nat)
    requires cc + NumCaps(m) <= nc
    ensures Shaped(ResetCode(m, min, cc), nc) && EndDepth(ResetCode(m, min, cc), 0) == 0
  {
    hide Shaped, EndDepth, NumCaps;
    ShapedFlat(ResetCode(m, min, cc), nc);
  }

  lemma {:induction false} ShapedLeaf(n: Node, back: bool, cc: nat, nc: nat)
    requires n.Empty? || n.Atom? || IsAssertion(n) || n.BackReference?
    ensures Shaped(Compile(n, back, cc), nc)
  {
    hide Shaped, EndDepth;
    ShapedFlat(Compile(n, back, cc), nc);
  }

  lemma {:induction false} ShapedQuant(a: seq<Instr>, min: nat, max: Option<nat>, greedy: bool, reset: seq<Instr>, nc: nat)
    requires Shaped(a, nc) && EndDepth(a, 0) == 0 && Shaped(reset, nc) && EndDepth(reset, 0) == 0 && (min > 0 ==> reset == [])
    ensures Shaped(QuantCode(a, min, max, greedy, reset), nc)
  {
    hide Shaped, EndDepth, CodeSize, SimpleCount, QuantCode, StarCode, UpToCode, TimesCode, NeedsCheck;
    QuantShape(a, min, max, greedy, reset);
    var c := SimpleCount(a);
    ShapedNone(nc);
    DeeperBalance(a);
    if greedy && max != Some(0) && c.Some? && c.value > 0 {
      ShapedGreedy(a, min, Limit(max), c.value, nc);
    } else if min == 0 {
      if max == Some(1) {
        ShapedOnce(a, greedy, nc);
      } else if max == None {
        ShapedStar(a, greedy, nc);
      } else if max != Some(0) {
        ShapedUpTo(a, max.value, greedy, nc);
      }
      ShapedAppend(reset, OptionalCode(a, max, greedy), nc);
    } else if min == 1 && max == None && !NeedsCheck(a, greedy) {
      ShapedPlus(a, !greedy, nc);
    } else {
      TimesBalanced(a, min, 0);
      ShapedTimes(a, min, nc);
      if max == None {
        ShapedStar(a, greedy, nc);
      } else if max.value > min {
        ShapedUpTo(a, max.value - min, greedy, nc);
      }
      ShapedAppend(TimesCode(a, min), MoreCode(a, min, max, greedy), nc);
    }
  }

  lemma {:induction false} DeeperBalance(a: seq<Instr>)
    requires EndDepth(a, 0) == 0
    ensures EndDepth(a, 1) == 1
  {
    hide EndDepth;
    DepthShift(a, 1);
  }

  lemma {:induction false} ShapedNone(nc: nat)
    ensures Shaped([], nc)
  {
  }

  /** A whole program: nothing runs or jumps past its final `match`. */
  ghost predicate ProgramOk(p: seq<Instr>, nc: nat) {
    p != [] &&
    var last := |p| - 1;
    p[last] == Match && Dep(p, last) == 0 && forall i | 0 <= i < last :: InstrOk(p, i, nc, last)
  }

  lemma {:induction false} ProgramShaped(n: Node, sticky: bool)
    ensures ProgramOk(Program(n, sticky), 1 + NumCaps(n))
  {
    hide Shaped, EndDepth, CodeSize, InstrOk, Compile;
    var a, nc := Compile(Whole(n, sticky), false, 0), 1 + NumCaps(n);
    var p := a + [Match];
    assert NumCaps(Whole(n, sticky)) == nc by {
      WholeCaps(n, sticky);
    }
    ShapedNode(Whole(n, sticky), false, 0, nc);
    Balanced(Whole(n, sticky), false, 0, 0);
    assert p[..|a|] == a;
    ShapedBefore(a, [Match], nc);
  }

  lemma {:induction false} ShapedBefore(a: seq<Instr>, q: seq<Instr>, nc: nat)
    requires Shaped(a, nc)
    ensures forall i | 0 <= i < |a| :: InstrOk(a + q, i, nc, |a|)
  {
    hide InstrOk;
    assert EndDepth([], 0) == 0;
    forall i | 0 <= i < |a|
      ensures InstrOk(a + q, i, nc, |a|)
    {
      InstrWithin([], a, q, i, nc, |a|);
      assert [] + a + q == a + q;
    }
  }

  lemma {:induction false} WholeCaps(n: Node, sticky: bool)
    ensures NumCaps(Whole(n, sticky)) == 1 + NumCaps(n)
  {
    assert NumCaps(Quant(Atom(Anything), 0, None, false)) == 0;
  }

  /** Instruction i is at byte pc, where the linear scan is at depth d. */
  ghost predicate SpotAt(p: seq<Instr>, pc: nat, d: nat, i: nat) {
    i < |p| && Pos(p, i) == pc && Dep(p, i) == d
  }

  ghost predicate Spot(p: seq<Instr>, pc: nat, d: nat) {
    exists i: nat :: SpotAt(p, pc, d, i)
  }

  ghost predicate Holds(s: Subject, nc: nat, pos: nat, caps: seq<Option<nat>>) {
    Boundary(s, pos) && |caps| == 2 * nc && CapsOk(s, caps)
  }

  /** A saved greedy loop has as many iterations to give up as it counts. */
  ghost predicate GreedyOk(p: seq<Instr>, s: Subject, f: Frame)
    requires f.kind.GreedyFrame?
  {
    f.pos <= |s.input| && f.kind.count > 0 &&
    exists i: nat :: SpotAt(p, f.pc, |f.stack|, i) && p[i].SimpleGreedy? && CanBackN(s, p[i].count, f.pos, f.kind.count)
  }

  ghost predicate FrameOk(p: seq<Instr>, s: Subject, nc: nat, f: Frame) {
    Spot(p, f.pc, |f.stack|) && Holds(s, nc, f.pos, f.caps) && (f.kind.GreedyFrame? ==> GreedyOk(p, s, f))
  }

  ghost predicate FramesOk(p: seq<Instr>, s: Subject, nc: nat, bt: seq<Frame>) {
    forall f | f in bt :: FrameOk(p, s, nc, f)
  }

  /** What holds of the machine in every reachable state. */
  ghost predicate VmOk(p: seq<Instr>, s: Subject, nc: nat, vm: Vm) {
    match vm
    case Run(pc, pos, caps, stack, bt) => Spot(p, pc, |stack|) && Holds(s, nc, pos, caps) && FramesOk(p, s, nc, bt)
    case Fail(bt) => FramesOk(p, s, nc, bt)
    case Won(caps, bt) => |caps| == 2 * nc && CapsOk(s, caps) && FramesOk(p, s, nc, bt)
    case Halt(_, _) => true
    case Stuck => false
  }

  /** The machine runs program p. */
  ghost predicate Runs(e: Env, p: seq<Instr>, nc: nat) {
    AllEncodable(p) && e.code == EncodeAll(p) && e.maxStack == MaxDepth(p, 0) && ProgramOk(p, nc)
  }

  lemma {:induction false} FetchAt(e: Env, p: seq<Instr>, i: nat)
    requires AllEncodable(p) && e.code == EncodeAll(p) && e.maxStack == MaxDepth(p, 0) && i < |p|
    ensures Fetch(e.code, Pos(p, i)) == Some(p[i]) && Pos(p, i) < |e.code|
    ensures Pos(p, i + 1) == Pos(p, i) + Size(p[i]) && Dep(p, i + 1) == Dep(p, i) + Delta(p[i])
    ensures Dep(p, i) + Delta(p[i]) <= e.maxStack && Dep(p, i) <= e.maxStack
  {
    hide EncodeAll, MaxDepth, CodeSize, EndDepth, Size, Fetch, Delta, Encodable;
    var a, b := p[..i], p[i..];
    assert p == a + b && b[0] == p[i];
    assert e.code[0..0 + CodeSize(p)] == e.code;
    PlacedAppend(e, 0, a, b, 0);
    PlacedHead(e, CodeSize(a), b, EndDepth(a, 0));
    assert p[..i + 1] == a + [p[i]];
    Snoc(a, p[i]);
    BeforeEnd(e, CodeSize(a), b, EndDepth(a, 0));
  }

  lemma {:induction false} BeforeEnd(e: Env, pc: nat, b: seq<Instr>, d: int)
    requires Placed(e, pc, b, d) && b != []
    ensures pc < |e.code|
  {
    hide Size;
  }

  lemma {:induction false} NextSpot(e: Env, p: seq<Instr>, nc: nat, i: nat, d: nat)
    requires Runs(e, p, nc) && i < |p| && p[i] != Match && Dep(p, i) + Delta(p[i]) == d
    ensures Spot(p, Pos(p, i) + Size(p[i]), d)
  {
    hide AllEncodable, InstrOk, Pos, Dep, MaxDepth, Size, Delta, Fetch;
    FetchAt(e, p, i);
    assert SpotAt(p, Pos(p, i) + Size(p[i]), d, i + 1);
  }

  lemma {:induction false} JumpSpot(e: Env, p: seq<Instr>, nc: nat, i: nat, off: int, d: nat, pc: int)
    requires Runs(e, p, nc) && i < |p| - 1 && Target(p, i, off, |p| - 1) && Dep(p, i) + Delta(p[i]) == d
    requires pc == Pos(p, i) + Size(p[i]) + off
    ensures pc >= 0 && Spot(p, pc, d)
  {
    hide AllEncodable, InstrOk, Pos, Dep, MaxDepth, Size, Delta, Fetch;
    FetchAt(e, p, i);
    var k: nat :| k <= |p| - 1 && Lands(p, i, off, k);
    assert SpotAt(p, pc, d, k);
  }

  /** Going back from a boundary ends at one. */
  lemma {:induction false} GoBackBoundary(s: Subject, pos: nat, count: nat)
    requires Boundary(s, pos)
    ensures Boundary(s, GoBack(s, pos, count))
    decreases count
  {
    hide Boundary, PrevPos;
    BoundaryInside(s, pos);
    if count > 0 && pos > 0 {
      PrevIsBoundary(s, pos);
      GoBackBoundary(s, PrevPos(s, pos), count - 1);
    }
  }

  lemma {:induction false} FetchOf(e: Env, p: seq<Instr>, nc: nat, i: nat)
    requires Runs(e, p, nc) && i < |p|
    ensures Fetch(e.code, Pos(p, i)) == Some(p[i]) && Dep(p, i) <= e.maxStack && Dep(p, i) + Delta(p[i]) <= e.maxStack
    ensures Pos(p, i) < |e.code| && Pos(p, i + 1) == Pos(p, i) + Size(p[i])
    ensures p[i] != Match ==> i < |p| - 1 && InstrOk(p, i, nc, |p| - 1)
  {
    hide AllEncodable, InstrOk, Pos, Dep, MaxDepth, Size, Delta, Fetch;
    FetchAt(e, p, i);
  }

  /** What one run of the body of a greedy loop gives: `count` steps back undo it. */
  ghost predicate Undone(s: Subject, pos: nat, count: nat, r: nat) {
    Boundary(s, r) && pos <= r && (count > 0 ==> pos < r) && GoesBack(s, r, count, pos)
  }

  lemma {:induction false} BodyRun(e: Env, p: seq<Instr>, nc: nat, i: nat, k: nat, count: nat, pos: nat)
    requires Runs(e, p, nc) && i < k <= |p| && p[k - 1] == Match && SimpleCount(p[i..k - 1]) == Some(count)
    requires Boundary(e.s, pos)
    ensures pos <= |e.s.input|
    ensures var r := RunSimple(e, Pos(p, i), pos); r.Some? ==> Undone(e.s, pos, count, r.value)
    decreases k - i, 1
  {
    hide Runs, InstrOk, Pos, Dep, Size, Delta, Fetch, RunSimple, SimpleCount, Undone, CharTest, AssertTest, Boundary;
    BoundaryInside(e.s, pos);
    FetchOf(e, p, nc, i);
    if i == k - 1 {
      RunMatch(e, Pos(p, i), pos);
      assert p[i..k - 1] == [];
      NothingUndone(e.s, pos);
    } else {
      var op, rest := p[i], p[i + 1..k - 1];
      assert p[i..k - 1] == [op] + rest;
      SimpleOne(op);
      SimpleAppend([op], rest);
      RunOne(e, Pos(p, i), op, pos);
      if !IsCharOp(op) {
        BodyRun(e, p, nc, i + 1, k, SimpleCount(rest).value, pos);
      } else if pos < |e.s.input| && CharTest(op, GetChar(e.s, pos)) {
        BodyChar(e, p, nc, i, k, SimpleCount(rest).value, pos);
      }
    }
  }

  lemma {:induction false} BodyChar(e: Env, p: seq<Instr>, nc: nat, i: nat, k: nat, c: nat, pos: nat)
    requires Runs(e, p, nc) && i + 1 < k <= |p| && p[k - 1] == Match && SimpleCount(p[i + 1..k - 1]) == Some(c)
    requires Boundary(e.s, pos) && pos < |e.s.input|
    ensures var r := RunSimple(e, Pos(p, i + 1), NextPos(e.s, pos)); r.Some? ==> Undone(e.s, pos, c + 1, r.value)
    decreases k - i, 0
  {
    hide Runs, Pos, RunSimple, SimpleCount, Undone, Boundary, NextPos, GoesBack;
    GoBackOne(e.s, pos);
    BodyRun(e, p, nc, i + 1, k, c, NextPos(e.s, pos));
    var r := RunSimple(e, Pos(p, i + 1), NextPos(e.s, pos));
    if r.Some? {
      UndoneThen(e.s, pos, NextPos(e.s, pos), c, r.value);
    }
  }

  lemma {:induction false} NothingUndone(s: Subject, pos: nat)
    requires Boundary(s, pos)
    ensures SimpleCount([]) == Some(0) && Undone(s, pos, 0, pos)
  {
  }

  lemma {:induction false} UndoneThen(s: Subject, pos: nat, q: nat, c: nat, r: nat)
    requires pos < q <= |s.input| && GoesBack(s, q, 1, pos) && Undone(s, q, c, r)
    ensures Undone(s, pos, c + 1, r)
  {
    hide Boundary, CanGoBack, GoBack;
    GoBackAdd(s, r, c, 1);
  }

  lemma {:induction false} GreedyRun(e: Env, p: seq<Instr>, nc: nat, i: nat, k: nat, count: nat, pos: nat, q: nat, max: nat)
    requires Runs(e, p, nc) && i < k <= |p| && p[k - 1] == Match && SimpleCount(p[i..k - 1]) == Some(count) && count > 0
    requires Boundary(e.s, pos)
    ensures pos <= |e.s.input|
    ensures var r := RunGreedy(e, Pos(p, i), pos, q, max);
            Boundary(e.s, r.0) && CanBackN(e.s, count, r.0, r.1 - q) && BackN(e.s, count, r.0, r.1 - q) == pos
    decreases |e.s.input| - pos
  {
    hide Runs, Pos, RunSimple, SimpleCount, Boundary, CanGoBack, GoBack, CanBackN, BackN;
    BoundaryInside(e.s, pos);
    BodyRun(e, p, nc, i, k, count, pos);
    BackZero(e.s, count, pos);
    var b := RunSimple(e, Pos(p, i), pos);
    if b.Some? {
      BoundaryInside(e.s, b.value);
      BackZero(e.s, count, b.value);
      if !(q + 1 >= max && max != INFINITE) {
        GreedyRun(e, p, nc, i, k, count, b.value, q + 1, max);
      }
      var r := RunGreedy(e, Pos(p, i), pos, q, max);
      CanBackSnoc(e.s, count, r.0, r.1 - (q + 1));
      DownSnoc(e.s, State(0, []), count, r.0, r.1 - (q + 1));
    }
  }

  lemma {:induction false} BackZero(s: Subject, count: nat, pos: nat)
    requires pos <= |s.input|
    ensures CanBackN(s, count, pos, 0) && BackN(s, count, pos, 0) == pos
  {
  }

  lemma {:induction false} PushFrame(p: seq<Instr>, s: Subject, nc: nat, f: Frame, bt: seq<Frame>)
    requires FrameOk(p, s, nc, f) && FramesOk(p, s, nc, bt)
    ensures FramesOk(p, s, nc, [f] + bt)
  {
    hide FrameOk;
  }

  lemma {:induction false} PopFrame(p: seq<Instr>, s: Subject, nc: nat, bt: seq<Frame>)
    requires FramesOk(p, s, nc, bt) && bt != []
    ensures FrameOk(p, s, nc, bt[0]) && FramesOk(p, s, nc, bt[1..])
  {
    hide FrameOk;
    assert bt[0] in bt;
    assert forall f | f in bt[1..] :: f in bt;
  }

  /** Characters and assertions. */
  lemma {:induction false} SimpleStepOk(e: Env, p: seq<Instr>, nc: nat, vm: Vm, i: nat)
    requires Runs(e, p, nc) && vm.Run? && VmOk(p, e.s, nc, vm) && SpotAt(p, vm.pc, |vm.stack|, i) && SimpleOp(p[i])
    ensures VmOk(p, e.s, nc, Step(e, vm))
  {
    hide Runs, FramesOk, Pos, Dep, Size, Fetch, Step, CharTest, AssertTest, Boundary, Spot;
    FetchOf(e, p, nc, i);
    BoundaryInside(e.s, vm.pos);
    FetchedStep(e, vm, p[i]);
    NextSpot(e, p, nc, i, |vm.stack|);
    if vm.pos < |e.s.input| {
      NextIsBoundary(e.s, vm.pos);
    }
  }

  /** Instructions that go on to the next one: captures, counters and stepping back. */
  predicate GoesOn(i: Instr) {
    i.SaveStart? || i.SaveEnd? || i.SaveReset? || i.PushI32? || i.PushCharPos? || i.Drop? || i.Prev?
  }

  lemma {:induction false} NextStepOk(e: Env, p: seq<Instr>, nc: nat, vm: Vm, i: nat)
    requires Runs(e, p, nc) && vm.Run? && VmOk(p, e.s, nc, vm) && SpotAt(p, vm.pc, |vm.stack|, i) && GoesOn(p[i])
    ensures VmOk(p, e.s, nc, Step(e, vm))
  {
    hide Runs, FramesOk, Pos, Dep, Size, Fetch, Step, Boundary, Spot, RunGreedy;
    FetchOf(e, p, nc, i);
    BoundaryInside(e.s, vm.pos);
    FetchedStep(e, vm, p[i]);
    NextSpot(e, p, nc, i, |vm.stack| + Delta(p[i]));
    if vm.pos > 0 {
      PrevIsBoundary(e.s, vm.pos);
    }
  }

  /** Back references compare two texts inside the subject, and stop between characters. */
  lemma {:induction false} RefStepOk(e: Env, p: seq<Instr>, nc: nat, vm: Vm, i: nat)
    requires Runs(e, p, nc) && vm.Run? && VmOk(p, e.s, nc, vm) && SpotAt(p, vm.pc, |vm.stack|, i) && IsBackRef(p[i])
    ensures VmOk(p, e.s, nc, Step(e, vm))
  {
    hide Runs, FramesOk, Pos, Dep, Size, Fetch, Step, Boundary, Spot, CapsOk, RefersTo;
    FetchOf(e, p, nc, i);
    var x, g, back := State(vm.pos, vm.caps), p[i].group, p[i].BackwardBackRef?;
    RefersOk(e.s, g, back, x);
    BackRefStep(e, vm.pc, g, back, x, vm.stack, vm.bt, nc);
    BackSize(g, back);
    NextSpot(e, p, nc, i, |vm.stack|);
  }

  /** Jumps, splits and lookaheads. */
  lemma {:induction false} JumpStepOk(e: Env, p: seq<Instr>, nc: nat, vm: Vm, i: nat)
    requires Runs(e, p, nc) && vm.Run? && VmOk(p, e.s, nc, vm) && SpotAt(p, vm.pc, |vm.stack|, i) && HasOffset(p[i])
    ensures VmOk(p, e.s, nc, Step(e, vm))
  {
    hide Runs, FrameOk, Pos, Dep, Size, Fetch, Step, Boundary, Spot, RunGreedy, Target, FramesOk;
    FetchOf(e, p, nc, i);
    BoundaryInside(e.s, vm.pos);
    FetchedStep(e, vm, p[i]);
    var d := |vm.stack| + Delta(p[i]);
    NextSpot(e, p, nc, i, d);
    var pc' := vm.pc + Size(p[i]) + p[i].off;
    JumpSpot(e, p, nc, i, p[i].off, d, pc');
    if Delta(p[i]) == 0 {
      forall pc: nat, kind: FrameKind | Spot(p, pc, d) && !kind.GreedyFrame?
        ensures FramesOk(p, e.s, nc, [Frame(kind, pc, vm.pos, vm.caps, vm.stack)] + vm.bt)
      {
        PlainFrame(p, e.s, nc, kind, pc, vm.pos, vm.caps, vm.stack);
        PushFrame(p, e.s, nc, Frame(kind, pc, vm.pos, vm.caps, vm.stack), vm.bt);
      }
    }
  }

  lemma {:induction false} PlainFrame(p: seq<Instr>, s: Subject, nc: nat, kind: FrameKind, pc: nat, pos: nat,
                                      caps: seq<Option<nat>>, stack: seq<nat>)
    requires Spot(p, pc, |stack|) && Holds(s, nc, pos, caps) && !kind.GreedyFrame?
    ensures FrameOk(p, s, nc, Frame(kind, pc, pos, caps, stack))
  {
    hide Spot, Holds;
  }

  lemma {:induction false} GreedyStepOk(e: Env, p: seq<Instr>, nc: nat, vm: Vm, i: nat)
    requires Runs(e, p, nc) && vm.Run? && VmOk(p, e.s, nc, vm) && SpotAt(p, vm.pc, |vm.stack|, i) && p[i].SimpleGreedy?
    ensures VmOk(p, e.s, nc, Step(e, vm))
  {
    hide Runs, FramesOk, Pos, Dep, Fetch, Step, Boundary, RunGreedy, Lands, Spot, CanBackN, SimpleCount;
    FetchOf(e, p, nc, i);
    BoundaryInside(e.s, vm.pos);
    var op := p[i];
    var k: nat :| k <= |p| - 1 && Lands(p, i, op.next, k) && Body(p, i, op.count, k);
    var pc' := vm.pc + 17 + op.next;
    assert Target(p, i, op.next, |p| - 1);
    JumpSpot(e, p, nc, i, op.next, |vm.stack|, pc');
    GreedyRun(e, p, nc, i + 1, k, op.count, vm.pos, 0, op.max);
    var r := RunGreedy(e, vm.pc + 17, vm.pos, 0, op.max);
    BoundaryInside(e.s, r.0);
    var x := State(vm.pos, vm.caps);
    GreedyStep(e, vm.pc, op, x, vm.stack, vm.bt, pc');
    if r.1 > op.min {
      var f := GreedyTo(vm.pc, x, r.0, vm.stack, r.1 - op.min);
      CanBackLess(e.s, op.count, r.0, r.1, r.1 - op.min);
      GreedyFrameOk(p, e.s, nc, f, i);
      PushFrame(p, e.s, nc, f, vm.bt);
    } else {
      assert [] + vm.bt == vm.bt;
    }
  }

  lemma {:induction false} GreedyFrameOk(p: seq<Instr>, s: Subject, nc: nat, f: Frame, i: nat)
    requires f.kind.GreedyFrame? && f.kind.count > 0 && Holds(s, nc, f.pos, f.caps) && SpotAt(p, f.pc, |f.stack|, i)
    requires f.pos <= |s.input| && p[i].SimpleGreedy? && CanBackN(s, p[i].count, f.pos, f.kind.count)
    ensures FrameOk(p, s, nc, f)
  {
    hide SpotAt, CanBackN, Holds;
  }

  lemma {:induction false} RunStepOk(e: Env, p: seq<Instr>, nc: nat, vm: Vm)
    requires Runs(e, p, nc) && vm.Run? && VmOk(p, e.s, nc, vm)
    ensures VmOk(p, e.s, nc, Step(e, vm))
  {
    hide Runs, Step, FramesOk, Holds, SpotAt, Fetch, Pos, Dep, InstrOk, Boundary;
    var i: nat :| SpotAt(p, vm.pc, |vm.stack|, i);
    SpotIn(p, vm.pc, |vm.stack|, i);
    if SimpleOp(p[i]) {
      SimpleStepOk(e, p, nc, vm, i);
    } else if GoesOn(p[i]) {
      NextStepOk(e, p, nc, vm, i);
    } else if HasOffset(p[i]) {
      JumpStepOk(e, p, nc, vm, i);
    } else if p[i].SimpleGreedy? {
      GreedyStepOk(e, p, nc, vm, i);
    } else if IsBackRef(p[i]) {
      RefStepOk(e, p, nc, vm, i);
    } else {
      FetchOf(e, p, nc, i);
      HoldsInside(e.s, nc, vm.pos, vm.caps);
      FetchedStep(e, vm, Match);
    }
  }

  lemma {:induction false} SpotIn(p: seq<Instr>, pc: nat, d: nat, i: nat)
    requires SpotAt(p, pc, d, i)
    ensures i < |p| && Pos(p, i) == pc
  {
  }

  lemma {:induction false} HoldsInside(s: Subject, nc: nat, pos: nat, caps: seq<Option<nat>>)
    requires Holds(s, nc, pos, caps)
    ensures pos <= |s.input| && |caps| == 2 * nc && CapsOk(s, caps)
  {
  }

  /** Resuming a greedy loop. */
  lemma {:induction false} ResumeOk(e: Env, p: seq<Instr>, nc: nat, f: Frame, rest: seq<Frame>)
    requires Runs(e, p, nc) && f.kind.GreedyFrame? && FrameOk(p, e.s, nc, f) && FramesOk(p, e.s, nc, rest)
    ensures VmOk(p, e.s, nc, Step(e, Fail([f] + rest)))
  {
    hide Runs, FramesOk, Pos, Dep, Fetch, Step, Boundary, Spot, GoBack, CanGoBack, Lands, SimpleCount, BackN;
    var i: nat :| SpotAt(p, f.pc, |f.stack|, i) && p[i].SimpleGreedy? && CanBackN(e.s, p[i].count, f.pos, f.kind.count);
    var op, j := p[i], f.kind.count;
    FetchOf(e, p, nc, i);
    var k: nat :| k <= |p| - 1 && Lands(p, i, op.next, k) && Body(p, i, op.count, k);
    assert Target(p, i, op.next, |p| - 1);
    var pc' := f.pc + 17 + op.next;
    JumpSpot(e, p, nc, i, op.next, |f.stack|, pc');
    var x := State(f.pos, f.caps);
    assert f == GreedyTo(f.pc, x, f.pos, f.stack, j);
    ResumeStep(e, f.pc, op, x, f.pos, f.stack, j, rest, pc');
    var q := GoBack(e.s, f.pos, op.count);
    GoBackBoundary(e.s, f.pos, op.count);
    if j > 1 {
      var f1 := GreedyTo(f.pc, x, q, f.stack, j - 1);
      GreedyFrameOk(p, e.s, nc, f1, i);
      PushFrame(p, e.s, nc, f1, rest);
    } else {
      assert [] + rest == rest;
    }
  }

  /** Every step keeps the invariant. */
  lemma {:induction false} StepOk(e: Env, p: seq<Instr>, nc: nat, vm: Vm)
    requires Runs(e, p, nc) && VmOk(p, e.s, nc, vm)
    ensures VmOk(p, e.s, nc, Step(e, vm))
  {
    hide Runs, FramesOk, StepRun, StepGreedy, Spot, Holds, GreedyOk;
    if vm.Run? {
      RunStepOk(e, p, nc, vm);
    } else if (vm.Fail? || vm.Won?) && vm.bt != [] {
      PopFrame(p, e.s, nc, vm.bt);
      assert vm.bt == [vm.bt[0]] + vm.bt[1..];
      if vm.Fail? && vm.bt[0].kind.GreedyFrame? {
        ResumeOk(e, p, nc, vm.bt[0], vm.bt[1..]);
      }
      PopHolds(p, e.s, nc, vm.bt[0]);
      if vm.Won? {
        WonHolds(e.s, nc, vm.bt[0].pos, vm.bt[0].caps, vm.caps);
      }
    }
  }

  lemma {:induction false} PopHolds(p: seq<Instr>, s: Subject, nc: nat, f: Frame)
    requires FrameOk(p, s, nc, f)
    ensures Spot(p, f.pc, |f.stack|) && Holds(s, nc, f.pos, f.caps)
  {
  }

  lemma {:induction false} WonHolds(s: Subject, nc: nat, pos: nat, caps: seq<Option<nat>>, caps': seq<Option<nat>>)
    requires Holds(s, nc, pos, caps) && |caps'| == 2 * nc && CapsOk(s, caps')
    ensures Holds(s, nc, pos, caps')
  {
  }

  lemma {:induction false} RunKeeps(e: Env, p: seq<Instr>, nc: nat, vm: Vm, k: nat)
    requires Runs(e, p, nc) && VmOk(p, e.s, nc, vm)
    ensures VmOk(p, e.s, nc, StepN(e, vm, k))
    decreases k
  {
    hide Runs, VmOk, Step;
    if k > 0 {
      StepOk(e, p, nc, vm);
      RunKeeps(e, p, nc, Step(e, vm), k - 1);
    }
  }

  /**
  After any number of steps from a character boundary, for any pattern whose operands fit the
  encoding, the machine is well-formed and not stuck.
  */
  lemma {:induction false} MachineSafe(n: Node, sticky: bool, s: Subject, pos: nat, k: nat)
    requires AllEncodable(Program(n, sticky)) && Boundary(s, pos)
    ensures var vm := StepN(Machine(n, sticky, s), Initial(n, pos), k);
            vm != Stuck && VmOk(Program(n, sticky), s, 1 + NumCaps(n), vm) &&
            (vm.Run? ==> |vm.stack| <= Machine(n, sticky, s).maxStack)
  {
    hide AllEncodable, Program, ProgramOk, EncodeAll, MaxDepth, Boundary, Step, StepN, NumCaps, Pos, Dep, Fetch;
    var p, e, nc := Program(n, sticky), Machine(n, sticky, s), 1 + NumCaps(n);
    ProgramShaped(n, sticky);
    StartSpot(p, nc);
    RunKeeps(e, p, nc, Initial(n, pos), k);
    var vm := StepN(e, Initial(n, pos), k);
    if vm.Run? {
      var i: nat :| SpotAt(p, vm.pc, |vm.stack|, i);
      FetchOf(e, p, nc, i);
    }
  }

  lemma {:induction false} StartSpot(p: seq<Instr>, nc: nat)
    requires ProgramOk(p, nc)
    ensures Spot(p, 0, 0)
  {
    hide InstrOk;
    assert p[..0] == [];
    assert SpotAt(p, 0, 0, 0);
  }
}
