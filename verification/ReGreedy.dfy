/**
The optimised loop over simple atoms: it offers the same end positions, in the same order, as
the general loop, because going back over the atom's characters undoes one iteration.
*/
module ReGreedy {
  import opened ReCode
  import opened ReSyntax
  import opened ReMatch
  import opened ReUnfold
  import opened ReVm
  import opened ReLaws
  import opened ReRun
  import opened ReRange
  import opened ReCorrect
  import opened ReLoops

  /**
  A simple atom of `count` characters has at most one result. It leaves the captures alone,
  the non-recursive interpreter arrives at it, and `count` steps back undo it.
  */
  ghost predicate SimpleAt(e: Env, m: Node, cc: nat, pc: nat, len: nat, count: nat, x: State) {
    var rs := Results(e.s, m, false, cc, x);
    if rs == [] then x.pos <= |e.s.input| && RunSimple(e, pc, x.pos) == None
    else |rs| == 1 && Passes(e, pc, pc + len, count, x, rs[0])
  }

  /** `count` characters before pos is the position p. */
  ghost predicate GoesBack(s: Subject, pos: nat, count: nat, p: nat) {
    pos <= |s.input| && CanGoBack(s, pos, count) && GoBack(s, pos, count) == p
  }

  ghost predicate Passes(e: Env, pc: nat, pc': nat, count: nat, x: State, y: State) {
    y == x.(pos := y.pos) && x.pos <= y.pos && (count > 0 ==> x.pos < y.pos) &&
    Boundary(e.s, y.pos) && GoesBack(e.s, y.pos, count, x.pos) &&
    RunSimple(e, pc, x.pos) == RunSimple(e, pc', y.pos)
  }

  lemma {:induction false} GoBackAdd(s: Subject, pos: nat, m: nat, n: nat)
    requires pos <= |s.input| && CanGoBack(s, pos, m) && CanGoBack(s, GoBack(s, pos, m), n)
    ensures GoBack(s, pos, m + n) == GoBack(s, GoBack(s, pos, m), n) && CanGoBack(s, pos, m + n)
    decreases m, 1
  {
    if m > 0 && pos > 0 {
      GoBackAdd(s, PrevPos(s, pos), m - 1, n);
    }
  }

  lemma {:induction false} SimpleAppend(a: seq<Instr>, b: seq<Instr>)
    ensures var x, y := SimpleCount(a), SimpleCount(b);
            SimpleCount(a + b) == if x.Some? && y.Some? then Some(x.value + y.value) else None
  {
    if a == [] {
      assert a + b == b;
    } else {
      assert (a + b)[1..] == a[1..] + b;
      SimpleAppend(a[1..], b);
    }
  }

  predicate SimpleOp(i: Instr) {
    IsCharOp(i) || IsAssertOp(i)
  }

  lemma {:induction false} SimpleOne(i: Instr)
    ensures SimpleCount([i]) == if IsCharOp(i) then Some(1) else if IsAssertOp(i) then Some(0) else None
  {
    assert [i][1..] == [];
  }

  /** A fragment with some other instruction is not simple. */
  lemma {:induction false} NotSimple(a: seq<Instr>, i: Instr, b: seq<Instr>)
    requires !IsCharOp(i) && !IsAssertOp(i)
    ensures SimpleCount(a + ([i] + b)) == None && SimpleCount([i] + b) == None
  {
    hide SimpleCount, IsCharOp, IsAssertOp;
    SimpleOne(i);
    SimpleAppend([i], b);
    SimpleAppend(a, [i] + b);
  }

  /** The only simple quantified atoms: none, and exactly one. */
  lemma {:induction false} SimpleQuant(a: seq<Instr>, min: nat, max: Option<nat>, greedy: bool, reset: seq<Instr>)
    requires SimpleCount(QuantCode(a, min, max, greedy, reset)).Some? && (max.Some? ==> min <= max.value)
    requires reset == [] || (|reset| == 1 && reset[0].SaveReset?)
    ensures max.Some? && ((min == 0 && max.value == 0 && QuantCode(a, min, max, greedy, reset) == []) ||
                          (min == 1 && max.value == 1 && QuantCode(a, min, max, greedy, reset) == a))
  {
    hide SimpleCount, StarCode, UpToCode, TimesCode;
    var len: int := CodeSize(a);
    var c := SimpleCount(a);
    if greedy && max != Some(0) && c.Some? && c.value > 0 {
      var i := SimpleGreedy(len + 1, min, if max.Some? then max.value else INFINITE, c.value);
      assert QuantCode(a, min, max, greedy, reset) == [] + ([i] + (a + [Match]));
      NotSimple([], i, a + [Match]);
    } else if min == 0 {
      if reset != [] {
        assert reset == [] + ([reset[0]] + []);
        NotSimple([], reset[0], []);
        SimpleAppend(reset, [Split(greedy, len)] + a);
        SimpleAppend(reset, StarCode(a, greedy));
        if max.Some? {
          SimpleAppend(reset, UpToCode(a, max.value, greedy));
        }
      }
      NotSimple(reset, Split(greedy, len), a);
      SimpleAppend(reset, StarCode(a, greedy));
      LoopsNotSimple(a, 0, greedy);
      if max.Some? {
        SimpleAppend(reset, UpToCode(a, max.value, greedy));
        LoopsNotSimple(a, max.value, greedy);
      }
    } else if min == 1 && max == None && !NeedsCheck(a, greedy) {
      var i := if greedy then SplitGotoFirst(-(len + 5)) else SplitNextFirst(-(len + 5));
      assert [i] + [] == [i];
      NotSimple(a, i, []);
    } else {
      LoopsNotSimple(a, if max.Some? then max.value - min else 0, greedy);
      SimpleAppend(TimesCode(a, min), StarCode(a, greedy));
      SimpleAppend(TimesCode(a, min), []);
      if max.Some? {
        SimpleAppend(TimesCode(a, min), UpToCode(a, max.value - min, greedy));
      }
      TimesNotSimple(a, min);
    }
  }

  lemma {:induction false} LoopsNotSimple(a: seq<Instr>, k: nat, greedy: bool)
    ensures SimpleCount(StarCode(a, greedy)) == None && SimpleCount(UpToCode(a, k, greedy)) == None
  {
    hide SimpleCount, NeedsCheck;
    var len: int := CodeSize(a);
    var i, j := Split(greedy, len + 6), Split(greedy, len + 5);
    assert [i, PushCharPos] + a + [BneCharPos(-(len + 11))] == [] + ([i] + ([PushCharPos] + a + [BneCharPos(-(len + 11))]));
    NotSimple([], i, [PushCharPos] + a + [BneCharPos(-(len + 11))]);
    assert [j] + a + [Goto(-(len + 10))] == [] + ([j] + (a + [Goto(-(len + 10))]));
    NotSimple([], j, a + [Goto(-(len + 10))]);
    assert UpToCode(a, k, greedy) == [] + ([PushI32(k)] + ([j] + a + [Loop(-(len + 10)), Drop]));
    NotSimple([], PushI32(k), [j] + a + [Loop(-(len + 10)), Drop]);
  }

  lemma {:induction false} TimesNotSimple(a: seq<Instr>, k: nat)
    ensures k == 1 || SimpleCount(TimesCode(a, k)) == None
    ensures k == 1 ==> TimesCode(a, k) + [] == a
  {
    hide SimpleCount;
    if k != 1 {
      var tail := a + [Loop(-(CodeSize(a) + 5)), Drop];
      assert TimesCode(a, k) == [] + ([PushI32(k)] + tail);
      NotSimple([], PushI32(k), tail);
    }
  }

  /** One simple instruction, run by the non-recursive interpreter. */
  lemma {:induction false} RunOne(e: Env, pc: nat, i: Instr, pos: nat)
    requires Fetch(e.code, pc) == Some(i) && pc < |e.code| && pos <= |e.s.input| && SimpleOp(i)
    ensures IsCharOp(i) ==>
              RunSimple(e, pc, pos) ==
              if pos < |e.s.input| && CharTest(i, GetChar(e.s, pos)) then RunSimple(e, pc + Size(i), NextPos(e.s, pos)) else None
    ensures IsAssertOp(i) ==>
              RunSimple(e, pc, pos) == if AssertTest(i, e.s, pos) then RunSimple(e, pc + Size(i), pos) else None
  {
    hide Fetch, CharTest, AssertTest, GetChar, NextPos;
  }

  lemma {:induction false} RunAtom(e: Env, t: Test, pc: nat, pos: nat, d: int)
    requires SubjectOk(e.s) && NodeOk(Atom(t), false, 0) && Placed(e, pc, [TestCode(t)], d) && pos <= |e.s.input|
    ensures IsCharOp(TestCode(t))
    ensures RunSimple(e, pc, pos) ==
            if pos < |e.s.input| && Accepts(t, GetChar(e.s, pos))
            then RunSimple(e, pc + CodeSize([TestCode(t)]), NextPos(e.s, pos)) else None
  {
    hide TestCode, CharTest, Accepts, Placed, Size, NodeOk, CodeSize, Fetch, RunSimple, GetChar, NextPos, PrevPos;
    var i := TestCode(t);
    PlacedOne(e, pc, i, d);
    PlacedFits(e, pc, i, d);
    TestCorrect(t, 0);
    RunOne(e, pc, i, pos);
    if pos < |e.s.input| {
      CharBound(e.s, pos);
      TestCorrect(t, GetChar(e.s, pos));
    }
  }

  lemma {:induction false} GoBackOne(s: Subject, pos: nat)
    requires Boundary(s, pos) && pos < |s.input|
    ensures GoesBack(s, NextPos(s, pos), 1, pos) && Boundary(s, NextPos(s, pos)) && pos < NextPos(s, pos)
  {
    hide PrevPos, Boundary, NextPos;
    NextIsBoundary(s, pos);
    var p := NextPos(s, pos);
    assert GoBack(s, PrevPos(s, p), 0) == pos && CanGoBack(s, PrevPos(s, p), 0);
  }

  lemma {:induction false} SimpleAtom(e: Env, t: Test, cc: nat, pc: nat, x: State, d: int)
    requires SubjectOk(e.s) && NodeOk(Atom(t), false, cc) && Placed(e, pc, [TestCode(t)], d) && Boundary(e.s, x.pos)
    ensures IsCharOp(TestCode(t)) && SimpleAt(e, Atom(t), cc, pc, CodeSize([TestCode(t)]), 1, x)
  {
    hide Results, Compile, TestCode, Accepts, Placed, NodeOk, CodeSize, RunSimple, GetChar, NextPos, GoesBack, Boundary, IsCharOp;
    BoundaryInside(e.s, x.pos);
    AtomUnfold(e.s, t, false, cc, x);
    RunAtom(e, t, pc, x.pos, d);
    if x.pos < |e.s.input| {
      GoBackOne(e.s, x.pos);
    }
  }

  lemma {:induction false} PlacedFits(e: Env, pc: nat, i: Instr, d: int)
    requires Placed(e, pc, [i], d)
    ensures pc < |e.code|
  {
    hide Size;
  }

  lemma {:induction false} RunAssert(e: Env, i: Instr, pc: nat, pos: nat, d: int)
    requires Placed(e, pc, [i], d) && IsAssertOp(i) && pos <= |e.s.input|
    ensures RunSimple(e, pc, pos) == if AssertTest(i, e.s, pos) then RunSimple(e, pc + CodeSize([i]), pos) else None
  {
    hide Placed, Size, CodeSize, Fetch, RunSimple, AssertTest;
    PlacedOne(e, pc, i, d);
    PlacedFits(e, pc, i, d);
    RunOne(e, pc, i, pos);
  }

  lemma {:induction false} StaysPut(e: Env, pc: nat, pc': nat, x: State)
    requires Boundary(e.s, x.pos) && RunSimple(e, pc, x.pos) == RunSimple(e, pc', x.pos)
    ensures Passes(e, pc, pc', 0, x, x)
  {
    hide RunSimple;
  }

  lemma {:induction false} SimpleAssert(e: Env, m: Node, cc: nat, pc: nat, x: State, d: int)
    requires IsAssertion(m) && Placed(e, pc, Compile(m, false, cc), d) && Boundary(e.s, x.pos)
    ensures SimpleCount(Compile(m, false, cc)) == Some(0)
    ensures SimpleAt(e, m, cc, pc, CodeSize(Compile(m, false, cc)), 0, x)
  {
    hide Results, Compile, Placed, CodeSize, RunSimple, AssertTest, Boundary, SimpleCount, AssertOp, Passes, IsAssertOp, IsCharOp, IsAssertion;
    BoundaryInside(e.s, x.pos);
    AssertUnfold(e.s, m, false, cc, x);
    var i := AssertOp(m);
    SimpleOne(i);
    RunAssert(e, i, pc, x.pos, d);
    if AssertTest(i, e.s, x.pos) {
      StaysPut(e, pc, pc + CodeSize([i]), x);
    }
  }

  /** Composition of passes. */
  lemma {:induction false} PassesTrans(e: Env, pc: nat, pc1: nat, pc2: nat, m: nat, n: nat, x: State, y: State, z: State)
    requires x.pos <= |e.s.input| && Passes(e, pc, pc1, m, x, y) && Passes(e, pc1, pc2, n, y, z)
    ensures Passes(e, pc, pc2, m + n, x, z)
  {
    hide RunSimple, GoBack, CanGoBack, Boundary;
    assert z.pos <= |e.s.input| by {
      BoundaryInside(e.s, z.pos);
    }
    GoBackAdd(e.s, z.pos, n, m);
  }

  lemma {:induction false} BoundaryInside(s: Subject, pos: nat)
    requires Boundary(s, pos)
    ensures pos <= |s.input|
  {
  }

  lemma {:induction false} AllOfOne(s: Subject, r: Node, cc: nat, y: State)
    ensures ResultsAll(s, r, false, cc, [y]) == Results(s, r, false, cc, y)
  {
    hide Results;
    assert [y][1..] == [];
    assert ResultsAll(s, r, false, cc, [y]) == Results(s, r, false, cc, y) + [];
  }

  lemma {:induction false} AllOfNone(s: Subject, r: Node, cc: nat)
    ensures ResultsAll(s, r, false, cc, []) == []
  {
  }

  lemma {:induction false} SimpleCat(e: Env, l: Node, r: Node, cc: nat, pc: nat, lenL: nat, lenR: nat, m: nat, n: nat, x: State)
    requires Boundary(e.s, x.pos) && SimpleAt(e, l, cc, pc, lenL, m, x)
    requires forall y | y in Results(e.s, l, false, cc, x) :: SimpleAt(e, r, cc + NumCaps(l), pc + lenL, lenR, n, y)
    ensures SimpleAt(e, Cat(l, r), cc, pc, lenL + lenR, m + n, x)
  {
    hide RunSimple, Boundary, Passes, Results, NumCaps, ResultsAll, Compile, NodeOk;
    var ys := Results(e.s, l, false, cc, x);
    BoundaryInside(e.s, x.pos);
    CatUnfold(e.s, l, r, false, cc, x);
    AllOfNone(e.s, r, cc + NumCaps(l));
    if ys != [] {
      var y := ys[0];
      assert y in ys && ys == [y];
      AllOfOne(e.s, r, cc + NumCaps(l), y);
      var zs := Results(e.s, r, false, cc + NumCaps(l), y);
      if zs == [] {
        assert RunSimple(e, pc + lenL, y.pos) == None;
        assert RunSimple(e, pc, x.pos) == RunSimple(e, pc + lenL, y.pos) by { PassesRun(e, pc, pc + lenL, m, x, y); }
      } else {
        PassesTrans(e, pc, pc + lenL, pc + lenL + lenR, m, n, x, y, zs[0]);
      }
    }
  }

  lemma {:induction false} PassesRun(e: Env, pc: nat, pc': nat, count: nat, x: State, y: State)
    requires Passes(e, pc, pc', count, x, y) && x.pos <= |e.s.input|
    ensures y.pos <= |e.s.input| && RunSimple(e, pc, x.pos) == RunSimple(e, pc', y.pos)
  {
    hide RunSimple, GoBack, CanGoBack;
  }

  /** A quantifier of exactly one, and of none. */
  lemma {:induction false} OnceResults(s: Subject, m: Node, back: bool, cc: nat, greedy: bool, x: State)
    ensures Results(s, Quant(m, 1, Some(1), greedy), back, cc, x) == Results(s, m, back, cc, x)
    ensures NumCaps(m) == 0 ==> Results(s, Quant(m, 0, Some(0), greedy), back, cc, x) == [x]
  {
    hide Results, Compile, NodeOk, QuantCode, IterAll, IterEach;
    QuantUnfold(s, Quant(m, 1, Some(1), greedy), back, cc, x);
    OnceIter(s, m, back, cc, greedy, x, Results(s, m, back, cc, x));
    QuantUnfold(s, Quant(m, 0, Some(0), greedy), back, cc, x);
    OnceIter(s, m, back, cc, greedy, x, [x]);
  }

  lemma {:induction false} OnceIter(s: Subject, m: Node, back: bool, cc: nat, greedy: bool, x: State, ys: seq<State>)
    ensures IterAll(s, m, back, cc, Times(0), x, ys) == ys
    ensures IterEach(s, m, back, cc, UpTo(0, greedy), ys) == ys
  {
    if ys != [] {
      OnceIter(s, m, back, cc, greedy, x, ys[1..]);
    }
  }

  /** What the compiler's check on the code of an atom establishes about the atom. */
  lemma {:induction false} SimpleNode(e: Env, m: Node, cc: nat, pc: nat, x: State, d: int)
    requires SubjectOk(e.s) && NodeOk(m, false, cc) && Boundary(e.s, x.pos)
    requires SimpleCount(Compile(m, false, cc)).Some? && Placed(e, pc, Compile(m, false, cc), d)
    ensures SimpleAt(e, m, cc, pc, CodeSize(Compile(m, false, cc)), SimpleCount(Compile(m, false, cc)).value, x)
    decreases m, 1
  {
    hide Placed, SimpleAt, SimpleCount, QuantCode, TestCode, CodeSize, EndDepth, Boundary, SubjectOk, Results, NodeOk, Compile, NumCaps;
    BoundaryInside(e.s, x.pos);
    EmptyUnfold(e.s, false, cc, x);
    match m
    case Empty => SimpleEmpty(e, m, cc, pc, x);
    case Atom(t) =>
      AtomUnfold(e.s, t, false, cc, x);
      SimpleAtom(e, t, cc, pc, x, d);
      SimpleOne(TestCode(t));
    case BeginLine => SimpleAssert(e, m, cc, pc, x, d);
    case EndLine => SimpleAssert(e, m, cc, pc, x, d);
    case WordEdge(_) => SimpleAssert(e, m, cc, pc, x, d);
    case Cat(l, r) =>
      CatUnfold(e.s, l, r, false, cc, x);
      var cl, cr := Compile(l, false, cc), Compile(r, false, cc + NumCaps(l));
      SimpleAppend(cl, cr);
      PlacedAppend(e, pc, cl, cr, d);
      SimpleNode(e, l, cc, pc, x, d);
      SimpleRests(e, l, cc, pc, CodeSize(cl), SimpleCount(cl).value, x);
      forall y | y in Results(e.s, l, false, cc, x)
        ensures SimpleAt(e, r, cc + NumCaps(l), pc + CodeSize(cl), CodeSize(cr), SimpleCount(cr).value, y)
      {
        SimpleNode(e, r, cc + NumCaps(l), pc + CodeSize(cl), y, EndDepth(cl, d));
      }
      SimpleCat(e, l, r, cc, pc, CodeSize(cl), CodeSize(cr), SimpleCount(cl).value, SimpleCount(cr).value, x);
    case Quant(n, min, max, greedy) =>
      SimpleQuantNode(e, m, cc, pc, x, d);
    case _ => NotSimpleNode(m, false, cc);
  }

  lemma {:induction false} SimpleQuantNode(e: Env, m: Node, cc: nat, pc: nat, x: State, d: int)
    requires SubjectOk(e.s) && NodeOk(m, false, cc) && Boundary(e.s, x.pos) && m.Quant?
    requires SimpleCount(Compile(m, false, cc)).Some? && Placed(e, pc, Compile(m, false, cc), d)
    ensures SimpleAt(e, m, cc, pc, CodeSize(Compile(m, false, cc)), SimpleCount(Compile(m, false, cc)).value, x)
    decreases m, 0
  {
    hide Placed, SimpleAt, SimpleCount, QuantCode, CodeSize, Boundary, SubjectOk, Results, NodeOk, Compile, NumCaps;
    QuantUnfold(e.s, m, false, cc, x);
    var Quant(n, min, max, greedy) := m;
    var a := Compile(n, false, cc);
    SimpleQuant(a, min, max, greedy, ResetCode(n, min, cc));
    OnceResults(e.s, n, false, cc, greedy, x);
    if min == 1 {
      SimpleNode(e, n, cc, pc, x, d);
      SimpleSame(e, n, m, cc, pc, CodeSize(a), SimpleCount(a).value, x);
    } else {
      QuantNone(a, greedy, ResetCode(n, min, cc));
      SimpleEmpty(e, m, cc, pc, x);
    }
  }

  lemma {:induction false} NotSimpleNode(m: Node, back: bool, cc: nat)
    requires m.Alt? || m.Group? || m.Look? || m.BackReference?
    ensures SimpleCount(Compile(m, back, cc)) == None
  {
    hide SimpleCount, CodeSize, Compile, Results, NumCaps, NodeOk, SetAll, RefersTo;
    var s, x := Subject([], false, false), State(0, []);
    match m
    case BackReference(g) =>
      BackUnfold(s, g, back, cc, x);
      SimpleOne(if back then BackwardBackRef(g) else BackRef(g));
    case Alt(l, r) =>
      AltUnfold(s, l, r, back, cc, x);
      var cl, cr := Compile(l, back, cc), Compile(r, back, cc + NumCaps(l));
      var i, rest := SplitNextFirst(CodeSize(cl) + 5), cl + [Goto(CodeSize(cr))] + cr;
      assert [i] + cl + [Goto(CodeSize(cr))] + cr == [i] + rest;
      NotSimple([], i, rest);
    case Group(n) =>
      GroupUnfold(s, n, back, cc, x);
      var i, j := if back then SaveEnd(cc) else SaveStart(cc), if back then SaveStart(cc) else SaveEnd(cc);
      var rest := Compile(n, back, cc + 1) + [j];
      assert [i] + Compile(n, back, cc + 1) + [j] == [i] + rest;
      NotSimple([], i, rest);
    case Look(neg, b, n) =>
      LookUnfold(s, neg, b, n, back, cc, x);
      var a := Compile(n, b, cc);
      var i := if neg then NegLookahead(CodeSize(a) + 1) else Lookahead(CodeSize(a) + 1);
      assert [i] + a + [Match] == [i] + (a + [Match]);
      NotSimple([], i, a + [Match]);
  }

  lemma {:induction false} QuantNone(a: seq<Instr>, greedy: bool, reset: seq<Instr>)
    ensures QuantCode(a, 0, Some(0), greedy, reset) == reset
  {
  }

  lemma {:induction false} SimpleEmpty(e: Env, m: Node, cc: nat, pc: nat, x: State)
    requires Boundary(e.s, x.pos) && Results(e.s, m, false, cc, x) == [x]
    ensures CodeSize([]) == 0 && SimpleCount([]) == Some(0) && SimpleAt(e, m, cc, pc, 0, 0, x)
  {
    hide RunSimple, Boundary, Results;
    BoundaryInside(e.s, x.pos);
  }

  lemma {:induction false} SimpleSame(e: Env, n: Node, m: Node, cc: nat, pc: nat, len: nat, count: nat, x: State)
    requires SimpleAt(e, n, cc, pc, len, count, x) && Results(e.s, n, false, cc, x) == Results(e.s, m, false, cc, x)
    ensures SimpleAt(e, m, cc, pc, len, count, x)
  {
    hide RunSimple, Results, Passes;
  }

  /** Results of a simple atom are at boundaries. */
  lemma {:induction false} SimpleRests(e: Env, l: Node, cc: nat, pc: nat, len: nat, count: nat, x: State)
    requires Boundary(e.s, x.pos) && SimpleAt(e, l, cc, pc, len, count, x)
    ensures forall y | y in Results(e.s, l, false, cc, x) :: Boundary(e.s, y.pos)
  {
    hide RunSimple, Results, Boundary;
  }

  /** The position j iterations before p. */
  ghost function BackN(s: Subject, count: nat, p: nat, j: nat): (r: nat)
    requires p <= |s.input|
    ensures r <= |s.input|
    decreases j
  {
    if j == 0 then p else BackN(s, count, GoBack(s, p, count), j - 1)
  }

  /** x moved to p, and to each of the j iterations before it. */
  ghost function Down(s: Subject, x: State, count: nat, p: nat, j: nat): (ys: seq<State>)
    requires p <= |s.input|
    ensures |ys| == j + 1
    decreases j
  {
    [x.(pos := p)] + if j == 0 then [] else Down(s, x, count, GoBack(s, p, count), j - 1)
  }

  lemma {:induction false} DownZero(s: Subject, x: State, count: nat, p: nat)
    requires p <= |s.input|
    ensures BackN(s, count, p, 0) == p && Down(s, x, count, p, 0) == [x.(pos := p)]
  {
  }

  lemma {:induction false} DownOne(s: Subject, x: State, count: nat, p: nat, j: nat)
    requires p <= |s.input| && j > 0
    ensures var p1 := GoBack(s, p, count);
            BackN(s, count, p, j) == BackN(s, count, p1, j - 1) && Down(s, x, count, p, j) == [x.(pos := p)] + Down(s, x, count, p1, j - 1)
  {
    hide GoBack;
  }

  lemma {:induction false} DownSnoc(s: Subject, x: State, count: nat, p: nat, j: nat)
    requires p <= |s.input|
    ensures BackN(s, count, p, j + 1) == GoBack(s, BackN(s, count, p, j), count)
    ensures Down(s, x, count, p, j + 1) == Down(s, x, count, p, j) + [x.(pos := BackN(s, count, p, j + 1))]
    decreases j
  {
    hide GoBack, Down, BackN;
    var p1 := GoBack(s, p, count);
    DownOne(s, x, count, p, j + 1);
    if j == 0 {
      DownZero(s, x, count, p);
      DownZero(s, x, count, p1);
    } else {
      DownOne(s, x, count, p, j);
      DownSnoc(s, x, count, p1, j - 1);
    }
  }

  /** The atom at pc, followed by `match`, behaves like the non-recursive interpreter says. */
  ghost predicate SimpleStep(e: Env, m: Node, cc: nat, pc: nat, count: nat, x: State) {
    var rs := Results(e.s, m, false, cc, x);
    x.pos <= |e.s.input| &&
    if rs == [] then RunSimple(e, pc, x.pos) == None
    else
      |rs| == 1 && rs[0] == x.(pos := rs[0].pos) && x.pos < rs[0].pos && Boundary(e.s, rs[0].pos) &&
      GoesBack(e.s, rs[0].pos, count, x.pos) && RunSimple(e, pc, x.pos) == Some(rs[0].pos)
  }

  ghost predicate SimpleSteps(e: Env, m: Node, cc: nat, pc: nat, count: nat) {
    forall x: State {:trigger SimpleStep(e, m, cc, pc, count, x)} :: Boundary(e.s, x.pos) ==> SimpleStep(e, m, cc, pc, count, x)
  }

  lemma {:induction false} SimpleStepsOf(e: Env, m: Node, cc: nat, pc: nat, d: int)
    requires SubjectOk(e.s) && NodeOk(m, false, cc) && Placed(e, pc, Compile(m, false, cc) + [Match], d)
    requires SimpleCount(Compile(m, false, cc)).Some? && SimpleCount(Compile(m, false, cc)).value > 0
    ensures SimpleSteps(e, m, cc, pc, SimpleCount(Compile(m, false, cc)).value)
  {
    hide Placed, SimpleCount, CodeSize, EndDepth, Boundary, SubjectOk, Results, NodeOk, Compile, RunSimple, GoBack, Fetch;
    var a := Compile(m, false, cc);
    var count := SimpleCount(a).value;
    PlacedAppend(e, pc, a, [Match], d);
    var pcM := pc + CodeSize(a);
    PlacedOne(e, pcM, Match, EndDepth(a, d));
    PlacedFits(e, pcM, Match, EndDepth(a, d));
    forall x: State | Boundary(e.s, x.pos)
      ensures SimpleStep(e, m, cc, pc, count, x)
    {
      BoundaryInside(e.s, x.pos);
      SimpleNode(e, m, cc, pc, x, d);
      var rs := Results(e.s, m, false, cc, x);
      if rs != [] {
        PassesRun(e, pc, pcM, count, x, rs[0]);
        RunMatch(e, pcM, rs[0].pos);
      }
    }
  }

  lemma {:induction false} RunMatch(e: Env, pc: nat, pos: nat)
    requires Fetch(e.code, pc) == Some(Match) && pc < |e.code| && pos <= |e.s.input|
    ensures RunSimple(e, pc, pos) == Some(pos)
  {
    hide Fetch, CharTest, AssertTest;
  }

  /** How the optional iterations are repeated once `used` of the at most `max` are done. */
  ghost function Left(max: Option<nat>, used: nat): Rep {
    if max == None then Star(true) else if used <= max.value then UpTo(max.value - used, true) else UpTo(0, true)
  }

  /** The operand that stands for the upper bound. */
  ghost function Limit(max: Option<nat>): nat {
    if max.Some? then max.value else INFINITE
  }

  /** The greedy run, or nothing if the bound is already reached. */
  ghost function Greedily(e: Env, pc: nat, pos: nat, q: nat, max: Option<nat>): (r: (nat, nat))
    requires pos <= |e.s.input|
    ensures r.0 <= |e.s.input| && r.1 >= q
  {
    if max.Some? && q >= max.value then (pos, q) else RunGreedy(e, pc, pos, q, Limit(max))
  }

  lemma {:induction false} GreedilyUnfold(e: Env, pc: nat, pos: nat, q: nat, max: Option<nat>)
    requires pos <= |e.s.input| && (max.Some? ==> q < max.value < INFINITE)
    requires RunSimple(e, pc, pos).Some? ==> RunSimple(e, pc, pos).value > pos
    ensures Greedily(e, pc, pos, q, max) ==
            if RunSimple(e, pc, pos) == None then (pos, q)
            else Greedily(e, pc, RunSimple(e, pc, pos).value, q + 1, max)
  {
    hide RunSimple;
  }

  /** Exactly t further iterations and then as many as allowed, as lists. */
  ghost function Listed(s: Subject, m: Node, cc: nat, t: nat, rep: Rep, x: State): seq<State> {
    IterEach(s, m, false, cc, rep, Iter(s, m, false, cc, Times(t), x))
  }

  lemma {:induction false} ListedUnfold(s: Subject, m: Node, cc: nat, t: nat, max: Option<nat>, q: nat, x: State)
    requires var rs := Results(s, m, false, cc, x);
             |rs| <= 1 && (rs != [] ==> x.pos < rs[0].pos <= |s.input|)
    requires max.Some? ==> q + t <= max.value
    ensures var rs := Results(s, m, false, cc, x);
            Listed(s, m, cc, t, Left(max, q + t), x) ==
            if t > 0 then (if rs == [] then [] else Listed(s, m, cc, t - 1, Left(max, q + t), rs[0]))
            else if rs == [] || (max.Some? && q == max.value) then [x]
            else Listed(s, m, cc, 0, Left(max, q + 1), rs[0]) + [x]
  {
    hide Results;
    var rs := Results(s, m, false, cc, x);
    var rep := Left(max, q + t);
    if t > 0 {
      if rs == [] {
        assert Iter(s, m, false, cc, Times(t), x) == [];
      } else {
        assert rs[1..] == [];
        AllOne(s, m, cc, Times(t - 1), x, rs);
        assert Iter(s, m, false, cc, Times(t), x) == Iter(s, m, false, cc, Times(t - 1), rs[0]);
      }
    } else {
      EachOne(s, m, cc, rep, x);
      if rs != [] {
        assert rs[1..] == [];
        EachOne(s, m, cc, Left(max, q + 1), rs[0]);
        AllOne(s, m, cc, Left(max, q + 1), x, rs);
      }
    }
  }

  lemma {:induction false} EachOne(s: Subject, m: Node, cc: nat, rep: Rep, x: State)
    ensures Listed(s, m, cc, 0, rep, x) == Iter(s, m, false, cc, rep, x)
  {
    hide Results, IterAll;
    assert Iter(s, m, false, cc, Times(0), x) == [x];
    assert [x][1..] == [];
    assert IterEach(s, m, false, cc, rep, [x]) == Iter(s, m, false, cc, rep, x) + [];
  }

  lemma {:induction false} AllOne(s: Subject, m: Node, cc: nat, rep: Rep, x: State, rs: seq<State>)
    requires |rs| == 1 && x.pos < rs[0].pos <= |s.input|
    ensures IterAll(s, m, false, cc, rep, x, rs) == Iter(s, m, false, cc, rep, rs[0])
  {
    hide Results, Iter;
    assert rs[1..] == [];
    assert IterAll(s, m, false, cc, rep, x, rs) == Iter(s, m, false, cc, rep, rs[0]) + [];
  }

  /** There are j iterations of `count` characters before p. */
  ghost predicate CanBackN(s: Subject, count: nat, p: nat, j: nat)
    requires p <= |s.input|
    decreases j
  {
    j == 0 || (CanGoBack(s, p, count) && CanBackN(s, count, GoBack(s, p, count), j - 1))
  }

  lemma {:induction false} CanBackSnoc(s: Subject, count: nat, p: nat, j: nat)
    requires p <= |s.input| && CanBackN(s, count, p, j) && CanGoBack(s, BackN(s, count, p, j), count)
    ensures CanBackN(s, count, p, j + 1)
    decreases j
  {
    hide GoBack, CanGoBack;
    var p1 := GoBack(s, p, count);
    if j == 0 {
      assert CanBackN(s, count, p1, 0);
    } else {
      CanBackSnoc(s, count, p1, j - 1);
    }
  }

  /** Going back from p by k iterations gives x, and passes through the listed results. */
  ghost predicate Lists(s: Subject, m: Node, cc: nat, count: nat, t: nat, rep: Rep, x: State, p: nat, k: nat) {
    p <= |s.input| && BackN(s, count, p, k) == x.pos && CanBackN(s, count, p, k) &&
    Listed(s, m, cc, t, rep, x) == if k < t then [] else Down(s, x, count, p, k - t)
  }

  lemma {:induction false} ListsOne(s: Subject, m: Node, cc: nat, count: nat, t: nat, rep: Rep, x: State)
    requires x.pos <= |s.input| && Listed(s, m, cc, t, rep, x) == if t > 0 then [] else [x]
    ensures Lists(s, m, cc, count, t, rep, x, x.pos, 0)
  {
    hide Listed, GoBack;
  }

  lemma {:induction false} ListsMust(s: Subject, m: Node, cc: nat, count: nat, t: nat, rep: Rep, x: State, y: State, p: nat, k: nat)
    requires t > 0 && Lists(s, m, cc, count, t - 1, rep, y, p, k) && y.caps == x.caps
    requires GoesBack(s, y.pos, count, x.pos)
    requires Listed(s, m, cc, t, rep, x) == Listed(s, m, cc, t - 1, rep, y)
    ensures Lists(s, m, cc, count, t, rep, x, p, k + 1)
  {
    hide Listed, GoBack, CanGoBack, Down, BackN, CanBackN;
    DownSnoc(s, x, count, p, k);
    CanBackSnoc(s, count, p, k);
    if k + 1 >= t {
      DownSame(s, x, y, count, p, k + 1 - t);
    }
  }

  lemma {:induction false} ListsMay(s: Subject, m: Node, cc: nat, count: nat, rep: Rep, rep': Rep, x: State, y: State, p: nat, k: nat)
    requires Lists(s, m, cc, count, 0, rep', y, p, k) && y.caps == x.caps
    requires GoesBack(s, y.pos, count, x.pos)
    requires Listed(s, m, cc, 0, rep, x) == Listed(s, m, cc, 0, rep', y) + [x]
    ensures Lists(s, m, cc, count, 0, rep, x, p, k + 1)
  {
    hide Listed, GoBack, CanGoBack, Down, BackN, CanBackN;
    DownSnoc(s, x, count, p, k);
    CanBackSnoc(s, count, p, k);
    DownSame(s, x, y, count, p, k);
  }

  /** The general loop's list of results is what the greedy run and the steps back give. */
  lemma {:induction false} GreedyList(e: Env, m: Node, cc: nat, pc: nat, count: nat, t: nat, q: nat, max: Option<nat>, x: State)
    requires SimpleSteps(e, m, cc, pc, count) && Boundary(e.s, x.pos) && (max.Some? ==> q + t <= max.value < INFINITE)
    ensures x.pos <= |e.s.input|
    ensures var r := Greedily(e, pc, x.pos, q, max);
            Lists(e.s, m, cc, count, t, Left(max, q + t), x, r.0, r.1 - q)
    decreases |e.s.input| - x.pos
  {
    hide Boundary, Results, Greedily, Listed, Left, RunSimple, GoesBack, Lists;
    BoundaryInside(e.s, x.pos);
    assert SimpleStep(e, m, cc, pc, count, x);
    var rs := Results(e.s, m, false, cc, x);
    if rs != [] {
      BoundaryInside(e.s, rs[0].pos);
    }
    ListedUnfold(e.s, m, cc, t, max, q, x);
    if max.Some? && q == max.value {
      GreedilyDone(e, pc, x.pos, q, max);
      ListsOne(e.s, m, cc, count, t, Left(max, q + t), x);
    } else {
      GreedilyUnfold(e, pc, x.pos, q, max);
      if rs == [] {
        ListsOne(e.s, m, cc, count, t, Left(max, q + t), x);
      } else {
        var y := rs[0];
        var r := Greedily(e, pc, y.pos, q + 1, max);
        if t == 0 {
          GreedyList(e, m, cc, pc, count, 0, q + 1, max, y);
          ListsMay(e.s, m, cc, count, Left(max, q), Left(max, q + 1), x, y, r.0, r.1 - (q + 1));
        } else {
          GreedyList(e, m, cc, pc, count, t - 1, q + 1, max, y);
          ListsMust(e.s, m, cc, count, t, Left(max, q + t), x, y, r.0, r.1 - (q + 1));
        }
      }
    }
  }

  lemma {:induction false} GreedilyDone(e: Env, pc: nat, pos: nat, q: nat, max: Option<nat>)
    requires pos <= |e.s.input| && max == Some(q)
    ensures Greedily(e, pc, pos, q, max) == (pos, q)
  {
  }

  lemma {:induction false} DownSame(s: Subject, x: State, y: State, count: nat, p: nat, j: nat)
    requires p <= |s.input| && x.caps == y.caps
    ensures Down(s, x, count, p, j) == Down(s, y, count, p, j)
    decreases j
  {
    hide GoBack;
    if j > 0 {
      DownSame(s, x, y, count, GoBack(s, p, count), j - 1);
    }
  }

  /** The saved state of a greedy loop with j iterations to give up. */
  ghost function GreedyTo(pc: nat, x: State, p: nat, st: seq<nat>, j: nat): Frame {
    Frame(GreedyFrame(j), pc, p, x.caps, st)
  }

  lemma {:induction false} ResumeStep(e: Env, pc: nat, i: Instr, x: State, p: nat, st: seq<nat>, j: nat, bt: seq<Frame>, pc': nat)
    requires i.SimpleGreedy? && Fetch(e.code, pc) == Some(i) && pc' == pc + 17 + i.next && p <= |e.s.input| && j > 0
    requires CanGoBack(e.s, p, i.count)
    ensures var p1 := GoBack(e.s, p, i.count);
            Step(e, Fail([GreedyTo(pc, x, p, st, j)] + bt)) ==
            At(pc', x.(pos := p1), st, (if j == 1 then [] else [GreedyTo(pc, x, p1, st, j - 1)]) + bt)
  {
    hide Fetch, GoBack, CanGoBack, StepRun;
    assert ([GreedyTo(pc, x, p, st, j)] + bt)[1..] == bt;
  }

  /** Failing into a greedy loop offers the remaining iterations, last one first. */
  lemma {:induction false} GreedyBack(e: Env, pc: nat, i: Instr, x: State, p: nat, st: seq<nat>, j: nat, bt: seq<Frame>, pc': nat)
    requires i.SimpleGreedy? && Fetch(e.code, pc) == Some(i) && pc' == pc + 17 + i.next && p <= |e.s.input| && j > 0
    requires CanBackN(e.s, i.count, p, j)
    ensures Offers(e, Fail([GreedyTo(pc, x, p, st, j)] + bt), Down(e.s, x, i.count, GoBack(e.s, p, i.count), j - 1), pc', st, bt)
    decreases j
  {
    hide Fetch, GoBack, CanGoBack, Step, Reaches, Down;
    var p1 := GoBack(e.s, p, i.count);
    var y := x.(pos := p1);
    var c := Fail([GreedyTo(pc, x, p, st, j)] + bt);
    ResumeStep(e, pc, i, x, p, st, j, bt, pc');
    ReachRefl(e, Step(e, c));
    ReachStep(e, c, Step(e, c));
    if j == 1 {
      assert [] + bt == bt;
      OffersOne(e, c, y, pc', st, bt);
      DownZero(e.s, x, i.count, p1);
    } else {
      var ext := [GreedyTo(pc, x, p1, st, j - 1)];
      GreedyBack(e, pc, i, x, p1, st, j - 1, bt, pc');
      DownCons(e.s, x, i.count, p1, j - 1);
      assert NoLook(ext);
    }
  }

  lemma {:induction false} DownCons(s: Subject, x: State, count: nat, p: nat, j: nat)
    requires p <= |s.input| && j > 0
    ensures Down(s, x, count, p, j) != [] && Down(s, x, count, p, j)[0] == x.(pos := p)
    ensures Down(s, x, count, p, j)[1..] == Down(s, x, count, GoBack(s, p, count), j - 1)
  {
    hide GoBack;
  }

  lemma {:induction false} GreedyStep(e: Env, pc: nat, i: Instr, x: State, st: seq<nat>, bt: seq<Frame>, pc': nat)
    requires i.SimpleGreedy? && Fetch(e.code, pc) == Some(i) && pc' == pc + 17 + i.next && x.pos <= |e.s.input|
    ensures var (p, q) := RunGreedy(e, pc + 17, x.pos, 0, i.max);
            Step(e, At(pc, x, st, bt)) ==
            if q < i.min then Fail(bt)
            else At(pc', x.(pos := p), st, (if q > i.min then [GreedyTo(pc, x, p, st, q - i.min)] else []) + bt)
  {
    hide Step, Fetch, RunGreedy, ResetCaps;
    FetchedStep(e, At(pc, x, st, bt), i);
  }

  /** The optimised loop offers exactly the results of the general one. */
  lemma {:induction false} GreedyGives(e: Env, m: Node, cc: nat, pc: nat, min: nat, max: Option<nat>, count: nat, next: int,
                                       x: State, st: seq<nat>, pc': nat)
    requires Fetch(e.code, pc) == Some(SimpleGreedy(next, min, Limit(max), count)) && pc' == pc + 17 + next
    requires SimpleSteps(e, m, cc, pc + 17, count) && Boundary(e.s, x.pos)
    requires max != Some(0) && (max.Some? ==> min <= max.value < INFINITE)
    ensures Gives(e, pc, x, st, Listed(e.s, m, cc, min, Left(max, min), x), pc', st)
  {
    hide Boundary, Fetch, SimpleSteps, Listed, Left, RunGreedy, Down, Step, Offers, BackN, CanBackN;
    BoundaryInside(e.s, x.pos);
    GreedyList(e, m, cc, pc + 17, count, min, 0, max, x);
    var (p, q) := RunGreedy(e, pc + 17, x.pos, 0, Limit(max));
    assert Greedily(e, pc + 17, x.pos, 0, max) == (p, q);
    var i := SimpleGreedy(next, min, Limit(max), count);
    var rs := Listed(e.s, m, cc, min, Left(max, min), x);
    forall bt
      ensures Offers(e, At(pc, x, st, bt), rs, pc', st, bt)
    {
      var c := At(pc, x, st, bt);
      GreedyStep(e, pc, i, x, st, bt, pc');
      if q < min {
        OffersIf(e, c, false, x, pc', st, bt);
      } else if q == min {
        assert [] + bt == bt;
        DownZero(e.s, x, count, p);
        OffersIf(e, c, true, x.(pos := p), pc', st, bt);
      } else {
        CanBackLess(e.s, count, p, q, q - min);
        GreedyBack(e, pc, i, x, p, st, q - min, bt, pc');
        DownCons(e.s, x, count, p, q - min);
        OffersCons(e, c, rs, [GreedyTo(pc, x, p, st, q - min)], pc', st, bt);
      }
    }
  }

  lemma {:induction false} CanBackLess(s: Subject, count: nat, p: nat, j: nat, k: nat)
    requires p <= |s.input| && CanBackN(s, count, p, j) && k <= j
    ensures CanBackN(s, count, p, k)
    decreases k
  {
    hide GoBack, CanGoBack;
    if k > 0 {
      CanBackLess(s, count, GoBack(s, p, count), j - 1, k - 1);
    }
  }

  lemma {:induction false} OffersCons(e: Env, c: Vm, rs: seq<State>, ext: seq<Frame>, pc: nat, st: seq<nat>, bt: seq<Frame>)
    requires NoLook(ext) && rs != [] && Step(e, c) == At(pc, rs[0], st, ext + bt)
    requires Offers(e, Fail(ext + bt), rs[1..], pc, st, bt)
    ensures Offers(e, c, rs, pc, st, bt)
  {
    hide Step, Reaches;
    ReachRefl(e, Step(e, c));
    ReachStep(e, c, Step(e, c));
  }
}
