/** The machine offers the results of the reference matcher, in order. */
module ReCorrect {
  import opened ReCode
  import opened ReSyntax
  import opened ReMatch
  import opened ReVm
  import opened ReLaws
  import opened ReRun
  import opened ReRange

  /** A subject of 8- or 16-bit units. */
  ghost predicate SubjectOk(s: Subject) {
    forall c | c in s.input :: c < 0x1_0000
  }

  /** Results of f after each of xs. */
  ghost function Flat(xs: seq<State>, f: State -> seq<State>): seq<State> {
    if xs == [] then [] else f(xs[0]) + Flat(xs[1..], f)
  }

  /** From pcm the machine offers f(x), for each of xs, whatever is on the backtrack stack. */
  ghost predicate Continues(e: Env, pcm: nat, stm: seq<nat>, xs: seq<State>, f: State -> seq<State>, pc: nat, st: seq<nat>) {
    forall x, bt :: x in xs ==> Offers(e, At(pcm, x, stm, bt), f(x), pc, st, bt)
  }

  /** Sequential composition of offers. */
  lemma {:induction false} OffersBind(e: Env, c: Vm, xs: seq<State>, f: State -> seq<State>, pcm: nat, stm: seq<nat>,
                                      pc: nat, st: seq<nat>, bt: seq<Frame>)
    requires Offers(e, c, xs, pcm, stm, bt) && Continues(e, pcm, stm, xs, f, pc, st)
    ensures Offers(e, c, Flat(xs, f), pc, st, bt)
    decreases |xs|
  {
    hide Step, Reaches;
    if xs != [] {
      var ext: seq<Frame> :| NoLook(ext) && Reaches(e, c, At(pcm, xs[0], stm, ext + bt)) &&
                             Offers(e, Fail(ext + bt), xs[1..], pcm, stm, bt);
      assert xs[0] in xs;
      OffersFrom(e, c, At(pcm, xs[0], stm, ext + bt), f(xs[0]), pc, st, ext + bt);
      OffersBind(e, Fail(ext + bt), xs[1..], f, pcm, stm, pc, st, bt);
      OffersAppend(e, c, f(xs[0]), Flat(xs[1..], f), pc, st, ext, bt);
    }
  }

  lemma {:induction false} ResultsAllFlat(s: Subject, n: Node, back: bool, cc: nat, xs: seq<State>)
    ensures ResultsAll(s, n, back, cc, xs) == Flat(xs, y => Results(s, n, back, cc, y))
  {
    if xs != [] {
      ResultsAllFlat(s, n, back, cc, xs[1..]);
    }
  }

  /** Every compiled fragment leaves the counter stack as deep as it found it. */
  lemma {:induction false} Balanced(n: Node, back: bool, cc: nat, d: int)
    ensures EndDepth(Compile(n, back, cc), d) == d
    decreases n
  {
    hide EndDepth, CodeSize, Compile;
    match n
    case Cat(l, r) =>
      Balanced(l, back, cc, d);
      Balanced(r, back, cc + NumCaps(l), d);
      BalancedPair(l, r, back, cc, d);
    case Alt(l, r) =>
      Balanced(l, back, cc, d);
      Balanced(r, back, cc + NumCaps(l), d);
      BalancedPair(l, r, back, cc, d);
    case Group(m) =>
      Balanced(m, back, cc + 1, d);
      BalancedGroup(m, back, cc, d);
    case Look(neg, b, m) =>
      Balanced(m, b, cc, d);
      BalancedLook(neg, b, m, back, cc, d);
    case Quant(m, min, max, greedy) =>
      Balanced(m, back, cc, d);
      Balanced(m, back, cc, d + 1);
      BalancedQuant(Compile(m, back, cc), min, max, greedy, ResetCode(m, min, cc), d);
      QuantIsCode(n, back, cc);
    case _ =>
      BalancedLeaf(n, back, cc, d);
  }

  lemma {:induction false} CatIsCode(l: Node, r: Node, back: bool, cc: nat)
    ensures var cl, cr := Compile(l, back, cc), Compile(r, back, cc + NumCaps(l));
            Compile(Cat(l, r), back, cc) == if back then cr + cl else cl + cr
  {
    hide QuantCode, TestCode, CodeSize, NumCaps;
  }

  lemma {:induction false} AltIsCode(l: Node, r: Node, back: bool, cc: nat)
    ensures var cl, cr := Compile(l, back, cc), Compile(r, back, cc + NumCaps(l));
            Compile(Alt(l, r), back, cc) == [SplitNextFirst(CodeSize(cl) + 5)] + cl + [Goto(CodeSize(cr))] + cr
  {
    hide QuantCode, TestCode, CodeSize, NumCaps;
  }

  lemma {:induction false} QuantIsCode(n: Node, back: bool, cc: nat)
    requires n.Quant?
    ensures Compile(n, back, cc) == QuantCode(Compile(n.n, back, cc), n.min, n.max, n.greedy, ResetCode(n.n, n.min, cc))
  {
    hide QuantCode, TestCode, CodeSize, NumCaps;
  }

  lemma {:induction false} BalancedLeaf(n: Node, back: bool, cc: nat, d: int)
    requires !n.Cat? && !n.Alt? && !n.Group? && !n.Look? && !n.Quant?
    ensures EndDepth(Compile(n, back, cc), d) == d
  {
    hide EndDepth, TestCode;
    EmptyDepth(d);
    match n
    case Atom(t) =>
      var i := TestCode(t);
      TestIsFlat(t);
      Depth2([i], [], d);
      assert [Prev, i, Prev] == [Prev] + [i] + [Prev];
      Depth3([Prev], [i], [Prev], d);
    case BeginLine => Depth2([LineStart], [], d);
    case EndLine => Depth2([LineEnd], [], d);
    case WordEdge(neg) => Depth2([if neg then NotWordBoundary else WordBoundary], [], d);
    case BackReference(g) => Depth2([if back then BackwardBackRef(g) else BackRef(g)], [], d);
    case _ =>
  }

  lemma {:induction false} BalancedPair(l: Node, r: Node, back: bool, cc: nat, d: int)
    requires EndDepth(Compile(l, back, cc), d) == d && EndDepth(Compile(r, back, cc + NumCaps(l)), d) == d
    ensures EndDepth(Compile(Cat(l, r), back, cc), d) == d && EndDepth(Compile(Alt(l, r), back, cc), d) == d
  {
    hide EndDepth, CodeSize, Compile, MaxDepth;
    CatIsCode(l, r, back, cc);
    AltIsCode(l, r, back, cc);
    var cl, cr := Compile(l, back, cc), Compile(r, back, cc + NumCaps(l));
    Depth2(cl, cr, d);
    Depth2(cr, cl, d);
    Depth4([SplitNextFirst(CodeSize(cl) + 5)], cl, [Goto(CodeSize(cr))], cr, d);
  }

  lemma {:induction false} BalancedGroup(m: Node, back: bool, cc: nat, d: int)
    requires EndDepth(Compile(m, back, cc + 1), d) == d
    ensures EndDepth(Compile(Group(m), back, cc), d) == d
  {
    hide EndDepth;
    var a := Compile(m, back, cc + 1);
    Depth3([SaveEnd(cc)], a, [SaveStart(cc)], d);
    Depth3([SaveStart(cc)], a, [SaveEnd(cc)], d);
  }

  lemma {:induction false} BalancedLook(neg: bool, b: bool, m: Node, back: bool, cc: nat, d: int)
    requires EndDepth(Compile(m, b, cc), d) == d
    ensures EndDepth(Compile(Look(neg, b, m), back, cc), d) == d
  {
    hide EndDepth, CodeSize;
    var a := Compile(m, b, cc);
    Depth3([if neg then NegLookahead(CodeSize(a) + 1) else Lookahead(CodeSize(a) + 1)], a, [Match], d);
  }

  lemma {:induction false} TestIsFlat(t: Test)
    ensures Delta(TestCode(t)) == 0
  {
  }

  lemma {:induction false} Depth2(a: seq<Instr>, b: seq<Instr>, d: int)
    ensures EndDepth(a + b, d) == EndDepth(b, EndDepth(a, d))
    ensures |a| == 1 ==> EndDepth(a, d) == d + Delta(a[0])
    ensures |b| == 1 ==> EndDepth(b, EndDepth(a, d)) == EndDepth(a, d) + Delta(b[0])
    ensures |b| == 0 ==> EndDepth(a + b, d) == EndDepth(a, d)
  {
    DepthAppend(a, b, d);
    if |a| == 1 {
      assert a[1..] == [];
    }
    if |b| == 1 {
      assert b[1..] == [];
    }
  }

  lemma {:induction false} Depth3(a: seq<Instr>, b: seq<Instr>, c: seq<Instr>, d: int)
    ensures EndDepth(a + b + c, d) == EndDepth(c, EndDepth(b, EndDepth(a, d)))
    ensures |a| == 1 ==> EndDepth(a, d) == d + Delta(a[0])
    ensures |c| == 1 ==> EndDepth(a + b + c, d) == EndDepth(b, EndDepth(a, d)) + Delta(c[0])
    ensures |b| == 1 ==> EndDepth(b, EndDepth(a, d)) == EndDepth(a, d) + Delta(b[0])
  {
    Depth2(a + b, c, d);
    Depth2(a, b, d);
  }

  lemma {:induction false} Depth4(a: seq<Instr>, b: seq<Instr>, c: seq<Instr>, x: seq<Instr>, d: int)
    ensures EndDepth(a + b + c + x, d) == EndDepth(x, EndDepth(c, EndDepth(b, EndDepth(a, d))))
    ensures |a| == 1 ==> EndDepth(a, d) == d + Delta(a[0])
    ensures |c| == 1 ==> EndDepth(a + b + c + x, d) == EndDepth(x, EndDepth(b, EndDepth(a, d)) + Delta(c[0]))
    ensures |x| == 1 ==> EndDepth(a + b + c + x, d) == EndDepth(c, EndDepth(b, EndDepth(a, d))) + Delta(x[0])
  {
    Depth2(a + b + c, x, d);
    Depth3(a, b, c, d);
  }

  lemma {:induction false} BalancedQuant(a: seq<Instr>, min: nat, max: Option<nat>, greedy: bool, reset: seq<Instr>, d: int)
    requires EndDepth(a, d) == d && EndDepth(a, d + 1) == d + 1
    requires reset == [] || (|reset| == 1 && reset[0].SaveReset?)
    ensures EndDepth(QuantCode(a, min, max, greedy, reset), d) == d
  {
    hide EndDepth, CodeSize, StarCode, UpToCode, TimesCode;
    var len: int := CodeSize(a);
    Depth3([SimpleGreedy(len + 1, min, if max.Some? then max.value else INFINITE, 1)], a, [Match], d);
    if SimpleCount(a).Some? {
      Depth3([SimpleGreedy(len + 1, min, if max.Some? then max.value else INFINITE, SimpleCount(a).value)], a, [Match], d);
    }
    Depth2(reset, [], d);
    EmptyDepth(d);
    Depth2([Split(greedy, len)], a, d);
    Depth2(reset, [Split(greedy, len)] + a, d);
    StarBalanced(a, greedy, d);
    Depth2(reset, StarCode(a, greedy), d);
    Depth2(a, [if greedy then SplitGotoFirst(-(len + 5)) else SplitNextFirst(-(len + 5))], d);
    TimesBalanced(a, min, d);
    Depth2(TimesCode(a, min), StarCode(a, greedy), d);
    Depth2(TimesCode(a, min), [], d);
    if max.Some? {
      UpToBalanced(a, max.value, greedy, d);
      Depth2(reset, UpToCode(a, max.value, greedy), d);
      if max.value > min {
        UpToBalanced(a, max.value - min, greedy, d);
        Depth2(TimesCode(a, min), UpToCode(a, max.value - min, greedy), d);
      }
    }
  }

  lemma {:induction false} EmptyDepth(d: int)
    ensures EndDepth([], d) == d
  {
  }

  lemma {:induction false} StarBalanced(a: seq<Instr>, greedy: bool, d: int)
    requires EndDepth(a, d) == d && EndDepth(a, d + 1) == d + 1
    ensures EndDepth(StarCode(a, greedy), d) == d
  {
    hide EndDepth, CodeSize;
    var len: int := CodeSize(a);
    var i, j, k := Split(greedy, len + 6), Split(greedy, len + 5), BneCharPos(-(len + 11));
    assert [i, PushCharPos] == [i] + [PushCharPos];
    Depth2([i], [PushCharPos], d);
    Depth3([i, PushCharPos], a, [k], d);
    Depth3([j], a, [Goto(-(len + 10))], d);
  }

  lemma {:induction false} UpToBalanced(a: seq<Instr>, k: nat, greedy: bool, d: int)
    requires EndDepth(a, d + 1) == d + 1
    ensures EndDepth(UpToCode(a, k, greedy), d) == d
  {
    hide EndDepth, CodeSize;
    var len: int := CodeSize(a);
    var i, l := Split(greedy, len + 5), Loop(-(len + 10));
    assert [PushI32(k), i] == [PushI32(k)] + [i] && [l, Drop] == [l] + [Drop];
    Depth2([PushI32(k)], [i], d);
    Depth2([l], [Drop], d + 1);
    Depth3([PushI32(k), i], a, [l, Drop], d);
  }

  lemma {:induction false} TimesBalanced(a: seq<Instr>, k: nat, d: int)
    requires EndDepth(a, d) == d && EndDepth(a, d + 1) == d + 1
    ensures EndDepth(TimesCode(a, k), d) == d
  {
    hide EndDepth, CodeSize;
    var len: int := CodeSize(a);
    var l := Loop(-(len + 5));
    assert [l, Drop] == [l] + [Drop];
    Depth2([l], [Drop], d + 1);
    Depth3([PushI32(k)], a, [l, Drop], d);
  }

  /** A configuration that steps to the continuation, or to failure. */
  lemma {:induction false} OffersIf(e: Env, c: Vm, ok: bool, r: State, pc: nat, st: seq<nat>, bt: seq<Frame>)
    requires Step(e, c) == if ok then At(pc, r, st, bt) else Fail(bt)
    ensures Offers(e, c, if ok then [r] else [], pc, st, bt)
  {
    hide Step, Offers, Reaches;
    ReachRefl(e, Step(e, c));
    ReachStep(e, c, Step(e, c));
    if ok {
      OffersOne(e, c, r, pc, st, bt);
    } else {
      OffersNone(e, c, pc, st, bt);
    }
  }

  /** A character read by any unit sequence is a code point. */
  lemma {:induction false} CharBound(s: Subject, pos: nat)
    requires SubjectOk(s) && pos < |s.input|
    ensures GetChar(s, pos) <= 0x10_ffff
  {
    assert s.input[pos] in s.input;
  }

  /** The step taken at a fetched instruction. */
  lemma {:induction false} FetchedStep(e: Env, c: Vm, i: Instr)
    requires c.Run? && Fetch(e.code, c.pc) == Some(i) && c.pos <= |e.s.input|
    ensures IsCharOp(i) ==>
              Step(e, c) == if c.pos < |e.s.input| && CharTest(i, GetChar(e.s, c.pos))
                            then c.(pc := c.pc + Size(i), pos := NextPos(e.s, c.pos)) else Fail(c.bt)
    ensures IsAssertOp(i) ==>
              Step(e, c) == if AssertTest(i, e.s, c.pos) then c.(pc := c.pc + Size(i)) else Fail(c.bt)
    ensures !IsCharOp(i) && !IsAssertOp(i) ==> Step(e, c) == StepControl(e, c, i)
  {
    hide Fetch, Size, CharTest, AssertTest, StepControl, GetChar, NextPos;
  }

  lemma {:induction false} ForwardAtom(e: Env, t: Test, pc: nat, x: State, st: seq<nat>, bt: seq<Frame>)
    requires SubjectOk(e.s) && NodeOk(Atom(t), false, 0) && Placed(e, pc, [TestCode(t)], |st|) && x.pos <= |e.s.input|
    ensures var ok := x.pos < |e.s.input| && Accepts(t, GetChar(e.s, x.pos));
            Offers(e, At(pc, x, st, bt), if ok then [x.(pos := NextPos(e.s, x.pos))] else [],
                   pc + CodeSize([TestCode(t)]), st, bt)
  {
    hide TestCode, CharTest, Accepts, Placed, Offers, Step, Size, NodeOk, CodeSize, Fetch;
    var i := TestCode(t);
    PlacedOne(e, pc, i, |st|);
    TestCorrect(t, 0);
    FetchedStep(e, At(pc, x, st, bt), i);
    var ok := x.pos < |e.s.input| && Accepts(t, GetChar(e.s, x.pos));
    if x.pos < |e.s.input| {
      CharBound(e.s, x.pos);
      TestCorrect(t, GetChar(e.s, x.pos));
    }
    OffersIf(e, At(pc, x, st, bt), ok, if ok then x.(pos := NextPos(e.s, x.pos)) else x, pc + Size(i), st, bt);
  }

  lemma {:induction false} PlacedOne(e: Env, pc: nat, i: Instr, d: int)
    requires Placed(e, pc, [i], d)
    ensures Fetch(e.code, pc) == Some(i) && CodeSize([i]) == Size(i) && Encodable(i) && d + Delta(i) <= e.maxStack
  {
    hide Size, Fetch, Encodable, Placed;
    PlacedHead(e, pc, [i], d);
    assert [i][1..] == [];
  }

  /** Moving to a position is the only result. */
  ghost function MoveTo(p: nat): State -> seq<State> {
    (w: State) => [w.(pos := p)]
  }

  /** A backward atom: step back, read, step back over what was read. */
  lemma {:induction false} BackwardAtom(e: Env, t: Test, pc: nat, x: State, st: seq<nat>, bt: seq<Frame>)
    requires SubjectOk(e.s) && NodeOk(Atom(t), false, 0) && Placed(e, pc, [Prev, TestCode(t), Prev], |st|)
    requires x.pos <= |e.s.input|
    ensures var ok := x.pos > 0 && Accepts(t, GetChar(e.s, PrevPos(e.s, x.pos)));
            Offers(e, At(pc, x, st, bt), if ok then [x.(pos := PrevPos(e.s, x.pos))] else [],
                   pc + CodeSize([Prev, TestCode(t), Prev]), st, bt)
  {
    hide TestCode, Accepts, Placed, Offers, Step, Size, NodeOk, CodeSize, Fetch, PrevPos, NextPos, GetChar;
    var i := TestCode(t);
    var c := At(pc, x, st, bt);
    assert [Prev, i, Prev] == [Prev] + ([i] + [Prev]);
    PlacedAppend(e, pc, [Prev], [i] + [Prev], |st|);
    PlacedOne(e, pc, Prev, |st|);
    EndOne(Prev, |st|);
    PlacedAppend(e, pc + Size(Prev), [i], [Prev], |st|);
    TestIsFlat(t);
    EndOne(i, |st|);
    FetchedStep(e, c, Prev);
    var pc' := pc + CodeSize([Prev, i, Prev]);
    if x.pos == 0 {
      OffersIf(e, c, false, x, pc', st, bt);
    } else {
      var y := x.(pos := PrevPos(e.s, x.pos));
      ForwardAtom(e, t, pc + Size(Prev), y, st, bt);
      if Accepts(t, GetChar(e.s, y.pos)) {
        var z := y.(pos := NextPos(e.s, y.pos));
        PrevIsBoundary(e.s, x.pos);
        var pcm := pc + Size(Prev) + CodeSize([i]);
        PlacedOne(e, pcm, Prev, |st|);
        BackOver(e, pcm, z, y, pc', st);
        OffersBind(e, At(pc + Size(Prev), y, st, bt), [z], MoveTo(y.pos), pcm, st, pc', st, bt);
        assert Flat([z], MoveTo(y.pos)) == [y];
      } else {
        OffersNone2(e, At(pc + Size(Prev), y, st, bt), pc + Size(Prev) + CodeSize([i]), pc', st, bt);
      }
      OffersStep(e, c, if Accepts(t, GetChar(e.s, y.pos)) then [y] else [], pc', st, bt);
    }
  }

  lemma {:induction false} EndOne(i: Instr, d: int)
    ensures EndDepth([i], d) == d + Delta(i)
  {
    assert [i][1..] == [];
  }

  lemma {:induction false} OffersNone2(e: Env, c: Vm, pc: nat, pc': nat, st: seq<nat>, bt: seq<Frame>)
    requires Offers(e, c, [], pc, st, bt)
    ensures Offers(e, c, [], pc', st, bt)
  {
    hide Step;
  }

  lemma {:induction false} BackOver(e: Env, pc: nat, z: State, y: State, pc': nat, st: seq<nat>)
    requires Fetch(e.code, pc) == Some(Prev) && pc' == pc + Size(Prev)
    requires 0 < z.pos <= |e.s.input| && PrevPos(e.s, z.pos) == y.pos
    ensures Continues(e, pc, st, [z], MoveTo(y.pos), pc', st)
  {
    hide Offers, Step, PrevPos, Fetch;
    var f := MoveTo(y.pos);
    forall w, bt | w in [z]
      ensures Offers(e, At(pc, w, st, bt), f(w), pc', st, bt)
    {
      FetchedStep(e, At(pc, w, st, bt), Prev);
      OffersIf(e, At(pc, w, st, bt), true, w.(pos := y.pos), pc', st, bt);
    }
  }
}
