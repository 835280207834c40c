/** Compiled code does what the pattern says, constructor by constructor. */
module ReMain {
  import opened ReCode
  import opened ReSyntax
  import opened ReMatch
  import opened ReUnfold
  import opened ReVm
  import opened ReLaws
  import opened ReRun
  import opened ReCorrect
  import opened ReLoops
  import opened ReGreedy

  lemma {:induction false} OkInside(s: Subject, x: State, nc: nat)
    requires StateOk(s, x, nc)
    ensures x.pos <= |s.input| && Boundary(s, x.pos) && |x.caps| == 2 * nc
  {
  }

  lemma {:induction false} ResultsAllOk2(s: Subject, n: Node, back: bool, cc: nat, x: State, nc: nat)
    requires StateOk(s, x, nc)
    ensures forall y | y in Results(s, n, back, cc, x) :: StateOk(s, y, nc)
  {
    hide Results, StateOk;
    ResultsOk(s, n, back, cc, x, nc);
  }

  /** A pattern's code, wherever it is placed. */
  ghost predicate AtomOk(e: Env, m: Node, back: bool, cc: nat, nc: nat) {
    forall pc: nat, d: nat :: Placed(e, pc, Compile(m, back, cc), d) ==>
      Matches(e, m, back, cc, pc, pc + CodeSize(Compile(m, back, cc)), d, nc)
  }

  lemma {:induction false} AtomMatches(e: Env, m: Node, back: bool, cc: nat, nc: nat, pc: nat, len: nat, d: nat)
    requires AtomOk(e, m, back, cc, nc) && Placed(e, pc, Compile(m, back, cc), d) && len == CodeSize(Compile(m, back, cc))
    ensures Matches(e, m, back, cc, pc, pc + len, d, nc)
  {
    hide Placed, Matches, CodeSize, Compile;
  }

  lemma {:induction false} DoesIt(e: Env, n: Node, back: bool, cc: nat, pc: nat, pc': nat, d: nat, nc: nat)
    requires forall x, st: seq<nat> | StateOk(e.s, x, nc) && |st| == d :: Gives(e, pc, x, st, Results(e.s, n, back, cc, x), pc', st)
    ensures Matches(e, n, back, cc, pc, pc', d, nc)
  {
    hide Gives, StateOk, Results;
  }

  /** Each result goes on to one other state. */
  lemma {:induction false} GivesMoves(e: Env, pc: nat, x: State, st: seq<nat>, rs: seq<State>, pcm: nat, stm: seq<nat>,
                                      f: State -> seq<State>, ys: seq<State>, pc': nat, st': seq<nat>)
    requires Gives(e, pc, x, st, rs, pcm, stm) && |ys| == |rs|
    requires forall k | 0 <= k < |rs| :: f(rs[k]) == [ys[k]] && Moves(e, pcm, rs[k], stm, pc', ys[k], st')
    ensures Gives(e, pc, x, st, ys, pc', st')
  {
    hide Gives, Moves;
    forall y | y in rs
      ensures Gives(e, pcm, y, stm, f(y), pc', st')
    {
      var k :| 0 <= k < |rs| && rs[k] == y;
      MovesTo(e, pcm, y, stm, pc', ys[k], st');
    }
    GivesThen(e, pc, x, st, rs, pcm, stm, f, pc', st');
    FlatOnes(rs, f, ys);
  }

  lemma {:induction false} FlatOnes(rs: seq<State>, f: State -> seq<State>, ys: seq<State>)
    requires |ys| == |rs| && forall k | 0 <= k < |rs| :: f(rs[k]) == [ys[k]]
    ensures Flat(rs, f) == ys
  {
    if rs != [] {
      FlatOnes(rs[1..], f, ys[1..]);
    }
  }

  lemma {:induction false} CompiledAtom(e: Env, t: Test, back: bool, cc: nat, pc: nat, d: nat, nc: nat)
    requires SubjectOk(e.s) && NodeOk(Atom(t), back, cc) && Placed(e, pc, Compile(Atom(t), back, cc), d)
    ensures Matches(e, Atom(t), back, cc, pc, pc + CodeSize(Compile(Atom(t), back, cc)), d, nc)
  {
    hide Placed, CodeSize, Compile, NodeOk, TestCode, Results, StateOk, SubjectOk, Accepts, GetChar, NextPos, PrevPos, Offers, Matches;
    var code := Compile(Atom(t), back, cc);
    var pc' := pc + CodeSize(code);
    forall x, st: seq<nat> | StateOk(e.s, x, nc) && |st| == d
      ensures Gives(e, pc, x, st, Results(e.s, Atom(t), back, cc, x), pc', st)
    {
      OkInside(e.s, x, nc);
      AtomUnfold(e.s, t, back, cc, x);
      var rs := Results(e.s, Atom(t), back, cc, x);
      forall bt
        ensures Offers(e, At(pc, x, st, bt), rs, pc', st, bt)
      {
        if back {
          BackwardAtom(e, t, pc, x, st, bt);
        } else {
          ForwardAtom(e, t, pc, x, st, bt);
        }
      }
    }
    DoesIt(e, Atom(t), back, cc, pc, pc', d, nc);
  }

  lemma {:induction false} CompiledAssert(e: Env, m: Node, back: bool, cc: nat, pc: nat, d: nat, nc: nat)
    requires IsAssertion(m) && Placed(e, pc, Compile(m, back, cc), d)
    ensures Matches(e, m, back, cc, pc, pc + CodeSize(Compile(m, back, cc)), d, nc)
  {
    hide Placed, CodeSize, Compile, Results, StateOk, Offers, Matches, AssertTest, AssertOp, Fetch, Size, Step;
    var i := AssertOp(m);
    var pc' := pc + CodeSize(Compile(m, back, cc));
    forall x, st: seq<nat> | StateOk(e.s, x, nc) && |st| == d
      ensures Gives(e, pc, x, st, Results(e.s, m, back, cc, x), pc', st)
    {
      OkInside(e.s, x, nc);
      AssertUnfold(e.s, m, back, cc, x);
      PlacedOne(e, pc, i, d);
      var rs := Results(e.s, m, back, cc, x);
      forall bt
        ensures Offers(e, At(pc, x, st, bt), rs, pc', st, bt)
      {
        FetchedStep(e, At(pc, x, st, bt), i);
        OffersIf(e, At(pc, x, st, bt), AssertTest(i, e.s, x.pos), x, pc', st, bt);
      }
    }
    DoesIt(e, m, back, cc, pc, pc', d, nc);
  }

  /** In a well-formed state the captured text lies in the subject. */
  lemma {:induction false} BackRefStep(e: Env, pc: nat, g: nat, back: bool, x: State, st: seq<nat>, bt: seq<Frame>, nc: nat)
    requires Fetch(e.code, pc) == Some(if back then BackwardBackRef(g) else BackRef(g)) && StateOk(e.s, x, nc)
    ensures var p := RefersTo(e.s, g, back, x);
            Step(e, At(pc, x, st, bt)) == if p.Some? then At(pc + 2, x.(pos := p.value), st, bt) else Fail(bt)
  {
    hide Fetch, Step, RunGreedy, ResetCaps, RefersTo;
    OkInside(e.s, x, nc);
    FetchedStep(e, At(pc, x, st, bt), if back then BackwardBackRef(g) else BackRef(g));
    assert State(x.pos, x.caps) == x;
  }

  lemma {:induction false} CompiledBack(e: Env, g: nat, back: bool, cc: nat, pc: nat, d: nat, nc: nat)
    requires Placed(e, pc, Compile(BackReference(g), back, cc), d)
    ensures Matches(e, BackReference(g), back, cc, pc, pc + CodeSize(Compile(BackReference(g), back, cc)), d, nc)
  {
    hide Placed, CodeSize, Compile, Results, StateOk, Offers, Matches, Fetch, Size, Step, RefersTo;
    var i := if back then BackwardBackRef(g) else BackRef(g);
    BackUnfold(e.s, g, back, cc, State(0, []));
    PlacedOne(e, pc, i, d);
    var pc' := pc + CodeSize([i]);
    assert pc' == pc + 2 by { BackSize(g, back); }
    forall x, st: seq<nat> | StateOk(e.s, x, nc) && |st| == d
      ensures Gives(e, pc, x, st, Results(e.s, BackReference(g), back, cc, x), pc', st)
    {
      BackUnfold(e.s, g, back, cc, x);
      var p := RefersTo(e.s, g, back, x);
      forall bt
        ensures Offers(e, At(pc, x, st, bt), Results(e.s, BackReference(g), back, cc, x), pc', st, bt)
      {
        BackRefStep(e, pc, g, back, x, st, bt, nc);
        OffersIf(e, At(pc, x, st, bt), p.Some?, if p.Some? then x.(pos := p.value) else x, pc', st, bt);
      }
    }
    DoesIt(e, BackReference(g), back, cc, pc, pc', d, nc);
  }

  lemma {:induction false} BackSize(g: nat, back: bool)
    ensures Size(if back then BackwardBackRef(g) else BackRef(g)) == 2
  {
  }

  lemma {:induction false} CompiledEmpty(e: Env, back: bool, cc: nat, pc: nat, d: nat, nc: nat)
    ensures Matches(e, Empty, back, cc, pc, pc + CodeSize(Compile(Empty, back, cc)), d, nc)
  {
    hide Results, Gives, Matches, StateOk, Compile;
    forall x, st: seq<nat> | StateOk(e.s, x, nc) && |st| == d
      ensures Gives(e, pc, x, st, Results(e.s, Empty, back, cc, x), pc + CodeSize(Compile(Empty, back, cc)), st)
    {
      EmptyUnfold(e.s, back, cc, x);
      Arrived(e, pc, x, st);
    }
    DoesIt(e, Empty, back, cc, pc, pc + CodeSize(Compile(Empty, back, cc)), d, nc);
  }

  /** One pattern after another, in the order of execution. */
  lemma {:induction false} ThenMatches(e: Env, p: Node, q: Node, back: bool, cp: nat, cq: nat, pc: nat, pcm: nat, pc': nat,
                                       x: State, st: seq<nat>, nc: nat)
    requires Matches(e, p, back, cp, pc, pcm, |st|, nc) && Matches(e, q, back, cq, pcm, pc', |st|, nc) && StateOk(e.s, x, nc)
    ensures Gives(e, pc, x, st, ResultsAll(e.s, q, back, cq, Results(e.s, p, back, cp, x)), pc', st)
  {
    hide Gives, Matches, StateOk, Results, ResultsAll, Flat;
    var rs := Results(e.s, p, back, cp, x);
    MatchesAt(e, p, back, cp, pc, pcm, nc, x, st);
    ResultsAllOk2(e.s, p, back, cp, x, nc);
    var f := y => Results(e.s, q, back, cq, y);
    forall y | y in rs
      ensures Gives(e, pcm, y, st, f(y), pc', st)
    {
      MatchesAt(e, q, back, cq, pcm, pc', nc, y, st);
    }
    GivesThen(e, pc, x, st, rs, pcm, st, f, pc', st);
    ResultsAllFlat(e.s, q, back, cq, rs);
  }

  lemma {:induction false} CompiledCat(e: Env, l: Node, r: Node, back: bool, cc: nat, pc: nat, d: nat, nc: nat)
    requires Placed(e, pc, Compile(Cat(l, r), back, cc), d)
    requires AtomOk(e, l, back, cc, nc) && AtomOk(e, r, back, cc + NumCaps(l), nc)
    ensures Matches(e, Cat(l, r), back, cc, pc, pc + CodeSize(Compile(Cat(l, r), back, cc)), d, nc)
  {
    hide Placed, CodeSize, Compile, Results, ResultsAll, StateOk, Gives, Matches, NumCaps, AtomOk, EndDepth;
    var (p, q, cp, cq) := if back then (r, l, cc + NumCaps(l), cc) else (l, r, cc, cc + NumCaps(l));
    var a, b := Compile(p, back, cp), Compile(q, back, cq);
    CatUnfold(e.s, l, r, back, cc, State(0, []));
    PlacedAppend(e, pc, a, b, d);
    Balanced(p, back, cp, d);
    AtomMatches(e, p, back, cp, nc, pc, CodeSize(a), d);
    AtomMatches(e, q, back, cq, nc, pc + CodeSize(a), CodeSize(b), d);
    var pc' := pc + CodeSize(a) + CodeSize(b);
    forall x, st: seq<nat> | StateOk(e.s, x, nc) && |st| == d
      ensures Gives(e, pc, x, st, Results(e.s, Cat(l, r), back, cc, x), pc', st)
    {
      CatUnfold(e.s, l, r, back, cc, x);
      ThenMatches(e, p, q, back, cp, cq, pc, pc + CodeSize(a), pc', x, st, nc);
    }
    DoesIt(e, Cat(l, r), back, cc, pc, pc', d, nc);
  }

  /** A single result, unchanged. */
  ghost function Just(): State -> seq<State> {
    (y: State) => [y]
  }

  lemma {:induction false} CompiledAlt(e: Env, l: Node, r: Node, back: bool, cc: nat, pc: nat, d: nat, nc: nat)
    requires Placed(e, pc, Compile(Alt(l, r), back, cc), d)
    requires AtomOk(e, l, back, cc, nc) && AtomOk(e, r, back, cc + NumCaps(l), nc)
    ensures Matches(e, Alt(l, r), back, cc, pc, pc + CodeSize(Compile(Alt(l, r), back, cc)), d, nc)
  {
    hide Placed, CodeSize, Compile, Results, StateOk, Gives, Matches, NumCaps, AtomOk, EndDepth, Moves, Fetch;
    var cr := cc + NumCaps(l);
    var a, b := Compile(l, back, cc), Compile(r, back, cr);
    var m, n := CodeSize(a), CodeSize(b);
    AltUnfold(e.s, l, r, back, cc, State(0, []));
    var i, j := SplitNextFirst(m + 5), Goto(n);
    assert [i] + a + [j] + b == [i] + (a + ([j] + b));
    PlacedCons(e, pc, i, a + ([j] + b), d);
    Balanced(l, back, cc, d);
    PlacedThen(e, pc + 5, a, j, b, d);
    AtomMatches(e, l, back, cc, nc, pc + 5, m, d);
    AtomMatches(e, r, back, cr, nc, pc + 10 + m, n, d);
    var pc' := pc + 10 + m + n;
    forall x, st: seq<nat> | StateOk(e.s, x, nc) && |st| == d
      ensures Gives(e, pc, x, st, Results(e.s, Alt(l, r), back, cc, x), pc', st)
    {
      AltUnfold(e.s, l, r, back, cc, x);
      OkInside(e.s, x, nc);
      var xs, ys := Results(e.s, l, back, cc, x), Results(e.s, r, back, cr, x);
      MatchesAt(e, l, back, cc, pc + 5, pc + 5 + m, nc, x, st);
      MatchesAt(e, r, back, cr, pc + 10 + m, pc', nc, x, st);
      ResultsAllOk2(e.s, l, back, cc, x, nc);
      forall k | 0 <= k < |xs|
        ensures Moves(e, pc + 5 + m, xs[k], st, pc', xs[k], st)
      {
        OkInside(e.s, xs[k], nc);
        GotoMoves(e, pc + 5 + m, n, xs[k], st, pc');
      }
      GivesMoves(e, pc + 5, x, st, xs, pc + 5 + m, st, Just(), xs, pc', st);
      SplitGives(e, pc, true, m + 5, x, st, xs, ys, pc + 10 + m, pc', st);
    }
    DoesIt(e, Alt(l, r), back, cc, pc, pc', d, nc);
  }

  /** A save instruction records the position. */
  lemma {:induction false} SaveMoves(e: Env, pc: nat, i: Instr, k: nat, x: State, st: seq<nat>)
    requires Fetch(e.code, pc) == Some(i) && x.pos <= |e.s.input| && 2 * k + 1 < |x.caps| && (i == SaveStart(k) || i == SaveEnd(k))
    ensures Moves(e, pc, x, st, pc + 2, SetCap(x, if i == SaveStart(k) then 2 * k else 2 * k + 1), st)
  {
    hide Fetch, Step, RunGreedy, ResetCaps;
    forall bt
      ensures Step(e, At(pc, x, st, bt)) == At(pc + 2, SetCap(x, if i == SaveStart(k) then 2 * k else 2 * k + 1), st, bt)
    {
      FetchedStep(e, At(pc, x, st, bt), i);
    }
  }

  ghost function Setting(i: nat): State -> seq<State> {
    (y: State) => [SetCap(y, i)]
  }

  lemma {:induction false} SetAllAt(xs: seq<State>, i: nat, k: nat)
    requires k < |xs|
    ensures SetAll(xs, i)[k] == SetCap(xs[k], i)
  {
    if k > 0 {
      SetAllAt(xs[1..], i, k - 1);
    }
  }

  /** From the first save to after the second. */
  lemma {:induction false} GroupGives(e: Env, m: Node, back: bool, cc: nat, pc: nat, len: nat, nc: nat, x: State, st: seq<nat>)
    requires cc < nc && StateOk(e.s, x, nc) && Matches(e, m, back, cc + 1, pc + 2, pc + 2 + len, |st|, nc)
    requires Fetch(e.code, pc) == Some(if back then SaveEnd(cc) else SaveStart(cc))
    requires Fetch(e.code, pc + 2 + len) == Some(if back then SaveStart(cc) else SaveEnd(cc))
    ensures Gives(e, pc, x, st, Results(e.s, Group(m), back, cc, x), pc + 4 + len, st)
  {
    hide Compile, Results, StateOk, Gives, Matches, NumCaps, Moves, Fetch, SetCap, SetAll, NodeOk;
    var (u, v) := if back then (2 * cc + 1, 2 * cc) else (2 * cc, 2 * cc + 1);
    var i: Instr, j: Instr := if back then SaveEnd(cc) else SaveStart(cc), if back then SaveStart(cc) else SaveEnd(cc);
    GroupUnfold(e.s, m, back, cc, x);
    OkInside(e.s, x, nc);
    var x1 := SetCap(x, u);
    SetCapOk(e.s, back, x, u, nc);
    var xs := Results(e.s, m, back, cc + 1, x1);
    MatchesAt(e, m, back, cc + 1, pc + 2, pc + 2 + len, nc, x1, st);
    ResultsAllOk2(e.s, m, back, cc + 1, x1, nc);
    var ys := SetAll(xs, v);
    forall k | 0 <= k < |xs|
      ensures Setting(v)(xs[k]) == [ys[k]] && Moves(e, pc + 2 + len, xs[k], st, pc + 4 + len, ys[k], st)
    {
      SetAllAt(xs, v, k);
      OkInside(e.s, xs[k], nc);
      SaveMoves(e, pc + 2 + len, j, cc, xs[k], st);
    }
    GivesMoves(e, pc + 2, x1, st, xs, pc + 2 + len, st, Setting(v), ys, pc + 4 + len, st);
    SaveMoves(e, pc, i, cc, x, st);
    MovesThen(e, pc, x, st, pc + 2, x1, st, ys, pc + 4 + len, st);
  }

  lemma {:induction false} CompiledGroup(e: Env, m: Node, back: bool, cc: nat, pc: nat, d: nat, nc: nat)
    requires Placed(e, pc, Compile(Group(m), back, cc), d) && cc < nc && AtomOk(e, m, back, cc + 1, nc)
    ensures Matches(e, Group(m), back, cc, pc, pc + CodeSize(Compile(Group(m), back, cc)), d, nc)
  {
    hide Placed, CodeSize, Compile, Results, StateOk, Gives, Matches, NumCaps, AtomOk, EndDepth, Fetch, Encodable, SetAll, NodeOk;
    var a := Compile(m, back, cc + 1);
    var len := CodeSize(a);
    GroupUnfold(e.s, m, back, cc, State(0, []));
    var i: Instr, j: Instr := if back then SaveEnd(cc) else SaveStart(cc), if back then SaveStart(cc) else SaveEnd(cc);
    assert [i] + a + [j] == [i] + (a + ([j] + []));
    PlacedCons(e, pc, i, a + ([j] + []), d);
    Balanced(m, back, cc + 1, d);
    PlacedThen(e, pc + 2, a, j, [], d);
    AtomMatches(e, m, back, cc + 1, nc, pc + 2, len, d);
    var pc' := pc + 4 + len;
    NoSize();
    forall x, st: seq<nat> | StateOk(e.s, x, nc) && |st| == d
      ensures Gives(e, pc, x, st, Results(e.s, Group(m), back, cc, x), pc', st)
    {
      GroupGives(e, m, back, cc, pc, len, nc, x, st);
    }
    DoesIt(e, Group(m), back, cc, pc, pc', d, nc);
  }

  lemma {:induction false} NoSize()
    ensures CodeSize([]) == 0
  {
  }

  /** A success discards the choice points made since the innermost lookahead. */
  lemma {:induction false} WonPops(e: Env, caps: seq<Option<nat>>, ext: seq<Frame>, bt: seq<Frame>)
    requires NoLook(ext)
    ensures Reaches(e, Won(caps, ext + bt), Won(caps, bt))
    decreases |ext|
  {
    hide Reaches, StepRun, StepGreedy;
    var c := Won(caps, ext + bt);
    if ext == [] {
      assert ext + bt == bt;
      ReachRefl(e, c);
    } else {
      assert ext[0] in ext;
      assert (ext + bt)[1..] == ext[1..] + bt;
      assert forall f | f in ext[1..] :: f in ext;
      WonPops(e, caps, ext[1..], bt);
      ReachStep(e, c, Won(caps, bt));
    }
  }

  lemma {:induction false} MatchStep(e: Env, pc: nat, x: State, st: seq<nat>, bt: seq<Frame>)
    requires Fetch(e.code, pc) == Some(Match) && x.pos <= |e.s.input|
    ensures Step(e, At(pc, x, st, bt)) == Won(x.caps, bt)
  {
    hide Fetch, Step, RunGreedy, ResetCaps;
    FetchedStep(e, At(pc, x, st, bt), Match);
  }

  /** Code that ends in `match` succeeds with its first result, or fails. */
  lemma {:induction false} UpToMatch(e: Env, c: Vm, rs: seq<State>, pc: nat, st: seq<nat>, bt: seq<Frame>)
    requires Offers(e, c, rs, pc, st, bt) && Fetch(e.code, pc) == Some(Match) && forall r | r in rs :: r.pos <= |e.s.input|
    ensures Reaches(e, c, if rs == [] then Fail(bt) else Won(rs[0].caps, bt))
  {
    hide Fetch, Step, Reaches;
    if rs != [] {
      var ext: seq<Frame> :| NoLook(ext) && Reaches(e, c, At(pc, rs[0], st, ext + bt)) &&
                             Offers(e, Fail(ext + bt), rs[1..], pc, st, bt);
      var c1, c2 := At(pc, rs[0], st, ext + bt), Won(rs[0].caps, ext + bt);
      MatchStep(e, pc, rs[0], st, ext + bt);
      WonPops(e, rs[0].caps, ext, bt);
      ReachStep(e, c1, Won(rs[0].caps, bt));
      ReachTrans(e, c, c1, Won(rs[0].caps, bt));
    }
  }

  ghost function LookTo(neg: bool, pc: nat, x: State, st: seq<nat>): Frame {
    Frame(if neg then NegLookFrame else LookFrame, pc, x.pos, x.caps, st)
  }

  function LookOp(neg: bool, off: int): Instr {
    if neg then NegLookahead(off) else Lookahead(off)
  }

  lemma {:induction false} LookStep(e: Env, neg: bool, pc: nat, off: int, x: State, st: seq<nat>, bt: seq<Frame>, pc': nat)
    requires Fetch(e.code, pc) == Some(LookOp(neg, off)) && x.pos <= |e.s.input| && pc' == pc + 5 + off
    ensures Step(e, At(pc, x, st, bt)) == At(pc + 5, x, st, [LookTo(neg, pc', x, st)] + bt)
  {
    hide Fetch, Step, RunGreedy, ResetCaps;
    FetchedStep(e, At(pc, x, st, bt), LookOp(neg, off));
  }

  /** What a pending lookahead makes of success and failure. */
  lemma {:induction false} LookDone(e: Env, neg: bool, pc': nat, x: State, st: seq<nat>, caps: seq<Option<nat>>, bt: seq<Frame>)
    ensures Step(e, Won(caps, [LookTo(neg, pc', x, st)] + bt)) == if neg then Fail(bt) else At(pc', x.(caps := caps), st, bt)
    ensures Step(e, Fail([LookTo(neg, pc', x, st)] + bt)) == if neg then At(pc', x, st, bt) else Fail(bt)
  {
    hide StepRun, StepGreedy;
    var fr := LookTo(neg, pc', x, st);
    assert ([fr] + bt)[1..] == bt && ([fr] + bt)[0] == fr;
  }

  lemma {:induction false} LookOffers(e: Env, neg: bool, c: Vm, rs: seq<State>, pcM: nat, pc': nat, x: State, st: seq<nat>, bt: seq<Frame>)
    requires Offers(e, c, rs, pcM, st, [LookTo(neg, pc', x, st)] + bt)
    requires Fetch(e.code, pcM) == Some(Match) && forall r | r in rs :: r.pos <= |e.s.input|
    ensures var ok := (rs == []) == neg;
            Offers(e, c, if !ok then [] else if neg then [x] else [x.(caps := rs[0].caps)], pc', st, bt)
  {
    hide Fetch, Step, Reaches, Offers;
    var bt1 := [LookTo(neg, pc', x, st)] + bt;
    UpToMatch(e, c, rs, pcM, st, bt1);
    var c1 := if rs == [] then Fail(bt1) else Won(rs[0].caps, bt1);
    LookDone(e, neg, pc', x, st, if rs == [] then [] else rs[0].caps, bt);
    ReachRefl(e, Step(e, c1));
    ReachStep(e, c1, Step(e, c1));
    ReachTrans(e, c, c1, Step(e, c1));
    if (rs == []) == neg {
      OffersOne(e, c, if neg then x else x.(caps := rs[0].caps), pc', st, bt);
    } else {
      OffersNone(e, c, pc', st, bt);
    }
  }

  lemma {:induction false} CompiledLook(e: Env, neg: bool, b: bool, m: Node, back: bool, cc: nat, pc: nat, d: nat, nc: nat)
    requires Placed(e, pc, Compile(Look(neg, b, m), back, cc), d) && AtomOk(e, m, b, cc, nc)
    ensures Matches(e, Look(neg, b, m), back, cc, pc, pc + CodeSize(Compile(Look(neg, b, m), back, cc)), d, nc)
  {
    hide Placed, CodeSize, Compile, Results, StateOk, Matches, NumCaps, AtomOk, EndDepth, Fetch, Encodable, Offers, Step;
    var n := Look(neg, b, m);
    var a := Compile(m, b, cc);
    var len := CodeSize(a);
    LookUnfold(e.s, neg, b, m, back, cc, State(0, []));
    var i := LookOp(neg, len + 1);
    assert [i] + a + [Match] == [i] + (a + ([Match] + []));
    PlacedCons(e, pc, i, a + ([Match] + []), d);
    Balanced(m, b, cc, d);
    PlacedThen(e, pc + 5, a, Match, [], d);
    AtomMatches(e, m, b, cc, nc, pc + 5, len, d);
    NoSize();
    var pc', pcM := pc + 6 + len, pc + 5 + len;
    forall x, st: seq<nat> | StateOk(e.s, x, nc) && |st| == d
      ensures Gives(e, pc, x, st, Results(e.s, n, back, cc, x), pc', st)
    {
      LookUnfold(e.s, neg, b, m, back, cc, x);
      OkInside(e.s, x, nc);
      var rs := Results(e.s, m, b, cc, x);
      MatchesAt(e, m, b, cc, pc + 5, pcM, nc, x, st);
      ResultsInside(e.s, m, b, cc, x, nc);
      forall bt
        ensures Offers(e, At(pc, x, st, bt), Results(e.s, n, back, cc, x), pc', st, bt)
      {
        LookStep(e, neg, pc, len + 1, x, st, bt, pc');
        LookOffers(e, neg, At(pc + 5, x, st, [LookTo(neg, pc', x, st)] + bt), rs, pcM, pc', x, st, bt);
        OffersStep(e, At(pc, x, st, bt), Results(e.s, n, back, cc, x), pc', st, bt);
      }
    }
    DoesIt(e, n, back, cc, pc, pc', d, nc);
  }

  lemma {:induction false} ResultsInside(s: Subject, n: Node, back: bool, cc: nat, x: State, nc: nat)
    requires StateOk(s, x, nc)
    ensures forall y | y in Results(s, n, back, cc, x) :: y.pos <= |s.input|
  {
    hide Results;
    ResultsOk(s, n, back, cc, x, nc);
  }
}
