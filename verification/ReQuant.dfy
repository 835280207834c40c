/** Quantifiers: each shape of code that the compiler chooses repeats its atom as the pattern says. */
module ReQuant {
  import opened ReCode
  import opened ReSyntax
  import opened ReMatch
  import opened ReUnfold
  import opened ReVm
  import opened ReLaws
  import opened ReRun
  import opened ReCorrect
  import opened ReLoops
  import opened ReGreedy
  import opened ReMain

  ghost function IterOf(s: Subject, m: Node, back: bool, cc: nat, rep: Rep): State -> seq<State> {
    (x: State) => Iter(s, m, back, cc, rep, x)
  }

  /** The code from pc to pc' repeats the atom as `rep` says. */
  ghost predicate Repeats(e: Env, m: Node, back: bool, cc: nat, rep: Rep, pc: nat, pc': nat, d: nat, nc: nat) {
    Does(e, pc, pc', d, nc, IterOf(e.s, m, back, cc, rep))
  }

  lemma {:induction false} RepeatsAt(e: Env, m: Node, back: bool, cc: nat, rep: Rep, pc: nat, pc': nat, nc: nat, x: State, st: seq<nat>)
    requires Repeats(e, m, back, cc, rep, pc, pc', |st|, nc) && StateOk(e.s, x, nc)
    ensures Gives(e, pc, x, st, Iter(e.s, m, back, cc, rep, x), pc', st)
  {
    hide Iter, Gives, StateOk;
    assert IterOf(e.s, m, back, cc, rep)(x) == Iter(e.s, m, back, cc, rep, x);
  }

  lemma {:induction false} RepeatsIt(e: Env, m: Node, back: bool, cc: nat, rep: Rep, pc: nat, pc': nat, d: nat, nc: nat)
    requires forall x, st: seq<nat> | StateOk(e.s, x, nc) && |st| == d :: Gives(e, pc, x, st, Iter(e.s, m, back, cc, rep, x), pc', st)
    ensures Repeats(e, m, back, cc, rep, pc, pc', d, nc)
  {
    hide Gives, StateOk, Iter;
  }

  lemma {:induction false} StarRepeats(e: Env, m: Node, back: bool, cc: nat, greedy: bool, pc: nat, d: nat, nc: nat)
    requires Placed(e, pc, StarCode(Compile(m, back, cc), greedy), d) && AtomOk(e, m, back, cc, nc)
    requires !NeedsCheck(Compile(m, back, cc), greedy) ==> Progresses(m, back, cc)
    ensures Repeats(e, m, back, cc, Star(greedy), pc, pc + CodeSize(StarCode(Compile(m, back, cc), greedy)), d, nc)
  {
    hide Placed, CodeSize, Compile, Iter, StateOk, Gives, Matches, AtomOk, EndDepth, Fetch, Encodable, CheckAdvance, SelfRefers, Progresses, Repeats;
    var a := Compile(m, back, cc);
    var len: int := CodeSize(a);
    NoSize();
    if NeedsCheck(a, greedy) {
      var i, j := SplitNextFirst(len + 6), BneCharPos(-(len + 11));
      assert StarCode(a, greedy) == [i] + ([PushCharPos] + (a + ([j] + [])));
      PlacedCons(e, pc, i, [PushCharPos] + (a + ([j] + [])), d);
      PlacedCons(e, pc + 5, PushCharPos, a + ([j] + []), d);
      Balanced(m, back, cc, d + 1);
      PlacedThen(e, pc + 6, a, j, [], d + 1);
      AtomMatches(e, m, back, cc, nc, pc + 6, len, d + 1);
      forall x, st: seq<nat> | StateOk(e.s, x, nc) && |st| == d
        ensures Gives(e, pc, x, st, Iter(e.s, m, back, cc, Star(greedy), x), pc + 11 + len, st)
      {
        CheckedLoop(e, m, back, cc, pc, len, x, st, nc);
      }
      RepeatsIt(e, m, back, cc, Star(greedy), pc, pc + 11 + len, d, nc);
    } else {
      var i, j := Split(greedy, len + 5), Goto(-(len + 10));
      assert StarCode(a, greedy) == [i] + (a + ([j] + []));
      PlacedCons(e, pc, i, a + ([j] + []), d);
      Balanced(m, back, cc, d);
      PlacedThen(e, pc + 5, a, j, [], d);
      AtomMatches(e, m, back, cc, nc, pc + 5, len, d);
      forall x, st: seq<nat> | StateOk(e.s, x, nc) && |st| == d
        ensures Gives(e, pc, x, st, Iter(e.s, m, back, cc, Star(greedy), x), pc + 10 + len, st)
      {
        StarLoop(e, m, back, cc, greedy, pc, len, x, st, nc);
      }
      RepeatsIt(e, m, back, cc, Star(greedy), pc, pc + 10 + len, d, nc);
    }
  }

  lemma {:induction false} UpToLayout(e: Env, a: seq<Instr>, k: nat, greedy: bool, pc: nat, d: nat)
    requires Placed(e, pc, UpToCode(a, k, greedy), d) && EndDepth(a, d + 1) == d + 1
    ensures var len: int := CodeSize(a);
            Fetch(e.code, pc) == Some(PushI32(k)) && Fetch(e.code, pc + 5) == Some(Split(greedy, len + 5)) && d < e.maxStack &&
            Fetch(e.code, pc + 10 + len) == Some(Loop(-(len + 10))) && Fetch(e.code, pc + 15 + len) == Some(Drop) &&
            Placed(e, pc + 10, a, d + 1) && CodeSize(UpToCode(a, k, greedy)) == 16 + len
  {
    hide Placed, CodeSize, EndDepth, Fetch, Encodable;
    var len: int := CodeSize(a);
    NoSize();
    var i, j := Split(greedy, len + 5), Loop(-(len + 10));
    assert UpToCode(a, k, greedy) == [PushI32(k)] + ([i] + (a + ([j] + ([Drop] + []))));
    PlacedCons(e, pc, PushI32(k), [i] + (a + ([j] + ([Drop] + []))), d);
    PlacedCons(e, pc + 5, i, a + ([j] + ([Drop] + [])), d + 1);
    PlacedThen(e, pc + 10, a, j, [Drop] + [], d + 1);
    PlacedCons(e, pc + 15 + len, Drop, [], d + 1);
  }

  lemma {:induction false} UpToRepeats(e: Env, m: Node, back: bool, cc: nat, k: nat, greedy: bool, pc: nat, d: nat, nc: nat)
    requires Placed(e, pc, UpToCode(Compile(m, back, cc), k, greedy), d) && AtomOk(e, m, back, cc, nc) && k > 0
    ensures Repeats(e, m, back, cc, UpTo(k, greedy), pc, pc + CodeSize(UpToCode(Compile(m, back, cc), k, greedy)), d, nc)
  {
    hide Placed, CodeSize, Compile, Iter, StateOk, Gives, Matches, AtomOk, EndDepth, Fetch, Encodable, Moves, Repeats, UpToCode;
    var a := Compile(m, back, cc);
    var len: int := CodeSize(a);
    Balanced(m, back, cc, d + 1);
    UpToLayout(e, a, k, greedy, pc, d);
    AtomMatches(e, m, back, cc, nc, pc + 10, len, d + 1);
    var pc', rep := pc + 16 + len, UpTo(k, greedy);
    forall x, st: seq<nat> | StateOk(e.s, x, nc) && |st| == d
      ensures Gives(e, pc, x, st, Iter(e.s, m, back, cc, rep, x), pc', st)
    {
      OkInside(e.s, x, nc);
      CountedLoop(e, m, back, cc, greedy, k, pc + 5, len, x, st, nc);
      PushMoves(e, pc, k, x, st);
      MovesThen(e, pc, x, st, pc + 5, x, st + [k], Iter(e.s, m, back, cc, rep, x), pc', st);
    }
    RepeatsIt(e, m, back, cc, rep, pc, pc', d, nc);
  }

  lemma {:induction false} TimesRepeats(e: Env, m: Node, back: bool, cc: nat, k: nat, pc: nat, d: nat, nc: nat)
    requires Placed(e, pc, TimesCode(Compile(m, back, cc), k), d) && AtomOk(e, m, back, cc, nc) && k > 0
    ensures Repeats(e, m, back, cc, Times(k), pc, pc + CodeSize(TimesCode(Compile(m, back, cc), k)), d, nc)
  {
    hide Placed, CodeSize, Compile, Iter, StateOk, Gives, Matches, AtomOk, EndDepth, Fetch, Encodable, Moves, Repeats;
    var a := Compile(m, back, cc);
    var len: int := CodeSize(a);
    NoSize();
    var rep := Times(k);
    if k == 1 {
      AtomMatches(e, m, back, cc, nc, pc, len, d);
      forall x, st: seq<nat> | StateOk(e.s, x, nc) && |st| == d
        ensures Gives(e, pc, x, st, Iter(e.s, m, back, cc, rep, x), pc + len, st)
      {
        MatchesAt(e, m, back, cc, pc, pc + len, nc, x, st);
        OnceTimes(e.s, m, back, cc, x);
      }
      RepeatsIt(e, m, back, cc, rep, pc, pc + len, d, nc);
    } else {
      var j := Loop(-(len + 5));
      assert TimesCode(a, k) == [PushI32(k)] + (a + ([j] + ([Drop] + [])));
      PlacedCons(e, pc, PushI32(k), a + ([j] + ([Drop] + [])), d);
      Balanced(m, back, cc, d + 1);
      PlacedThen(e, pc + 5, a, j, [Drop] + [], d + 1);
      PlacedCons(e, pc + 10 + len, Drop, [], d + 1);
      AtomMatches(e, m, back, cc, nc, pc + 5, len, d + 1);
      var pc' := pc + 11 + len;
      forall x, st: seq<nat> | StateOk(e.s, x, nc) && |st| == d
        ensures Gives(e, pc, x, st, Iter(e.s, m, back, cc, rep, x), pc', st)
      {
        OkInside(e.s, x, nc);
        TimesLoop(e, m, back, cc, k, pc + 5, len, x, st, nc);
        PushMoves(e, pc, k, x, st);
        MovesThen(e, pc, x, st, pc + 5, x, st + [k], Iter(e.s, m, back, cc, rep, x), pc', st);
      }
      RepeatsIt(e, m, back, cc, rep, pc, pc', d, nc);
    }
  }

  lemma {:induction false} OnceTimes(s: Subject, m: Node, back: bool, cc: nat, x: State)
    ensures Iter(s, m, back, cc, Times(1), x) == Results(s, m, back, cc, x)
  {
    hide Results;
    OnceIter(s, m, back, cc, true, x, Results(s, m, back, cc, x));
  }

  lemma {:induction false} EachFlat(s: Subject, m: Node, back: bool, cc: nat, rep: Rep, xs: seq<State>)
    ensures IterEach(s, m, back, cc, rep, xs) == Flat(xs, IterOf(s, m, back, cc, rep))
  {
    hide Iter;
    if xs != [] {
      EachFlat(s, m, back, cc, rep, xs[1..]);
    }
  }

  lemma {:induction false} IterStates(s: Subject, m: Node, back: bool, cc: nat, rep: Rep, x: State, nc: nat)
    requires StateOk(s, x, nc)
    ensures forall y | y in Iter(s, m, back, cc, rep, x) :: StateOk(s, y, nc)
  {
    hide Iter, StateOk;
    IterOk(s, m, back, cc, rep, x, nc);
  }

  /** Mandatory iterations, then optional ones. */
  lemma {:induction false} ThenRepeats(e: Env, m: Node, back: bool, cc: nat, k: nat, rep: Rep, pc: nat, pcm: nat, pc': nat,
                                       x: State, st: seq<nat>, nc: nat)
    requires Repeats(e, m, back, cc, Times(k), pc, pcm, |st|, nc) && Repeats(e, m, back, cc, rep, pcm, pc', |st|, nc)
    requires StateOk(e.s, x, nc)
    ensures Gives(e, pc, x, st, IterEach(e.s, m, back, cc, rep, Iter(e.s, m, back, cc, Times(k), x)), pc', st)
  {
    hide Gives, Repeats, StateOk, Iter, IterEach, Flat;
    var rs := Iter(e.s, m, back, cc, Times(k), x);
    RepeatsAt(e, m, back, cc, Times(k), pc, pcm, nc, x, st);
    IterStates(e.s, m, back, cc, Times(k), x, nc);
    var f := IterOf(e.s, m, back, cc, rep);
    forall y | y in rs
      ensures Gives(e, pcm, y, st, f(y), pc', st)
    {
      RepeatsAt(e, m, back, cc, rep, pcm, pc', nc, y, st);
    }
    GivesThen(e, pc, x, st, rs, pcm, st, f, pc', st);
    EachFlat(e.s, m, back, cc, rep, rs);
  }

  /** A pattern whose code is simple has no groups, and reads no character when compiled backwards. */
  lemma {:induction false} SimpleHasNoCaps(s: Subject, m: Node, back: bool, cc: nat)
    requires SimpleCount(Compile(m, back, cc)).Some? && NodeOk(m, back, cc)
    ensures NumCaps(m) == 0 && (back ==> SimpleCount(Compile(m, back, cc)).value == 0)
    decreases m
  {
    hide SimpleCount, Compile, NodeOk, QuantCode, TestCode, Results, Accepts, GetChar, CodeSize;
    var x := State(0, []);
    SimpleNone();
    match m
    case Empty => EmptyUnfold(s, back, cc, x);
    case Atom(t) =>
      AtomUnfold(s, t, back, cc, x);
      if back {
        assert [Prev, TestCode(t), Prev] == [] + ([Prev] + [TestCode(t), Prev]);
        NotSimple([], Prev, [TestCode(t), Prev]);
      }
    case Cat(l, r) =>
      CatUnfold(s, l, r, back, cc, x);
      var cl, cr := Compile(l, back, cc), Compile(r, back, cc + NumCaps(l));
      SimpleAppend(cl, cr);
      SimpleAppend(cr, cl);
      SimpleHasNoCaps(s, l, back, cc);
      SimpleHasNoCaps(s, r, back, cc + NumCaps(l));
    case Quant(n, min, max, greedy) =>
      QuantUnfold(s, m, back, cc, x);
      SimpleQuant(Compile(n, back, cc), min, max, greedy, ResetCode(n, min, cc));
      if min == 0 {
        QuantNone(Compile(n, back, cc), greedy, ResetCode(n, min, cc));
      } else {
        SimpleHasNoCaps(s, n, back, cc);
      }
    case BeginLine => AssertUnfold(s, m, back, cc, x); SimpleOne(AssertOp(m));
    case EndLine => AssertUnfold(s, m, back, cc, x); SimpleOne(AssertOp(m));
    case WordEdge(_) => AssertUnfold(s, m, back, cc, x); SimpleOne(AssertOp(m));
    case _ => NotSimpleNode(m, back, cc);
  }

  lemma {:induction false} SimpleNone()
    ensures SimpleCount([]) == Some(0)
  {
  }

  /** Results of a quantified atom, as repetitions. */
  ghost function QuantResults(s: Subject, m: Node, back: bool, cc: nat, min: nat, max: Option<nat>, greedy: bool, x: State): seq<State> {
    IterEach(s, m, back, cc, Optional(min, max, greedy), Iter(s, m, back, cc, Times(min), ResetAtom(m, min, cc, x)))
  }

  /** The iterations that are allowed after the mandatory ones. */
  ghost function Optional(min: nat, max: Option<nat>, greedy: bool): Rep {
    if max == None then Star(greedy) else if min <= max.value then UpTo(max.value - min, greedy) else UpTo(0, greedy)
  }

  /** The code from pc to pc' does what the quantifier says. */
  ghost predicate Quantifies(e: Env, n: Node, back: bool, cc: nat, pc: nat, pc': nat, d: nat, nc: nat)
    requires n.Quant?
  {
    forall x, st: seq<nat> | StateOk(e.s, x, nc) && |st| == d ::
      Gives(e, pc, x, st, QuantResults(e.s, n.n, back, cc, n.min, n.max, n.greedy, x), pc', st)
  }

  lemma {:induction false} QuantSimple(e: Env, n: Node, cc: nat, pc: nat, d: nat, nc: nat)
    requires n.Quant? && SubjectOk(e.s) && NodeOk(n, false, cc) && n.greedy && n.max != Some(0)
    requires var a := Compile(n.n, false, cc);
             SimpleCount(a).Some? && SimpleCount(a).value > 0 &&
             Placed(e, pc, [SimpleGreedy(CodeSize(a) + 1, n.min, Limit(n.max), SimpleCount(a).value)] + a + [Match], d)
    ensures Quantifies(e, n, false, cc, pc, pc + 18 + CodeSize(Compile(n.n, false, cc)), d, nc)
  {
    hide Placed, CodeSize, Compile, Iter, IterEach, StateOk, Gives, NodeOk, SimpleCount, Boundary, Results, EndDepth, Fetch, Encodable, SimpleSteps;
    var Quant(m, min, max, greedy) := n;
    var a := Compile(m, false, cc);
    var len, count := CodeSize(a), SimpleCount(a).value;
    var i := SimpleGreedy(len + 1, min, Limit(max), count);
    QuantUnfold(e.s, n, false, cc, State(0, []));
    assert [i] + a + [Match] == [i] + (a + [Match]);
    PlacedCons(e, pc, i, a + [Match], d);
    SimpleStepsOf(e, m, cc, pc + 17, d);
    SimpleHasNoCaps(e.s, m, false, cc);
    var pc' := pc + 18 + len;
    forall x, st: seq<nat> | StateOk(e.s, x, nc) && |st| == d
      ensures Gives(e, pc, x, st, QuantResults(e.s, m, false, cc, min, max, greedy, x), pc', st)
    {
      OkInside(e.s, x, nc);
      GreedyGives(e, m, cc, pc, min, max, count, len + 1, x, st, pc');
    }
  }

  lemma {:induction false} QuantPlus(e: Env, n: Node, back: bool, cc: nat, pc: nat, d: nat, nc: nat)
    requires n.Quant? && n.min == 1 && n.max == None && AtomOk(e, n.n, back, cc, nc) && Progresses(n.n, back, cc)
    requires var a := Compile(n.n, back, cc);
             Placed(e, pc, a + [Split(!n.greedy, -(CodeSize(a) + 5))], d)
    ensures Quantifies(e, n, back, cc, pc, pc + 5 + CodeSize(Compile(n.n, back, cc)), d, nc)
  {
    hide Placed, CodeSize, Compile, Iter, IterEach, StateOk, Gives, Results, EndDepth, Fetch, Encodable, AtomOk, Matches, CheckAdvance, SelfRefers, Progresses, Flat;
    var Quant(m, _, _, greedy) := n;
    var a := Compile(m, back, cc);
    var len: int := CodeSize(a);
    var i := Split(!greedy, -(len + 5));
    assert a + [i] == a + ([i] + []);
    Balanced(m, back, cc, d);
    PlacedThen(e, pc, a, i, [], d);
    AtomMatches(e, m, back, cc, nc, pc, len, d);
    var pc', rep := pc + 5 + len, Star(greedy);
    forall x, st: seq<nat> | StateOk(e.s, x, nc) && |st| == d
      ensures Gives(e, pc, x, st, QuantResults(e.s, m, back, cc, 1, None, greedy, x), pc', st)
    {
      var rs := Results(e.s, m, back, cc, x);
      MatchesAt(e, m, back, cc, pc, pc + len, nc, x, st);
      ResultsAllOk2(e.s, m, back, cc, x, nc);
      var f := IterOf(e.s, m, back, cc, rep);
      forall y | y in rs
        ensures Gives(e, pc + len, y, st, f(y), pc', st)
      {
        PlusLoop(e, m, back, cc, greedy, pc, len, y, st, nc);
      }
      GivesThen(e, pc, x, st, rs, pc + len, st, f, pc', st);
      OnceTimes(e.s, m, back, cc, x);
      EachFlat(e.s, m, back, cc, rep, rs);
    }
  }

  lemma {:induction false} ResetMoves(e: Env, pc: nat, a: nat, b: nat, x: State, st: seq<nat>)
    requires Fetch(e.code, pc) == Some(SaveReset(a, b)) && x.pos <= |e.s.input| && 2 * b + 1 < |x.caps|
    ensures Moves(e, pc, x, st, pc + 3, ResetCaps(x, a, b), st)
  {
    hide Fetch, Step, RunGreedy;
    forall bt
      ensures Step(e, At(pc, x, st, bt)) == At(pc + 3, ResetCaps(x, a, b), st, bt)
    {
      FetchedStep(e, At(pc, x, st, bt), SaveReset(a, b));
      assert ResetCaps(x, a, b) == ResetCaps(State(x.pos, x.caps), a, b);
    }
  }

  /** Optional iterations after the captures of the atom were reset. */
  lemma {:induction false} ResetThen(e: Env, m: Node, back: bool, cc: nat, pc: nat, rest: seq<Instr>, d: nat, nc: nat, rep: Rep)
    requires Placed(e, pc, ResetCode(m, 0, cc) + rest, d) && cc + NumCaps(m) <= nc
    requires var pcR := pc + CodeSize(ResetCode(m, 0, cc));
             Placed(e, pcR, rest, d) ==> Repeats(e, m, back, cc, rep, pcR, pcR + CodeSize(rest), d, nc)
    ensures forall x, st: seq<nat> | StateOk(e.s, x, nc) && |st| == d ::
              Gives(e, pc, x, st, IterEach(e.s, m, back, cc, rep, Iter(e.s, m, back, cc, Times(0), ResetAtom(m, 0, cc, x))),
                    pc + CodeSize(ResetCode(m, 0, cc) + rest), st)
  {
    hide Placed, CodeSize, Iter, IterEach, StateOk, Gives, EndDepth, Fetch, Encodable, NumCaps, Moves, Repeats, ResetCaps, Compile;
    var reset := ResetCode(m, 0, cc);
    var n := CodeSize(reset);
    NoSize();
    assert Placed(e, pc + n, rest, d) && CodeSize(reset + rest) == n + CodeSize(rest) by {
      if reset == [] {
        assert reset + rest == rest;
      } else {
        PlacedCons(e, pc, reset[0], rest, d);
        OneSize(reset[0]);
      }
    }
    forall x, st: seq<nat> | StateOk(e.s, x, nc) && |st| == d
      ensures Gives(e, pc, x, st, IterEach(e.s, m, back, cc, rep, Iter(e.s, m, back, cc, Times(0), ResetAtom(m, 0, cc, x))),
                    pc + CodeSize(reset + rest), st)
    {
      var x0 := ResetAtom(m, 0, cc, x);
      OkInside(e.s, x, nc);
      ResetOk(e.s, back, m, 0, cc, x, nc);
      RepeatsAt(e, m, back, cc, rep, pc + n, pc + n + CodeSize(rest), nc, x0, st);
      EachOnce(e.s, m, back, cc, rep, x0);
      if reset != [] {
        PlacedCons(e, pc, reset[0], rest, d);
        OneSize(reset[0]);
        ResetMoves(e, pc, cc, cc + NumCaps(m) - 1, x, st);
        MovesThen(e, pc, x, st, pc + 3, x0, st, Iter(e.s, m, back, cc, rep, x0), pc + n + CodeSize(rest), st);
      }
    }
  }

  lemma {:induction false} OneSize(i: Instr)
    ensures CodeSize([i]) == Size(i)
  {
    assert [i][1..] == [];
  }

  lemma {:induction false} EachOnce(s: Subject, m: Node, back: bool, cc: nat, rep: Rep, x: State)
    ensures IterEach(s, m, back, cc, rep, Iter(s, m, back, cc, Times(0), x)) == Iter(s, m, back, cc, rep, x)
  {
    hide Results, IterAll;
    assert Iter(s, m, back, cc, Times(0), x) == [x];
    assert [x][1..] == [];
    assert IterEach(s, m, back, cc, rep, [x]) == Iter(s, m, back, cc, rep, x) + [];
  }

  /** At most one iteration: a split around the atom. */
  lemma {:induction false} OnceRepeats(e: Env, m: Node, back: bool, cc: nat, greedy: bool, pc: nat, d: nat, nc: nat)
    requires var a := Compile(m, back, cc); Placed(e, pc, [Split(greedy, CodeSize(a))] + a, d) && AtomOk(e, m, back, cc, nc)
    ensures Repeats(e, m, back, cc, UpTo(1, greedy), pc, pc + 5 + CodeSize(Compile(m, back, cc)), d, nc)
  {
    hide Placed, CodeSize, Compile, Iter, StateOk, Gives, Matches, AtomOk, Fetch, Encodable, Repeats, Results;
    var a := Compile(m, back, cc);
    var len := CodeSize(a);
    PlacedCons(e, pc, Split(greedy, len), a, d);
    AtomMatches(e, m, back, cc, nc, pc + 5, len, d);
    var pc' := pc + 5 + len;
    forall x, st: seq<nat> | StateOk(e.s, x, nc) && |st| == d
      ensures Gives(e, pc, x, st, Iter(e.s, m, back, cc, UpTo(1, greedy), x), pc', st)
    {
      OkInside(e.s, x, nc);
      MatchesAt(e, m, back, cc, pc + 5, pc', nc, x, st);
      Arrived(e, pc', x, st);
      SplitGives(e, pc, greedy, len, x, st, Results(e.s, m, back, cc, x), [x], pc', pc', st);
      OnceUpTo(e.s, m, back, cc, greedy, x);
    }
    RepeatsIt(e, m, back, cc, UpTo(1, greedy), pc, pc', d, nc);
  }

  lemma {:induction false} OnceUpTo(s: Subject, m: Node, back: bool, cc: nat, greedy: bool, x: State)
    ensures var rs := Results(s, m, back, cc, x);
            Iter(s, m, back, cc, UpTo(1, greedy), x) == if greedy then rs + [x] else [x] + rs
  {
    hide Results;
    OnceAll(s, m, back, cc, greedy, x, Results(s, m, back, cc, x));
  }

  lemma {:induction false} OnceAll(s: Subject, m: Node, back: bool, cc: nat, greedy: bool, x: State, ys: seq<State>)
    ensures IterAll(s, m, back, cc, UpTo(0, greedy), x, ys) == ys
  {
    if ys != [] {
      OnceAll(s, m, back, cc, greedy, x, ys[1..]);
    }
  }

  lemma {:induction false} NoneRepeats(e: Env, m: Node, back: bool, cc: nat, greedy: bool, pc: nat, d: nat, nc: nat)
    ensures Repeats(e, m, back, cc, UpTo(0, greedy), pc, pc, d, nc)
  {
    hide Iter, StateOk, Gives, Repeats;
    forall x, st: seq<nat> | StateOk(e.s, x, nc) && |st| == d
      ensures Gives(e, pc, x, st, Iter(e.s, m, back, cc, UpTo(0, greedy), x), pc, st)
    {
      Arrived(e, pc, x, st);
      NoneUpTo(e.s, m, back, cc, greedy, x);
    }
    RepeatsIt(e, m, back, cc, UpTo(0, greedy), pc, pc, d, nc);
  }

  lemma {:induction false} NoneUpTo(s: Subject, m: Node, back: bool, cc: nat, greedy: bool, x: State)
    ensures Iter(s, m, back, cc, UpTo(0, greedy), x) == [x]
  {
  }

  /** The code for a quantifier without mandatory iterations, after the reset. */
  ghost function OptionalCode(a: seq<Instr>, max: Option<nat>, greedy: bool): seq<Instr> {
    if max == Some(0) then []
    else if max == Some(1) then [Split(greedy, CodeSize(a))] + a
    else if max == None then StarCode(a, greedy)
    else UpToCode(a, max.value, greedy)
  }

  lemma {:induction false} OptionalRepeats(e: Env, m: Node, back: bool, cc: nat, max: Option<nat>, greedy: bool, pc: nat, d: nat, nc: nat)
    requires Placed(e, pc, OptionalCode(Compile(m, back, cc), max, greedy), d) && AtomOk(e, m, back, cc, nc)
    requires max == None && !NeedsCheck(Compile(m, back, cc), greedy) ==> Progresses(m, back, cc)
    ensures Repeats(e, m, back, cc, Optional(0, max, greedy), pc, pc + CodeSize(OptionalCode(Compile(m, back, cc), max, greedy)), d, nc)
  {
    hide Placed, CodeSize, Compile, AtomOk, CheckAdvance, SelfRefers, Progresses, Repeats, StarCode, UpToCode;
    var a := Compile(m, back, cc);
    NoSize();
    if max == Some(0) {
      NoneRepeats(e, m, back, cc, greedy, pc, d, nc);
    } else if max == Some(1) {
      OnceRepeats(e, m, back, cc, greedy, pc, d, nc);
      PlacedCons(e, pc, Split(greedy, CodeSize(a)), a, d);
    } else if max == None {
      StarRepeats(e, m, back, cc, greedy, pc, d, nc);
    } else {
      UpToRepeats(e, m, back, cc, max.value, greedy, pc, d, nc);
    }
  }

  /** The code for the iterations after the mandatory ones. */
  ghost function MoreCode(a: seq<Instr>, min: nat, max: Option<nat>, greedy: bool): seq<Instr> {
    if max == None then StarCode(a, greedy)
    else if max.value > min then UpToCode(a, max.value - min, greedy)
    else []
  }

  lemma {:induction false} MoreRepeats(e: Env, m: Node, back: bool, cc: nat, min: nat, max: Option<nat>, greedy: bool, pc: nat, d: nat, nc: nat)
    requires Placed(e, pc, MoreCode(Compile(m, back, cc), min, max, greedy), d) && AtomOk(e, m, back, cc, nc)
    requires (max == None && !NeedsCheck(Compile(m, back, cc), greedy) ==> Progresses(m, back, cc)) && (max.Some? ==> min <= max.value)
    ensures Repeats(e, m, back, cc, Optional(min, max, greedy), pc, pc + CodeSize(MoreCode(Compile(m, back, cc), min, max, greedy)), d, nc)
  {
    hide Placed, CodeSize, Compile, AtomOk, CheckAdvance, SelfRefers, Progresses, Repeats, StarCode, UpToCode;
    NoSize();
    if max == None {
      StarRepeats(e, m, back, cc, greedy, pc, d, nc);
    } else if max.value > min {
      UpToRepeats(e, m, back, cc, max.value - min, greedy, pc, d, nc);
    } else {
      NoneRepeats(e, m, back, cc, greedy, pc, d, nc);
    }
  }

  /** Mandatory iterations, counted, followed by optional ones. */
  lemma {:induction false} QuantMust(e: Env, n: Node, back: bool, cc: nat, pc: nat, d: nat, nc: nat)
    requires n.Quant? && n.min > 0 && AtomOk(e, n.n, back, cc, nc)
    requires (n.max == None && !NeedsCheck(Compile(n.n, back, cc), n.greedy) ==> Progresses(n.n, back, cc)) && (n.max.Some? ==> n.min <= n.max.value)
    requires var a := Compile(n.n, back, cc);
             Placed(e, pc, TimesCode(a, n.min) + MoreCode(a, n.min, n.max, n.greedy), d)
    ensures var a := Compile(n.n, back, cc);
            Quantifies(e, n, back, cc, pc, pc + CodeSize(TimesCode(a, n.min) + MoreCode(a, n.min, n.max, n.greedy)), d, nc)
  {
    hide Placed, CodeSize, Compile, AtomOk, CheckAdvance, SelfRefers, Progresses, Repeats, TimesCode, MoreCode, EndDepth, StateOk, Gives, Iter, IterEach;
    var Quant(m, min, max, greedy) := n;
    var a := Compile(m, back, cc);
    var p, q := TimesCode(a, min), MoreCode(a, min, max, greedy);
    PlacedAppend(e, pc, p, q, d);
    Balanced(m, back, cc, d);
    Balanced(m, back, cc, d + 1);
    TimesBalanced(a, min, d);
    TimesRepeats(e, m, back, cc, min, pc, d, nc);
    MoreRepeats(e, m, back, cc, min, max, greedy, pc + CodeSize(p), d, nc);
    var pc' := pc + CodeSize(p) + CodeSize(q);
    forall x, st: seq<nat> | StateOk(e.s, x, nc) && |st| == d
      ensures Gives(e, pc, x, st, QuantResults(e.s, m, back, cc, min, max, greedy, x), pc', st)
    {
      ThenRepeats(e, m, back, cc, min, Optional(min, max, greedy), pc, pc + CodeSize(p), pc', x, st, nc);
    }
  }

  lemma {:induction false} QuantMay(e: Env, n: Node, back: bool, cc: nat, pc: nat, d: nat, nc: nat)
    requires n.Quant? && n.min == 0 && AtomOk(e, n.n, back, cc, nc) && cc + NumCaps(n.n) <= nc
    requires n.max == None && !NeedsCheck(Compile(n.n, back, cc), n.greedy) ==> Progresses(n.n, back, cc)
    requires var a := Compile(n.n, back, cc);
             Placed(e, pc, ResetCode(n.n, 0, cc) + OptionalCode(a, n.max, n.greedy), d)
    ensures var a := Compile(n.n, back, cc);
            Quantifies(e, n, back, cc, pc, pc + CodeSize(ResetCode(n.n, 0, cc) + OptionalCode(a, n.max, n.greedy)), d, nc)
  {
    hide Placed, CodeSize, Compile, AtomOk, CheckAdvance, SelfRefers, Progresses, Repeats, OptionalCode, StateOk, Gives, Iter, IterEach, NumCaps, ResetCode, ResetAtom;
    var Quant(m, min, max, greedy) := n;
    var a := Compile(m, back, cc);
    var rest := OptionalCode(a, max, greedy);
    var pcR := pc + CodeSize(ResetCode(m, 0, cc));
    if Placed(e, pcR, rest, d) {
      OptionalRepeats(e, m, back, cc, max, greedy, pcR, d, nc);
    }
    ResetThen(e, m, back, cc, pc, rest, d, nc, Optional(0, max, greedy));
  }

  lemma {:induction false} QuantShape(a: seq<Instr>, min: nat, max: Option<nat>, greedy: bool, reset: seq<Instr>)
    requires min > 0 ==> reset == []
    ensures var c := SimpleCount(a); var len := CodeSize(a); var code := QuantCode(a, min, max, greedy, reset);
            if greedy && max != Some(0) && c.Some? && c.value > 0
            then code == [SimpleGreedy(len + 1, min, Limit(max), c.value)] + a + [Match]
            else if min == 0 then code == reset + OptionalCode(a, max, greedy)
            else if min == 1 && max == None && !NeedsCheck(a, greedy) then code == a + [Split(!greedy, -(len + 5))]
            else code == TimesCode(a, min) + MoreCode(a, min, max, greedy)
  {
    hide SimpleCount, CodeSize, StarCode, UpToCode, TimesCode, NeedsCheck;
    assert reset + [] == reset;
  }

  lemma {:induction false} CompiledQuant(e: Env, n: Node, back: bool, cc: nat, pc: nat, d: nat, nc: nat)
    requires n.Quant? && SubjectOk(e.s) && NodeOk(n, back, cc) && Placed(e, pc, Compile(n, back, cc), d)
    requires AtomOk(e, n.n, back, cc, nc) && cc + NumCaps(n.n) <= nc
    ensures Matches(e, n, back, cc, pc, pc + CodeSize(Compile(n, back, cc)), d, nc)
  {
    hide Placed, CodeSize, Compile, AtomOk, CheckAdvance, SelfRefers, Progresses, Results, OptionalCode, MoreCode, TimesCode, StateOk, Gives, Matches,
         Iter, IterEach, NumCaps, ResetAtom, QuantCode, SimpleCount, NodeOk, SubjectOk, Quantifies;
    var Quant(m, min, max, greedy) := n;
    var a := Compile(m, back, cc);
    var c := SimpleCount(a);
    QuantUnfold(e.s, n, back, cc, State(0, []));
    QuantShape(a, min, max, greedy, ResetCode(m, min, cc));
    var pc' := pc + CodeSize(Compile(n, back, cc));
    if greedy && max != Some(0) && c.Some? && c.value > 0 {
      SimpleHasNoCaps(e.s, m, back, cc);
      QuantSimple(e, n, cc, pc, d, nc);
      GreedySize(a, SimpleGreedy(CodeSize(a) + 1, min, Limit(max), c.value));
    } else if min == 0 {
      QuantMay(e, n, back, cc, pc, d, nc);
    } else if min == 1 && max == None && !NeedsCheck(a, greedy) {
      QuantPlus(e, n, back, cc, pc, d, nc);
      CodeSizeAppend(a, [Split(!greedy, -(CodeSize(a) + 5))]);
      OneSize(Split(!greedy, -(CodeSize(a) + 5)));
    } else {
      QuantMust(e, n, back, cc, pc, d, nc);
    }
    QuantDoes(e, n, back, cc, pc, pc', d, nc);
  }

  lemma {:induction false} GreedySize(a: seq<Instr>, i: Instr)
    requires i.SimpleGreedy?
    ensures CodeSize([i] + a + [Match]) == 18 + CodeSize(a)
  {
    hide CodeSize;
    CodeSizeAppend([i] + a, [Match]);
    CodeSizeAppend([i], a);
    OneSize(i);
    OneSize(Match);
  }

  lemma {:induction false} QuantDoes(e: Env, n: Node, back: bool, cc: nat, pc: nat, pc': nat, d: nat, nc: nat)
    requires n.Quant? && NodeOk(n, back, cc) && Quantifies(e, n, back, cc, pc, pc', d, nc)
    ensures Matches(e, n, back, cc, pc, pc', d, nc)
  {
    hide Gives, Matches, Iter, IterEach, ResetAtom, Results, NodeOk, StateOk, Compile, QuantCode, NumCaps, CheckAdvance, SelfRefers, Progresses, ResetCode;
    forall x, st: seq<nat> | StateOk(e.s, x, nc) && |st| == d
      ensures Gives(e, pc, x, st, Results(e.s, n, back, cc, x), pc', st)
    {
      QuantUnfold(e.s, n, back, cc, x);
    }
    DoesIt(e, n, back, cc, pc, pc', d, nc);
  }

  /**
  The compiler is correct: wherever the code of a pattern is placed, running it offers exactly
  the results of the pattern, best first, leaving the counters and older choice points alone.
  */
  lemma {:induction false} Compiled(e: Env, n: Node, back: bool, cc: nat, pc: nat, d: nat, nc: nat)
    requires SubjectOk(e.s) && NodeOk(n, back, cc) && Placed(e, pc, Compile(n, back, cc), d) && cc + NumCaps(n) <= nc
    ensures Matches(e, n, back, cc, pc, pc + CodeSize(Compile(n, back, cc)), d, nc)
    decreases n, 0
  {
    hide Placed, CodeSize, Compile, AtomOk, Results, Matches, NodeOk, SubjectOk;
    var x := State(0, []);
    match n
    case Empty => CompiledEmpty(e, back, cc, pc, d, nc);
    case Atom(t) => CompiledAtom(e, t, back, cc, pc, d, nc);
    case Cat(l, r) =>
      CatUnfold(e.s, l, r, back, cc, x);
      CompiledAnywhere(e, l, back, cc, nc);
      CompiledAnywhere(e, r, back, cc + NumCaps(l), nc);
      CompiledCat(e, l, r, back, cc, pc, d, nc);
    case Alt(l, r) =>
      AltUnfold(e.s, l, r, back, cc, x);
      CompiledAnywhere(e, l, back, cc, nc);
      CompiledAnywhere(e, r, back, cc + NumCaps(l), nc);
      CompiledAlt(e, l, r, back, cc, pc, d, nc);
    case Group(m) =>
      GroupUnfold(e.s, m, back, cc, x);
      CompiledAnywhere(e, m, back, cc + 1, nc);
      CompiledGroup(e, m, back, cc, pc, d, nc);
    case Look(neg, b, m) =>
      LookUnfold(e.s, neg, b, m, back, cc, x);
      CompiledAnywhere(e, m, b, cc, nc);
      CompiledLook(e, neg, b, m, back, cc, pc, d, nc);
    case Quant(m, _, _, _) =>
      QuantUnfold(e.s, n, back, cc, x);
      CompiledAnywhere(e, m, back, cc, nc);
      CompiledQuant(e, n, back, cc, pc, d, nc);
    case BeginLine => CompiledAssert(e, n, back, cc, pc, d, nc);
    case EndLine => CompiledAssert(e, n, back, cc, pc, d, nc);
    case WordEdge(_) => CompiledAssert(e, n, back, cc, pc, d, nc);
    case BackReference(g) => CompiledBack(e, g, back, cc, pc, d, nc);
  }

  lemma {:induction false} CompiledAnywhere(e: Env, n: Node, back: bool, cc: nat, nc: nat)
    requires SubjectOk(e.s) && NodeOk(n, back, cc) && cc + NumCaps(n) <= nc
    ensures AtomOk(e, n, back, cc, nc)
    decreases n, 1
  {
    hide Placed, CodeSize, Compile, Matches, NodeOk, SubjectOk, NumCaps;
    forall pc: nat, d: nat | Placed(e, pc, Compile(n, back, cc), d)
      ensures Matches(e, n, back, cc, pc, pc + CodeSize(Compile(n, back, cc)), d, nc)
    {
      Compiled(e, n, back, cc, pc, d, nc);
    }
  }
}
