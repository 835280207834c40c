/** Fragments of code that offer the results of a function, and how splits and loops combine them. */
module ReLoops {
  import opened ReCode
  import opened ReSyntax
  import opened ReMatch
  import opened ReVm
  import opened ReLaws
  import opened ReRun
  import opened ReCorrect

  /** From x at pc the code offers rs at pc', whatever is on the backtrack stack. */
  ghost predicate Gives(e: Env, pc: nat, x: State, st: seq<nat>, rs: seq<State>, pc': nat, st': seq<nat>) {
    forall bt :: Offers(e, At(pc, x, st, bt), rs, pc', st', bt)
  }

  /** From pc to pc', at counter depth d, the code offers f(x) for every well-formed state x. */
  ghost predicate Does(e: Env, pc: nat, pc': nat, d: nat, nc: nat, f: State -> seq<State>) {
    forall x, st: seq<nat> :: StateOk(e.s, x, nc) && |st| == d ==> Gives(e, pc, x, st, f(x), pc', st)
  }

  ghost function ResultsOf(s: Subject, n: Node, back: bool, cc: nat): State -> seq<State> {
    (x: State) => Results(s, n, back, cc, x)
  }

  /** The code from pc to pc' does what the pattern says. */
  ghost predicate Matches(e: Env, n: Node, back: bool, cc: nat, pc: nat, pc': nat, d: nat, nc: nat) {
    Does(e, pc, pc', d, nc, ResultsOf(e.s, n, back, cc))
  }

  lemma {:induction false} MatchesAt(e: Env, n: Node, back: bool, cc: nat, pc: nat, pc': nat, nc: nat, x: State, st: seq<nat>)
    requires Matches(e, n, back, cc, pc, pc', |st|, nc) && StateOk(e.s, x, nc)
    ensures Gives(e, pc, x, st, Results(e.s, n, back, cc, x), pc', st)
  {
    hide Results, Gives, StateOk;
    assert ResultsOf(e.s, n, back, cc)(x) == Results(e.s, n, back, cc, x);
  }

  /** After one iteration from x to y, what the rest of the loop offers. */
  ghost function Next(s: Subject, m: Node, back: bool, cc: nat, rep: Rep, x: State): State -> seq<State> {
    (y: State) => if rep.Star? && Remaining(s, back, y) >= Remaining(s, back, x) then [y]
                  else Iter(s, m, back, cc, rep, y)
  }

  lemma {:induction false} IterAllFlat(s: Subject, m: Node, back: bool, cc: nat, rep: Rep, x: State, ys: seq<State>)
    ensures IterAll(s, m, back, cc, rep, x, ys) == Flat(ys, Next(s, m, back, cc, rep, x))
  {
    hide Iter, Remaining;
    if ys != [] {
      IterAllFlat(s, m, back, cc, rep, x, ys[1..]);
    }
  }

  /** The frame pushed by a split. */
  ghost function SplitTo(pc: nat, x: State, st: seq<nat>): Frame {
    Frame(SplitFrame, pc, x.pos, x.caps, st)
  }

  /** First the branch at pcA, then the one at pcB. */
  lemma {:induction false} SplitOffers(e: Env, c: Vm, pcA: nat, pcB: nat, x: State, st: seq<nat>, bt: seq<Frame>,
                                       xs: seq<State>, ys: seq<State>, pc': nat, st': seq<nat>)
    requires Step(e, c) == At(pcA, x, st, [SplitTo(pcB, x, st)] + bt)
    requires Gives(e, pcA, x, st, xs, pc', st') && Gives(e, pcB, x, st, ys, pc', st')
    ensures Offers(e, c, xs + ys, pc', st', bt)
  {
    var fr := SplitTo(pcB, x, st);
    assert Step(e, Fail([fr] + bt)) == At(pcB, x, st, bt) by {
      hide StepRun, StepGreedy, Gives;
      assert ([fr] + bt)[1..] == bt;
    }
    hide Step, Offers;
    OffersStep(e, Fail([fr] + bt), ys, pc', st', bt);
    OffersAppend(e, At(pcA, x, st, [fr] + bt), xs, ys, pc', st', [fr], bt);
    OffersStep(e, c, xs + ys, pc', st', bt);
  }

  /** Whether the machine goes on from x at pc to x' at pc' in one step. */
  ghost predicate Moves(e: Env, pc: nat, x: State, st: seq<nat>, pc': nat, x': State, st': seq<nat>) {
    forall bt :: Step(e, At(pc, x, st, bt)) == At(pc', x', st', bt)
  }

  /** Unconditional steps prefix an offer. */
  lemma {:induction false} MovesThen(e: Env, pc: nat, x: State, st: seq<nat>, pc1: nat, x1: State, st1: seq<nat>,
                                     rs: seq<State>, pc': nat, st': seq<nat>)
    requires Moves(e, pc, x, st, pc1, x1, st1) && Gives(e, pc1, x1, st1, rs, pc', st')
    ensures Gives(e, pc, x, st, rs, pc', st')
  {
    hide Step, Offers;
    forall bt
      ensures Offers(e, At(pc, x, st, bt), rs, pc', st', bt)
    {
      OffersStep(e, At(pc, x, st, bt), rs, pc', st', bt);
    }
  }

  /** An offer of one result that needs no step. */
  lemma {:induction false} Arrived(e: Env, pc: nat, x: State, st: seq<nat>)
    ensures Gives(e, pc, x, st, [x], pc, st)
  {
    hide Offers, Step, Reaches;
    forall bt
      ensures Offers(e, At(pc, x, st, bt), [x], pc, st, bt)
    {
      ReachRefl(e, At(pc, x, st, bt));
      OffersOne(e, At(pc, x, st, bt), x, pc, st, bt);
    }
  }

  lemma {:induction false} MovesTo(e: Env, pc: nat, x: State, st: seq<nat>, pc': nat, x': State, st': seq<nat>)
    requires Moves(e, pc, x, st, pc', x', st')
    ensures Gives(e, pc, x, st, [x'], pc', st')
  {
    hide Moves, Gives;
    Arrived(e, pc', x', st');
    MovesThen(e, pc, x, st, pc', x', st', [x'], pc', st');
  }

  /** Results rs, each followed by what `f` says. */
  lemma {:induction false} GivesThen(e: Env, pc: nat, x: State, st: seq<nat>, rs: seq<State>, pcm: nat, stm: seq<nat>,
                                     f: State -> seq<State>, pc': nat, st': seq<nat>)
    requires Gives(e, pc, x, st, rs, pcm, stm)
    requires forall y | y in rs :: Gives(e, pcm, y, stm, f(y), pc', st')
    ensures Gives(e, pc, x, st, Flat(rs, f), pc', st')
  {
    hide Offers, Flat;
    forall bt
      ensures Offers(e, At(pc, x, st, bt), Flat(rs, f), pc', st', bt)
    {
      OffersBind(e, At(pc, x, st, bt), rs, f, pcm, stm, pc', st', bt);
    }
  }

  /** The code a fragment is laid out as: an instruction, then the rest. */
  lemma {:induction false} PlacedCons(e: Env, pc: nat, i: Instr, a: seq<Instr>, d: int)
    requires Placed(e, pc, [i] + a, d)
    ensures Fetch(e.code, pc) == Some(i) && Encodable(i) && d + Delta(i) <= e.maxStack
    ensures Placed(e, pc + Size(i), a, d + Delta(i)) && CodeSize([i] + a) == Size(i) + CodeSize(a)
  {
    hide Placed, Size, CodeSize, Fetch, Encodable, Delta;
    PlacedHead(e, pc, [i] + a, d);
    assert ([i] + a)[1..] == a;
  }

  /** A balanced fragment, then an instruction and the rest. */
  lemma {:induction false} PlacedThen(e: Env, pc: nat, a: seq<Instr>, i: Instr, b: seq<Instr>, d: int)
    requires Placed(e, pc, a + ([i] + b), d) && EndDepth(a, d) == d
    ensures Placed(e, pc, a, d) && Fetch(e.code, pc + CodeSize(a)) == Some(i)
    ensures Placed(e, pc + CodeSize(a) + Size(i), b, d + Delta(i))
    ensures CodeSize(a + ([i] + b)) == CodeSize(a) + Size(i) + CodeSize(b)
  {
    hide Placed, Size, CodeSize, Fetch, Encodable, Delta, EndDepth;
    PlacedAppend(e, pc, a, [i] + b, d);
    PlacedCons(e, pc + CodeSize(a), i, b, d);
  }

  /** One unfolding of an unbounded loop. */
  lemma {:induction false} StarUnfold(s: Subject, m: Node, back: bool, cc: nat, greedy: bool, x: State)
    ensures var more := Flat(Results(s, m, back, cc, x), Next(s, m, back, cc, Star(greedy), x));
            Iter(s, m, back, cc, Star(greedy), x) == if greedy then more + [x] else [x] + more
  {
    hide Results, IterAll, Flat;
    IterAllFlat(s, m, back, cc, Star(greedy), x, Results(s, m, back, cc, x));
  }

  /** A split whose next instruction is preferred if `greedy`. */
  lemma {:induction false} SplitGives(e: Env, pc: nat, greedy: bool, off: int, x: State, st: seq<nat>,
                                      next: seq<State>, far: seq<State>, pcB: nat, pc': nat, st': seq<nat>)
    requires Fetch(e.code, pc) == Some(Split(greedy, off)) && x.pos <= |e.s.input| && pcB == pc + 5 + off
    requires Gives(e, pc + 5, x, st, next, pc', st') && Gives(e, pcB, x, st, far, pc', st')
    ensures Gives(e, pc, x, st, if greedy then next + far else far + next, pc', st')
  {
    hide Fetch, Offers, Step;
    forall bt
      ensures Offers(e, At(pc, x, st, bt), if greedy then next + far else far + next, pc', st', bt)
    {
      var c := At(pc, x, st, bt);
      FetchedStep(e, c, Split(greedy, off));
      hide Gives;
      if greedy {
        SplitOffers(e, c, pc + 5, pcB, x, st, bt, next, far, pc', st');
      } else {
        SplitOffers(e, c, pcB, pc + 5, x, st, bt, far, next, pc', st');
      }
    }
  }

  /** Any number of iterations of an atom that always moves on: split, atom, goto. */
  lemma {:induction false} StarLoop(e: Env, m: Node, back: bool, cc: nat, greedy: bool, pc: nat, len: nat, x: State,
                                    st: seq<nat>, nc: nat)
    requires Fetch(e.code, pc) == Some(Split(greedy, len + 5))
    requires Fetch(e.code, pc + 5 + len) == Some(Goto(-(len + 10)))
    requires Matches(e, m, back, cc, pc + 5, pc + 5 + len, |st|, nc)
    requires Progresses(m, back, cc) && StateOk(e.s, x, nc)
    ensures Gives(e, pc, x, st, Iter(e.s, m, back, cc, Star(greedy), x), pc + 10 + len, st)
    decreases Remaining(e.s, back, x)
  {
    hide Fetch, Gives, Step, Results, Iter, IterAll, Progresses, Compile, Flat, Remaining, Matches;
    var end, rep, pcB := pc + 10 + len, Star(greedy), pc + 5 + len;
    var f := Next(e.s, m, back, cc, rep, x);
    var ys := Results(e.s, m, back, cc, x);
    ProgressMoves(e.s, m, back, cc, x, nc);
    forall y | y in ys
      ensures Gives(e, pcB, y, st, f(y), end, st)
    {
      StarLoop(e, m, back, cc, greedy, pc, len, y, st, nc);
      GotoMoves(e, pcB, -(len + 10), y, st, pc);
      MovesThen(e, pcB, y, st, pc, y, st, f(y), end, st);
    }
    MatchesAt(e, m, back, cc, pc + 5, pcB, nc, x, st);
    GivesThen(e, pc + 5, x, st, ys, pcB, st, f, end, st);
    Arrived(e, end, x, st);
    StarUnfold(e.s, m, back, cc, greedy, x);
    SplitGives(e, pc, greedy, len + 5, x, st, Flat(ys, f), [x], end, end, st);
  }

  lemma {:induction false} GotoMoves(e: Env, pc: nat, off: int, x: State, st: seq<nat>, pc': nat)
    requires Fetch(e.code, pc) == Some(Goto(off)) && pc' == pc + 5 + off && x.pos <= |e.s.input|
    ensures Moves(e, pc, x, st, pc', x, st)
  {
    hide Fetch, Step;
    forall bt
      ensures Step(e, At(pc, x, st, bt)) == At(pc', x, st, bt)
    {
      FetchedStep(e, At(pc, x, st, bt), Goto(off));
    }
  }

  lemma {:induction false} PushMoves(e: Env, pc: nat, k: nat, x: State, st: seq<nat>)
    requires Fetch(e.code, pc) == Some(PushI32(k)) && x.pos <= |e.s.input| && |st| < e.maxStack
    ensures Moves(e, pc, x, st, pc + 5, x, st + [k])
  {
    hide Fetch, Step;
    forall bt
      ensures Step(e, At(pc, x, st, bt)) == At(pc + 5, x, st + [k], bt)
    {
      FetchedStep(e, At(pc, x, st, bt), PushI32(k));
    }
  }

  lemma {:induction false} PushPosMoves(e: Env, pc: nat, x: State, st: seq<nat>)
    requires Fetch(e.code, pc) == Some(PushCharPos) && x.pos <= |e.s.input| && |st| < e.maxStack
    ensures Moves(e, pc, x, st, pc + 1, x, st + [x.pos])
  {
    hide Fetch, Step;
    forall bt
      ensures Step(e, At(pc, x, st, bt)) == At(pc + 1, x, st + [x.pos], bt)
    {
      FetchedStep(e, At(pc, x, st, bt), PushCharPos);
    }
  }

  lemma {:induction false} DropMoves(e: Env, pc: nat, k: nat, x: State, st: seq<nat>)
    requires Fetch(e.code, pc) == Some(Drop) && x.pos <= |e.s.input|
    ensures Moves(e, pc, x, st + [k], pc + 1, x, st)
  {
    hide Fetch, Step;
    forall bt
      ensures Step(e, At(pc, x, st + [k], bt)) == At(pc + 1, x, st, bt)
    {
      assert (st + [k])[..|st|] == st;
      FetchedStep(e, At(pc, x, st + [k], bt), Drop);
    }
  }

  lemma {:induction false} LoopMoves(e: Env, pc: nat, off: int, k: nat, x: State, st: seq<nat>, pc': nat)
    requires Fetch(e.code, pc) == Some(Loop(off)) && x.pos <= |e.s.input| && k > 0 && pc' == (if k == 1 then pc + 5 else pc + 5 + off)
    ensures Moves(e, pc, x, st + [k], pc', x, st + [k - 1])
  {
    hide Fetch, Step;
    forall bt
      ensures Step(e, At(pc, x, st + [k], bt)) == At(pc', x, st + [k - 1], bt)
    {
      assert (st + [k])[|st| := k - 1] == st + [k - 1];
      FetchedStep(e, At(pc, x, st + [k], bt), Loop(off));
    }
  }

  lemma {:induction false} BneStep(e: Env, pc: nat, off: int, p: nat, x: State, st: seq<nat>, pc': nat, bt: seq<Frame>)
    requires x.pos <= |e.s.input| && pc' == (if p == x.pos then pc + 5 else pc + 5 + off)
    ensures StepControl(e, At(pc, x, st + [p], bt), BneCharPos(off)) == At(pc', x, st, bt)
  {
    hide RunGreedy, ResetCaps;
    var top := st + [p];
    assert top[|top| - 1] == p && top[..|top| - 1] == st;
  }

  lemma {:induction false} BneMoves(e: Env, pc: nat, off: int, p: nat, x: State, st: seq<nat>, pc': nat)
    requires Fetch(e.code, pc) == Some(BneCharPos(off)) && x.pos <= |e.s.input|
    requires pc' == (if p == x.pos then pc + 5 else pc + 5 + off)
    ensures Moves(e, pc, x, st + [p], pc', x, st)
  {
    hide Fetch, Step, StepControl;
    forall bt
      ensures Step(e, At(pc, x, st + [p], bt)) == At(pc', x, st, bt)
    {
      FetchedStep(e, At(pc, x, st + [p], bt), BneCharPos(off));
      BneStep(e, pc, off, p, x, st, pc', bt);
    }
  }

  /** Any number of iterations of an atom that may match nothing: an empty iteration leaves the loop. */
  lemma {:induction false} CheckedLoop(e: Env, m: Node, back: bool, cc: nat, pc: nat, len: nat, x: State,
                                       st: seq<nat>, nc: nat)
    requires Fetch(e.code, pc) == Some(SplitNextFirst(len + 6)) && Fetch(e.code, pc + 5) == Some(PushCharPos)
    requires Fetch(e.code, pc + 6 + len) == Some(BneCharPos(-(len + 11))) && |st| < e.maxStack
    requires Matches(e, m, back, cc, pc + 6, pc + 6 + len, |st| + 1, nc) && StateOk(e.s, x, nc)
    ensures Gives(e, pc, x, st, Iter(e.s, m, back, cc, Star(true), x), pc + 11 + len, st)
    decreases Remaining(e.s, back, x)
  {
    hide Fetch, Gives, Step, Results, Iter, IterAll, CheckAdvance, Compile, Flat, Matches, Moves;
    var end, rep, pcB, st1 := pc + 11 + len, Star(true), pc + 6 + len, st + [x.pos];
    var f := Next(e.s, m, back, cc, rep, x);
    var ys := Results(e.s, m, back, cc, x);
    ResultsOk(e.s, m, back, cc, x, nc);
    forall y | y in ys
      ensures Gives(e, pcB, y, st1, f(y), end, st)
    {
      if y.pos == x.pos {
        BneMoves(e, pcB, -(len + 11), x.pos, y, st, end);
        MovesTo(e, pcB, y, st1, end, y, st);
      } else {
        CheckedLoop(e, m, back, cc, pc, len, y, st, nc);
        BneMoves(e, pcB, -(len + 11), x.pos, y, st, pc);
        MovesThen(e, pcB, y, st1, pc, y, st, f(y), end, st);
      }
    }
    MatchesAt(e, m, back, cc, pc + 6, pcB, nc, x, st1);
    GivesThen(e, pc + 6, x, st1, ys, pcB, st1, f, end, st);
    PushPosMoves(e, pc + 5, x, st);
    MovesThen(e, pc + 5, x, st, pc + 6, x, st1, Flat(ys, f), end, st);
    Arrived(e, end, x, st);
    StarUnfold(e.s, m, back, cc, true, x);
    SplitGives(e, pc, true, len + 6, x, st, Flat(ys, f), [x], end, end, st);
  }

  /** At most k iterations, from the split with k on top of the counter stack, to after the drop. */
  lemma {:induction false} CountedLoop(e: Env, m: Node, back: bool, cc: nat, greedy: bool, k: nat, pc: nat, len: nat,
                                       x: State, st: seq<nat>, nc: nat)
    requires Fetch(e.code, pc) == Some(Split(greedy, len + 5)) && k > 0
    requires Fetch(e.code, pc + 5 + len) == Some(Loop(-(len + 10))) && Fetch(e.code, pc + 10 + len) == Some(Drop)
    requires Matches(e, m, back, cc, pc + 5, pc + 5 + len, |st| + 1, nc) && StateOk(e.s, x, nc)
    ensures Gives(e, pc, x, st + [k], Iter(e.s, m, back, cc, UpTo(k, greedy), x), pc + 11 + len, st)
    decreases k
  {
    hide Fetch, Gives, Step, Results, IterAll, CheckAdvance, Compile, Flat, Matches, Moves, Remaining;
    var end, rep, pcB, st1 := pc + 11 + len, UpTo(k - 1, greedy), pc + 5 + len, st + [k];
    var f := Next(e.s, m, back, cc, rep, x);
    var ys := Results(e.s, m, back, cc, x);
    ResultsOk(e.s, m, back, cc, x, nc);
    forall y | y in ys
      ensures Gives(e, pcB, y, st1, f(y), end, st)
    {
      if k == 1 {
        LoopMoves(e, pcB, -(len + 10), k, y, st, pc + 10 + len);
        DropMoves(e, pc + 10 + len, 0, y, st);
        MovesTo(e, pc + 10 + len, y, st + [0], end, y, st);
        MovesThen(e, pcB, y, st1, pc + 10 + len, y, st + [0], f(y), end, st);
      } else {
        CountedLoop(e, m, back, cc, greedy, k - 1, pc, len, y, st, nc);
        LoopMoves(e, pcB, -(len + 10), k, y, st, pc);
        MovesThen(e, pcB, y, st1, pc, y, st + [k - 1], f(y), end, st);
      }
    }
    MatchesAt(e, m, back, cc, pc + 5, pcB, nc, x, st1);
    GivesThen(e, pc + 5, x, st1, ys, pcB, st1, f, end, st);
    DropMoves(e, pc + 10 + len, k, x, st);
    MovesTo(e, pc + 10 + len, x, st1, end, x, st);
    IterAllFlat(e.s, m, back, cc, rep, x, ys);
    SplitGives(e, pc, greedy, len + 5, x, st1, Flat(ys, f), [x], pc + 10 + len, end, st);
  }

  /** Exactly k iterations, from the atom with k on top of the counter stack, to after the drop. */
  lemma {:induction false} TimesLoop(e: Env, m: Node, back: bool, cc: nat, k: nat, pc: nat, len: nat,
                                     x: State, st: seq<nat>, nc: nat)
    requires Fetch(e.code, pc + len) == Some(Loop(-(len + 5))) && Fetch(e.code, pc + len + 5) == Some(Drop) && k > 0
    requires Matches(e, m, back, cc, pc, pc + len, |st| + 1, nc) && StateOk(e.s, x, nc)
    ensures Gives(e, pc, x, st + [k], Iter(e.s, m, back, cc, Times(k), x), pc + len + 6, st)
    decreases k
  {
    hide Fetch, Gives, Step, Results, IterAll, CheckAdvance, Compile, Flat, Matches, Moves, Remaining;
    var end, rep, pcB, st1 := pc + len + 6, Times(k - 1), pc + len, st + [k];
    var f := Next(e.s, m, back, cc, rep, x);
    var ys := Results(e.s, m, back, cc, x);
    ResultsOk(e.s, m, back, cc, x, nc);
    forall y | y in ys
      ensures Gives(e, pcB, y, st1, f(y), end, st)
    {
      if k == 1 {
        LoopMoves(e, pcB, -(len + 5), k, y, st, pcB + 5);
        DropMoves(e, pcB + 5, 0, y, st);
        MovesTo(e, pcB + 5, y, st + [0], end, y, st);
        MovesThen(e, pcB, y, st1, pcB + 5, y, st + [0], f(y), end, st);
      } else {
        TimesLoop(e, m, back, cc, k - 1, pc, len, y, st, nc);
        LoopMoves(e, pcB, -(len + 5), k, y, st, pc);
        MovesThen(e, pcB, y, st1, pc, y, st + [k - 1], f(y), end, st);
      }
    }
    MatchesAt(e, m, back, cc, pc, pcB, nc, x, st1);
    GivesThen(e, pc, x, st1, ys, pcB, st1, f, end, st);
    IterAllFlat(e.s, m, back, cc, rep, x, ys);
  }

  /** The short form of `+`: the atom, then a split back to it. From the split it is a star. */
  lemma {:induction false} PlusLoop(e: Env, m: Node, back: bool, cc: nat, greedy: bool, pc: nat, len: nat, x: State,
                                    st: seq<nat>, nc: nat)
    requires Fetch(e.code, pc + len) == Some(Split(!greedy, -(len + 5)))
    requires Matches(e, m, back, cc, pc, pc + len, |st|, nc)
    requires Progresses(m, back, cc) && StateOk(e.s, x, nc)
    ensures Gives(e, pc + len, x, st, Iter(e.s, m, back, cc, Star(greedy), x), pc + len + 5, st)
    decreases Remaining(e.s, back, x)
  {
    hide Fetch, Gives, Step, Results, Iter, IterAll, Progresses, Compile, Flat, Remaining, Matches;
    var end, rep, pcB := pc + len + 5, Star(greedy), pc + len;
    var f := Next(e.s, m, back, cc, rep, x);
    var ys := Results(e.s, m, back, cc, x);
    ProgressMoves(e.s, m, back, cc, x, nc);
    forall y | y in ys
      ensures Gives(e, pcB, y, st, f(y), end, st)
    {
      PlusLoop(e, m, back, cc, greedy, pc, len, y, st, nc);
    }
    MatchesAt(e, m, back, cc, pc, pcB, nc, x, st);
    GivesThen(e, pc, x, st, ys, pcB, st, f, end, st);
    Arrived(e, end, x, st);
    StarUnfold(e.s, m, back, cc, greedy, x);
    SplitGives(e, pcB, !greedy, -(len + 5), x, st, [x], Flat(ys, f), pc, end, st);
  }
}
