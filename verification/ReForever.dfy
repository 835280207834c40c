/** Which programs with an unchecked loop run for ever. */
module ReForever {
  import opened ReCode
  import opened ReSyntax
  import opened ReMatch
  import opened ReUnfold
  import opened ReVm
  import opened ReLaws
  import opened ReRun
  import opened ReRange
  import opened ReCorrect
  import opened ReLoops
  import opened ReGreedy
  import opened ReMain
  import opened ReQuant
  import opened ReProgram
  import opened ReEndless

  lemma {:induction false} SplitStep(e: Env, pc: nat, next: bool, off: int, far: nat, x: State, st: seq<nat>, bt: seq<Frame>)
    requires Fetch(e.code, pc) == Some(Split(next, off)) && x.pos <= |e.s.input| && far == pc + 5 + off
    ensures Step(e, At(pc, x, st, bt)) ==
            if next then At(pc + 5, x, st, [SplitTo(far, x, st)] + bt) else At(far, x, st, [SplitTo(pc + 5, x, st)] + bt)
  {
    hide Fetch, Step, RunGreedy, ResetCaps, RefersTo;
    FetchedStep(e, At(pc, x, st, bt), Split(next, off));
  }

  /** Split, atom, goto: the loop for any number of iterations. */
  lemma {:induction false} StarIsUnchecked(e: Env, greedy: bool, pc: nat, len: nat, st: seq<nat>, nc: nat)
    requires Fetch(e.code, pc) == Some(Split(greedy, len + 5)) && Fetch(e.code, pc + 5 + len) == Some(Goto(-(len + 10)))
    ensures Unchecked(e, pc, pc + 5, pc + 5 + len, pc + 10 + len, greedy, st, nc)
  {
    hide Fetch, Step, Reaches, StateOk;
    forall x, bt: seq<Frame> | StateOk(e.s, x, nc)
      ensures Step(e, At(pc, x, st, bt)) ==
              (if greedy then At(pc + 5, x, st, [SplitTo(pc + 10 + len, x, st)] + bt)
               else At(pc + 10 + len, x, st, [SplitTo(pc + 5, x, st)] + bt))
      ensures Reaches(e, At(pc + 5 + len, x, st, bt), At(pc, x, st, bt))
    {
      OkInside(e.s, x, nc);
      SplitStep(e, pc, greedy, len + 5, pc + 10 + len, x, st, bt);
      GotoMoves(e, pc + 5 + len, -(len + 10), x, st, pc);
      ReachRefl(e, At(pc, x, st, bt));
      ReachStep(e, At(pc + 5 + len, x, st, bt), At(pc, x, st, bt));
    }
  }

  /** Atom, split back: the loop for one or more iterations. */
  lemma {:induction false} PlusIsUnchecked(e: Env, greedy: bool, pc: nat, len: nat, st: seq<nat>, nc: nat)
    requires Fetch(e.code, pc + len) == Some(Split(!greedy, -(len + 5)))
    ensures Unchecked(e, pc + len, pc, pc + len, pc + len + 5, greedy, st, nc)
  {
    hide Fetch, Step, Reaches, StateOk;
    var head := pc + len;
    forall x, bt: seq<Frame> | StateOk(e.s, x, nc)
      ensures Step(e, At(head, x, st, bt)) ==
              (if greedy then At(pc, x, st, [SplitTo(head + 5, x, st)] + bt) else At(head + 5, x, st, [SplitTo(pc, x, st)] + bt))
      ensures Reaches(e, At(head, x, st, bt), At(head, x, st, bt))
    {
      OkInside(e.s, x, nc);
      SplitStep(e, head, !greedy, -(len + 5), pc, x, st, bt);
      ReachRefl(e, At(head, x, st, bt));
    }
  }

  /** The empty class, which accepts no character. */
  const Never: Node := Atom(InClass([]))

  /** An unbounded loop over m, followed by what never matches. */
  function Forever(m: Node, greedy: bool): Node {
    Cat(Quant(m, 0, None, greedy), Never)
  }

  lemma {:induction false} NeverRejects(e: Env, pc: nat, st: seq<nat>, y: State, nc: nat)
    requires Fetch(e.code, pc) == Some(Char32(UINT32_MAX)) && SubjectOk(e.s) && StateOk(e.s, y, nc)
    ensures Rejects(e, pc, st, y)
  {
    hide Fetch, Step, Reaches, StateOk, GetChar, SubjectOk;
    OkInside(e.s, y, nc);
    if y.pos < |e.s.input| {
      CharBound(e.s, y.pos);
    }
    forall bt: seq<Frame>
      ensures Reaches(e, At(pc, y, st, bt), Fail(bt))
    {
      FetchedStep(e, At(pc, y, st, bt), Char32(UINT32_MAX));
      ReachRefl(e, Fail(bt));
      ReachStep(e, At(pc, y, st, bt), Fail(bt));
    }
  }

  lemma {:induction false} NeverRejectsAll(e: Env, m: Node, back: bool, cc: nat, pc: nat, st: seq<nat>, x: State, nc: nat)
    requires Fetch(e.code, pc) == Some(Char32(UINT32_MAX)) && SubjectOk(e.s) && StateOk(e.s, x, nc)
    ensures RejectsAll(e, m, back, cc, pc, st, x)
  {
    hide Fetch, SubjectOk, StateOk, Rejects, ReachedIn;
    forall y | Reached(e.s, m, back, cc, x, y)
      ensures Rejects(e, pc, st, y)
    {
      var k: nat :| ReachedIn(e.s, m, back, cc, x, y, k);
      ReachedInOk(e.s, m, back, cc, x, y, k, nc);
      NeverRejects(e, pc, st, y, nc);
    }
  }

  /** Code with a back reference is not simple. */
  lemma {:induction false} SelfRefersNotSimple(a: seq<Instr>)
    requires SelfRefers(a)
    ensures SimpleCount(a) == None
  {
    hide SimpleCount, Writes;
    var i, j :| 0 <= i < |a| && 0 <= j < |a| && IsBackRef(a[j]) && Writes(a[i], a[j].group);
    assert a == a[..j] + ([a[j]] + a[j + 1..]);
    NotSimple(a[..j], a[j], a[j + 1..]);
  }

  /** Where the parts of the program are. */
  ghost predicate Layout(e: Env, m: Node, greedy: bool, reset: seq<Instr>, head: nat, len: nat) {
    var a := Compile(m, false, 1);
    head == 2 + CodeSize(reset) && len == CodeSize(a) &&
    Fetch(e.code, 0) == Some(SaveStart(0)) && (reset != [] ==> Fetch(e.code, 2) == Some(reset[0])) &&
    Fetch(e.code, head) == Some(Split(greedy, len + 5)) && Fetch(e.code, head + 5 + len) == Some(Goto(-(len + 10))) &&
    Placed(e, head + 5, a, 0) && Fetch(e.code, head + 10 + len) == Some(Char32(UINT32_MAX))
  }

  lemma {:induction false} LoopCode(a: seq<Instr>, greedy: bool, reset: seq<Instr>)
    requires !greedy || SelfRefers(a)
    ensures var len: int := CodeSize(a);
            QuantCode(a, 0, None, greedy, reset) == reset + ([Split(greedy, len + 5)] + a + [Goto(-(len + 10))])
  {
    hide CodeSize, SimpleCount, SelfRefers;
    if greedy {
      SelfRefersNotSimple(a);
    }
  }

  lemma {:induction false} NeverCode(cc: nat)
    ensures Compile(Never, false, cc) == [Char32(UINT32_MAX)]
  {
  }

  /** The program of a quantifier followed by what never matches. */
  lemma {:induction false} ProgramCode(q: Node)
    ensures Program(Cat(q, Never), true) == [SaveStart(0)] + (Compile(q, false, 1) + [Char32(UINT32_MAX)]) + [SaveEnd(0)] + [Match]
  {
    hide Compile, NumCaps, Results, ResultsAll, SetAll, NodeOk, Never;
    var s, x := Subject([], false, false), State(0, []);
    GroupUnfold(s, Cat(q, Never), false, 0, x);
    CatUnfold(s, q, Never, false, 1, x);
    NeverCode(1 + NumCaps(q));
  }

  lemma {:induction false} ForeverLoop(m: Node, greedy: bool)
    requires !greedy || SelfRefers(Compile(m, false, 1))
    ensures var a := Compile(m, false, 1); var len: int := CodeSize(a);
            Compile(Quant(m, 0, None, greedy), false, 1) == ResetCode(m, 0, 1) + ([Split(greedy, len + 5)] + a + [Goto(-(len + 10))])
  {
    hide Compile, CodeSize, QuantCode, Results, NodeOk, SelfRefers, ResetCode, NumCaps, IterEach, Iter, ResetAtom, Split;
    QuantUnfold(Subject([], false, false), Quant(m, 0, None, greedy), false, 1, State(0, []));
    LoopCode(Compile(m, false, 1), greedy, ResetCode(m, 0, 1));
  }

  lemma {:induction false} ForeverCode(m: Node, greedy: bool)
    requires !greedy || SelfRefers(Compile(m, false, 1))
    ensures var a := Compile(m, false, 1); var len: int := CodeSize(a);
            Program(Forever(m, greedy), true) ==
            [SaveStart(0)] + (ResetCode(m, 0, 1) + ([Split(greedy, len + 5)] + (a + ([Goto(-(len + 10))] + ([Char32(UINT32_MAX)] + [SaveEnd(0), Match])))))
  {
    hide Compile, CodeSize, QuantCode, Results, NodeOk, SelfRefers, ResetCode, Never, Program, Split;
    var q := Quant(m, 0, None, greedy);
    var len: int := CodeSize(Compile(m, false, 1));
    ProgramCode(q);
    ForeverLoop(m, greedy);
    Regroup(Compile(q, false, 1), ResetCode(m, 0, 1), [Split(greedy, len + 5)], Compile(m, false, 1), [Goto(-(len + 10))], [Char32(UINT32_MAX)]);
  }

  lemma {:induction false} Regroup(q: seq<Instr>, r: seq<Instr>, p: seq<Instr>, a: seq<Instr>, g: seq<Instr>, c: seq<Instr>)
    requires q == r + (p + a + g)
    ensures [SaveStart(0)] + (q + c) + [SaveEnd(0)] + [Match] == [SaveStart(0)] + (r + (p + (a + (g + (c + [SaveEnd(0), Match])))))
  {
  }

  lemma {:induction false} ForeverLayout(m: Node, greedy: bool, s: Subject)
    requires (!greedy || SelfRefers(Compile(m, false, 1))) && AllEncodable(Program(Forever(m, greedy), true))
    ensures var reset := ResetCode(m, 0, 1);
            Layout(Machine(Forever(m, greedy), true, s), m, greedy, reset, 2 + CodeSize(reset), CodeSize(Compile(m, false, 1)))
  {
    hide Compile, CodeSize, Placed, Program, EncodeAll, MaxDepth, EndDepth, Fetch, Encodable, ResetCode, SelfRefers, AllEncodable;
    var e, a, reset := Machine(Forever(m, greedy), true, s), Compile(m, false, 1), ResetCode(m, 0, 1);
    var len: int := CodeSize(a);
    ForeverCode(m, greedy);
    var rest := [Split(greedy, len + 5)] + (a + ([Goto(-(len + 10))] + ([Char32(UINT32_MAX)] + [SaveEnd(0), Match])));
    AllPlaced(e, Program(Forever(m, greedy), true));
    PlacedCons(e, 0, SaveStart(0), reset + rest, 0);
    PlacedAppend(e, 2, reset, rest, 0);
    ResetFlat(m);
    if reset != [] {
      PlacedHead(e, 2, reset, 0);
    }
    LoopLayout(e, m, greedy, 2 + CodeSize(reset));
  }

  lemma {:induction false} LoopLayout(e: Env, m: Node, greedy: bool, head: nat)
    requires var a := Compile(m, false, 1); var len: int := CodeSize(a);
             Placed(e, head, [Split(greedy, len + 5)] + (a + ([Goto(-(len + 10))] + ([Char32(UINT32_MAX)] + [SaveEnd(0), Match]))), 0)
    ensures var a := Compile(m, false, 1); var len: int := CodeSize(a);
            Fetch(e.code, head) == Some(Split(greedy, len + 5)) && Fetch(e.code, head + 5 + len) == Some(Goto(-(len + 10))) &&
            Placed(e, head + 5, a, 0) && Fetch(e.code, head + 10 + len) == Some(Char32(UINT32_MAX))
  {
    hide Compile, CodeSize, Placed, EndDepth, Fetch, Encodable;
    var a := Compile(m, false, 1);
    var len: int := CodeSize(a);
    var tail := [Char32(UINT32_MAX)] + [SaveEnd(0), Match];
    PlacedCons(e, head, Split(greedy, len + 5), a + ([Goto(-(len + 10))] + tail), 0);
    Balanced(m, false, 1, 0);
    PlacedThen(e, head + 5, a, Goto(-(len + 10)), tail, 0);
    PlacedCons(e, head + 10 + len, Char32(UINT32_MAX), [SaveEnd(0), Match], 0);
  }

  lemma {:induction false} AllPlaced(e: Env, p: seq<Instr>)
    requires AllEncodable(p) && e.code == EncodeAll(p) && e.maxStack == MaxDepth(p, 0)
    ensures Placed(e, 0, p, 0)
  {
    hide EncodeAll, MaxDepth, Encodable, CodeSize;
    assert e.code[0..0 + CodeSize(p)] == e.code;
  }

  lemma {:induction false} ResetFlat(m: Node)
    ensures EndDepth(ResetCode(m, 0, 1), 0) == 0
  {
    hide NumCaps, EndDepth;
    EmptyDepth(0);
    if ResetCode(m, 0, 1) != [] {
      EndOne(ResetCode(m, 0, 1)[0], 0);
    }
  }

  /** The state in which the loop is entered. */
  ghost function Entry(m: Node, greedy: bool, pos: nat): State {
    ResetAtom(m, 0, 1, SetCap(Start(Forever(m, greedy), pos), 0))
  }

  lemma {:induction false} EntryReached(e: Env, m: Node, greedy: bool, pos: nat, head: nat, len: nat)
    requires Layout(e, m, greedy, ResetCode(m, 0, 1), head, len) && Boundary(e.s, pos)
    ensures StateOk(e.s, Entry(m, greedy, pos), 1 + NumCaps(m))
    ensures Reaches(e, Initial(Forever(m, greedy), pos), At(head, Entry(m, greedy, pos), [], []))
  {
    hide Compile, CodeSize, Placed, Fetch, Step, Reaches, NumCaps, Boundary, StateOk, Moves, ResetCaps;
    var n := Forever(m, greedy);
    ForeverCaps(m, greedy);
    var x0, nc := Start(n, pos), 1 + NumCaps(m);
    StartOk(e.s, n, pos);
    var x1 := SetCap(x0, 0);
    SetCapOk(e.s, false, x0, 0, nc);
    OkInside(e.s, x0, nc);
    OkInside(e.s, x1, nc);
    var x2 := Entry(m, greedy, pos);
    ResetOk(e.s, false, m, 0, 1, x1, nc);
    SaveMoves(e, 0, SaveStart(0), 0, x0, []);
    MoveReaches(e, 0, x0, 2, x1);
    NoSize();
    if NumCaps(m) > 0 {
      OneSize(ResetCode(m, 0, 1)[0]);
      ResetMoves(e, 2, 1, NumCaps(m), x1, []);
      MoveReaches(e, 2, x1, 5, x2);
      ReachTrans(e, At(0, x0, [], []), At(2, x1, [], []), At(head, x2, [], []));
    }
  }

  lemma {:induction false} MoveReaches(e: Env, pc: nat, x: State, pc': nat, x': State)
    requires ReLoops.Moves(e, pc, x, [], pc', x', [])
    ensures Reaches(e, At(pc, x, [], []), At(pc', x', [], []))
  {
    hide Step, Reaches;
    ReachRefl(e, At(pc', x', [], []));
    ReachStep(e, At(pc, x, [], []), At(pc', x', [], []));
  }

  lemma {:induction false} ForeverCaps(m: Node, greedy: bool)
    ensures NumCaps(Forever(m, greedy)) == NumCaps(m)
  {
  }

  lemma {:induction false} StartOk(s: Subject, n: Node, pos: nat)
    requires Boundary(s, pos)
    ensures StateOk(s, Start(n, pos), 1 + NumCaps(n))
  {
    hide NumCaps;
  }

  /** A machine that comes to where it never halts never halts. */
  lemma {:induction false} NeverFrom(e: Env, a: Vm, b: Vm, k: nat)
    requires Reaches(e, a, b) && forall j: nat :: !StepN(e, b, j).Halt?
    ensures !StepN(e, a, k).Halt?
  {
    hide Step;
    var n: nat :| StepN(e, a, n) == b;
    if n <= k {
      StepNAdd(e, a, n, k - n);
    } else {
      StepNAdd(e, a, k, n - k);
      if StepN(e, a, k).Halt? {
        HaltIsLast(e, StepN(e, a, k), n - k);
        StillThere(e, b);
      }
    }
  }

  lemma {:induction false} StillThere(e: Env, b: Vm)
    ensures StepN(e, b, 0) == b
  {
  }

  ghost predicate Ends(e: Env, vm: Vm) {
    exists k: nat :: StepN(e, vm, k).Halt?
  }

  /**
  The machine for (?:m)*?[], or for (?:m)*[] when m refers back to its own groups: its run ends if
  and only if the iterations of m reach no state that comes back to itself.
  */
  lemma {:induction false} RunEndsIff(m: Node, greedy: bool, s: Subject, pos: nat)
    requires NodeOk(m, false, 1) && (!greedy || SelfRefers(Compile(m, false, 1))) && AllEncodable(Program(Forever(m, greedy), true))
    requires SubjectOk(s) && Boundary(s, pos)
    ensures Ends(Machine(Forever(m, greedy), true, s), Initial(Forever(m, greedy), pos)) <==>
            !Circular(s, m, false, 1, Entry(m, greedy, pos))
  {
    hide NodeOk, Compile, SelfRefers, AllEncodable, SubjectOk, Boundary, Circular, Placed, CodeSize, Matches, Unchecked, Fetch, StateOk,
         Step, RejectsAll, Entry, Program, EncodeAll, MaxDepth, NumCaps, ResetCode, Initial;
    var n := Forever(m, greedy);
    var e, x, nc := Machine(n, true, s), Entry(m, greedy, pos), 1 + NumCaps(m);
    var head, len := 2 + CodeSize(ResetCode(m, 0, 1)), CodeSize(Compile(m, false, 1));
    ForeverLayout(m, greedy, s);
    EntryReached(e, m, greedy, pos, head, len);
    StarIsUnchecked(e, greedy, head, len, [], nc);
    Compiled(e, m, false, 1, head + 5, 0, nc);
    NeverRejectsAll(e, m, false, 1, head + 10 + len, [], x, nc);
    var c := At(head, x, [], []);
    if Circular(s, m, false, 1, x) {
      forall j: nat
        ensures !StepN(e, c, j).Halt?
      {
        NeverHalts(e, m, false, 1, head, head + 5, head + 5 + len, head + 10 + len, greedy, x, [], [], nc, j);
      }
      forall k: nat
        ensures !StepN(e, Initial(n, pos), k).Halt?
      {
        NeverFrom(e, Initial(n, pos), c, k);
      }
    } else {
      EndsIff(e, m, false, 1, head, head + 5, head + 5 + len, head + 10 + len, greedy, x, [], nc);
      assert Reaches(e, c, Fail([]));
      ReachTrans(e, Initial(n, pos), c, Fail([]));
      Halts(e, Initial(n, pos), [], false);
    }
  }

  /** One or more iterations of m, followed by what never matches. */
  function ForeverPlus(m: Node, greedy: bool): Node {
    Cat(Quant(m, 1, None, greedy), Never)
  }

  lemma {:induction false} PlusCode(m: Node, greedy: bool)
    requires !greedy || SelfRefers(Compile(m, false, 1))
    ensures var a := Compile(m, false, 1); var len: int := CodeSize(a);
            Program(ForeverPlus(m, greedy), true) ==
            [SaveStart(0)] + (a + ([Split(!greedy, -(len + 5))] + ([Char32(UINT32_MAX)] + [SaveEnd(0), Match])))
  {
    hide Compile, CodeSize, QuantCode, Results, NodeOk, SelfRefers, Never, Program;
    var q := Quant(m, 1, None, greedy);
    var a := Compile(m, false, 1);
    var len: int := CodeSize(a);
    ProgramCode(q);
    QuantUnfold(Subject([], false, false), q, false, 1, State(0, []));
    PlusLoopCode(a, greedy);
    RegroupPlus(a, [Split(!greedy, -(len + 5))], [Char32(UINT32_MAX)]);
  }

  lemma {:induction false} PlusLoopCode(a: seq<Instr>, greedy: bool)
    requires !greedy || SelfRefers(a)
    ensures var len: int := CodeSize(a);
            QuantCode(a, 1, None, greedy, []) == a + [Split(!greedy, -(len + 5))]
  {
    hide CodeSize, SimpleCount, SelfRefers;
    if greedy {
      SelfRefersNotSimple(a);
    }
  }

  lemma {:induction false} RegroupPlus(a: seq<Instr>, g: seq<Instr>, c: seq<Instr>)
    ensures [SaveStart(0)] + ((a + g) + c) + [SaveEnd(0)] + [Match] == [SaveStart(0)] + (a + (g + (c + [SaveEnd(0), Match])))
  {
  }

  lemma {:induction false} PlusLayout(e: Env, m: Node, greedy: bool, s: Subject, len: nat)
    requires (!greedy || SelfRefers(Compile(m, false, 1))) && AllEncodable(Program(ForeverPlus(m, greedy), true))
    requires e == Machine(ForeverPlus(m, greedy), true, s) && len == CodeSize(Compile(m, false, 1))
    ensures Fetch(e.code, 0) == Some(SaveStart(0)) && Placed(e, 2, Compile(m, false, 1), 0)
    ensures Fetch(e.code, 2 + len) == Some(Split(!greedy, -(len + 5))) && Fetch(e.code, 2 + len + 5) == Some(Char32(UINT32_MAX))
  {
    hide Compile, CodeSize, Placed, Program, EncodeAll, MaxDepth, EndDepth, Fetch, Encodable, SelfRefers, AllEncodable;
    var a := Compile(m, false, 1);
    PlusCode(m, greedy);
    var tail := [Char32(UINT32_MAX)] + [SaveEnd(0), Match];
    AllPlaced(e, Program(ForeverPlus(m, greedy), true));
    PlacedCons(e, 0, SaveStart(0), a + ([Split(!greedy, -(len + 5))] + tail), 0);
    Balanced(m, false, 1, 0);
    PlacedThen(e, 2, a, Split(!greedy, -(len + 5)), tail, 0);
    PlacedCons(e, 2 + len + 5, Char32(UINT32_MAX), [SaveEnd(0), Match], 0);
  }

  /** The state in which the first, mandatory iteration starts. */
  ghost function PlusEntry(m: Node, greedy: bool, pos: nat): State {
    SetCap(Start(ForeverPlus(m, greedy), pos), 0)
  }

  lemma {:induction false} PlusEntryReached(e: Env, m: Node, greedy: bool, pos: nat)
    requires Fetch(e.code, 0) == Some(SaveStart(0)) && Boundary(e.s, pos)
    ensures StateOk(e.s, PlusEntry(m, greedy, pos), 1 + NumCaps(m))
    ensures Reaches(e, Initial(ForeverPlus(m, greedy), pos), At(2, PlusEntry(m, greedy, pos), [], []))
  {
    hide Fetch, Step, Reaches, NumCaps, Boundary, StateOk, Moves;
    var n := ForeverPlus(m, greedy);
    PlusCaps(m, greedy);
    var x0, nc := Start(n, pos), 1 + NumCaps(m);
    StartOk(e.s, n, pos);
    SetCapOk(e.s, false, x0, 0, nc);
    OkInside(e.s, x0, nc);
    SaveMoves(e, 0, SaveStart(0), 0, x0, []);
    MoveReaches(e, 0, x0, 2, SetCap(x0, 0));
  }

  lemma {:induction false} PlusCaps(m: Node, greedy: bool)
    ensures NumCaps(ForeverPlus(m, greedy)) == NumCaps(m)
  {
  }

  /** Some result of the mandatory iteration leads to a circle. */
  ghost predicate CircularAfter(s: Subject, m: Node, back: bool, cc: nat, x: State) {
    exists y :: y in Results(s, m, back, cc, x) && Circular(s, m, back, cc, y)
  }

  /** From the body, for the first time: it fails, or comes to the head in a state that leads to a circle. */
  lemma {:induction false} FirstRound(e: Env, m: Node, back: bool, cc: nat, head: nat, body: nat, end: nat, greedy: bool, x: State, nc: nat)
    requires Unchecked(e, head, body, head, end, greedy, [], nc) && Matches(e, m, back, cc, body, head, 0, nc)
    requires StateOk(e.s, x, nc) && forall z | z in Results(e.s, m, back, cc, x) :: RejectsAll(e, m, back, cc, end, [], z)
    ensures !CircularAfter(e.s, m, back, cc, x) ==> Reaches(e, At(body, x, [], []), Fail([]))
    ensures CircularAfter(e.s, m, back, cc, x) ==>
              exists y, bt :: StateOk(e.s, y, nc) && Circular(e.s, m, back, cc, y) && RejectsAll(e, m, back, cc, end, [], y) &&
                Reaches(e, At(body, x, [], []), At(head, y, [], bt))
  {
    hide Results, Unchecked, Matches, StateOk, Circular, RejectsAll, Rejects, Reaches, Step, Offers;
    var ys, c := Results(e.s, m, back, cc, x), At(body, x, [], []);
    ResultsAllOk2(e.s, m, back, cc, x, nc);
    forall z | z in ys
      ensures Circular(e.s, m, back, cc, z) || Rejects(e, head, [], z)
    {
      EndsIff(e, m, back, cc, head, body, head, end, greedy, z, [], nc);
    }
    MatchesAt(e, m, back, cc, body, head, nc, x, []);
    assert Offers(e, c, ys, head, [], []);
    if CircularAfter(e.s, m, back, cc, x) {
      var y, bt := FirstCircular(e, m, back, cc, c, ys, head, [], []);
      assert Reaches(e, c, At(head, y, [], bt));
    } else {
      OffersRejected(e, c, ys, head, [], []);
    }
  }

  /**
  The same for (?:m)+?[], or for (?:m)+[] when m refers back to its own groups: the run ends if and
  only if no result of the mandatory iteration leads to a state that comes back to itself.
  */
  lemma {:induction false} PlusRunEndsIff(m: Node, greedy: bool, s: Subject, pos: nat)
    requires NodeOk(m, false, 1) && (!greedy || SelfRefers(Compile(m, false, 1))) && AllEncodable(Program(ForeverPlus(m, greedy), true))
    requires SubjectOk(s) && Boundary(s, pos)
    ensures Ends(Machine(ForeverPlus(m, greedy), true, s), Initial(ForeverPlus(m, greedy), pos)) <==>
            !CircularAfter(s, m, false, 1, PlusEntry(m, greedy, pos))
  {
    hide NodeOk, Compile, SelfRefers, AllEncodable, SubjectOk, Boundary, Circular, CircularAfter, Placed, CodeSize, Matches, Unchecked, Fetch,
         StateOk, Step, RejectsAll, PlusEntry, Program, EncodeAll, MaxDepth, NumCaps, Initial, Results, Reaches;
    var n := ForeverPlus(m, greedy);
    var e, x, nc := Machine(n, true, s), PlusEntry(m, greedy, pos), 1 + NumCaps(m);
    var len := CodeSize(Compile(m, false, 1));
    var head, start := 2 + len, At(2, x, [], []);
    PlusLayout(e, m, greedy, s, len);
    PlusEntryReached(e, m, greedy, pos);
    PlusIsUnchecked(e, greedy, 2, len, [], nc);
    Compiled(e, m, false, 1, 2, 0, nc);
    ResultsAllOk2(s, m, false, 1, x, nc);
    forall z | z in Results(s, m, false, 1, x)
      ensures RejectsAll(e, m, false, 1, head + 5, [], z)
    {
      NeverRejectsAll(e, m, false, 1, head + 5, [], z, nc);
    }
    FirstRound(e, m, false, 1, head, 2, head + 5, greedy, x, nc);
    if CircularAfter(s, m, false, 1, x) {
      var y, bt :| StateOk(e.s, y, nc) && Circular(e.s, m, false, 1, y) && RejectsAll(e, m, false, 1, head + 5, [], y) &&
                   Reaches(e, start, At(head, y, [], bt));
      var c := At(head, y, [], bt);
      ReachTrans(e, Initial(n, pos), start, c);
      forall j: nat
        ensures !StepN(e, c, j).Halt?
      {
        NeverHalts(e, m, false, 1, head, 2, head, head + 5, greedy, y, [], bt, nc, j);
      }
      forall k: nat
        ensures !StepN(e, Initial(n, pos), k).Halt?
      {
        NeverFrom(e, Initial(n, pos), c, k);
      }
    } else {
      ReachTrans(e, Initial(n, pos), start, Fail([]));
      FailEnds(e, Initial(n, pos));
    }
  }

  lemma {:induction false} FailEnds(e: Env, vm: Vm)
    requires Reaches(e, vm, Fail([]))
    ensures Ends(e, vm)
  {
    hide Step;
    Halts(e, vm, [], false);
  }

  lemma {:induction false} EmptyEncodable()
    ensures AllEncodable(Program(Forever(Empty, false), true))
  {
    hide Compile, Program;
    ForeverCode(Empty, false);
    EmptyUnfold(Subject([], false, false), false, 1, State(0, []));
    NoSize();
  }

  /** (?:)*?[] runs for ever on every subject. */
  lemma {:induction false} EmptyNeverHalts(s: Subject, pos: nat)
    requires SubjectOk(s) && Boundary(s, pos)
    ensures AllEncodable(Program(Forever(Empty, false), true))
    ensures !Ends(Machine(Forever(Empty, false), true, s), Initial(Forever(Empty, false), pos))
  {
    hide SubjectOk, Boundary, AllEncodable, Program, Ends, Entry, Results, Compile;
    EmptyEncodable();
    var x := Entry(Empty, false, pos);
    EmptyUnfold(s, false, 1, x);
    ReachedSelf(s, Empty, false, 1, x);
    assert x in Results(s, Empty, false, 1, x);
    assert Again(s, Empty, false, 1, x, x);
    RunEndsIff(Empty, false, s, pos);
  }
}
