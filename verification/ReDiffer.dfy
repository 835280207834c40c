/** Two patterns on which the machine and the standard's matcher give different answers. */
module ReDiffer {
  import opened ReCode
  import opened ReSyntax
  import opened ReMatch
  import opened ReUnfold
  import opened ReLaws
  import opened ReVm
  import opened ReRun
  import opened ReCorrect
  import opened ReQuant
  import opened ReProgram
  import opened ReEcma

  function Letter(c: nat): Node { Atom(OneChar(c)) }

  function Text(input: seq<nat>): Subject { Subject(input, false, false) }

  /** The state after one letter of the text, or nothing. */
  lemma {:induction false} LetterResults(s: Subject, c: nat, cc: nat, x: State)
    requires !s.utf16 && x.pos <= |s.input|
    ensures var rs := if x.pos < |s.input| && s.input[x.pos] == c then [x.(pos := x.pos + 1)] else [];
            Results(s, Letter(c), false, cc, x) == rs && Ecma(s, Letter(c), false, cc, x) == rs
  {
    hide Results;
    AtomUnfold(s, OneChar(c), false, cc, x);
  }

  /** The greedy unbounded loop over m from x, in the code and in the standard. */
  lemma {:induction false} StarIs(s: Subject, m: Node, cc: nat, x: State)
    ensures Loops(s, m, false, cc, 0, None, true, x) ==
            LoopsAll(s, m, false, cc, 0, None, true, x, Results(s, m, false, cc, x)) + [x]
    ensures Repeat(s, m, false, cc, 0, None, true, x) ==
            RepeatAll(s, m, false, cc, 0, None, true, x, Ecma(s, m, false, cc, Clear(m, cc, x))) + [x]
  {
    hide Results, Ecma, LoopsAll, RepeatAll, Clear;
  }

  lemma {:induction false} StarCons(s: Subject, m: Node, cc: nat, x: State, y: State, ys: seq<State>)
    ensures LoopsAll(s, m, false, cc, 0, None, true, x, []) == [] && RepeatAll(s, m, false, cc, 0, None, true, x, []) == []
    ensures LoopsAll(s, m, false, cc, 0, None, true, x, [y] + ys) ==
            (if Stalls(s, false, x, y) then [y] else Loops(s, m, false, cc, 0, None, true, y)) +
            LoopsAll(s, m, false, cc, 0, None, true, x, ys)
    ensures RepeatAll(s, m, false, cc, 0, None, true, x, [y] + ys) ==
            (if Stalls(s, false, x, y) then [] else Repeat(s, m, false, cc, 0, None, true, y)) +
            RepeatAll(s, m, false, cc, 0, None, true, x, ys)
  {
    hide Loops, Repeat, Remaining;
    assert ([y] + ys)[1..] == ys;
  }

  ghost predicate First(xs: seq<State>, x: State) {
    xs != [] && xs[0] == x
  }

  /** The first iteration of the loop goes to y and moves: what comes first from y comes first from x. */
  lemma {:induction false} StarMoves(s: Subject, m: Node, cc: nat, x: State, y: State, y': State, z: State, z': State)
    requires Results(s, m, false, cc, x) == [y] && Ecma(s, m, false, cc, Clear(m, cc, x)) == [y']
    requires !Stalls(s, false, x, y) && !Stalls(s, false, x, y')
    requires First(Loops(s, m, false, cc, 0, None, true, y), z) && First(Repeat(s, m, false, cc, 0, None, true, y'), z')
    ensures First(Loops(s, m, false, cc, 0, None, true, x), z) && First(Repeat(s, m, false, cc, 0, None, true, x), z')
  {
    hide Results, Ecma, Loops, Repeat, LoopsAll, RepeatAll, Stalls, Clear;
    StarIs(s, m, cc, x);
    StarCons(s, m, cc, x, y, []);
    StarCons(s, m, cc, x, y', []);
    assert [y] == [y] + [] && [y'] == [y'] + [];
  }

  /** No further iteration. */
  lemma {:induction false} StarEnds(s: Subject, m: Node, cc: nat, x: State)
    ensures Results(s, m, false, cc, x) == [] ==> First(Loops(s, m, false, cc, 0, None, true, x), x)
    ensures Ecma(s, m, false, cc, Clear(m, cc, x)) == [] ==> First(Repeat(s, m, false, cc, 0, None, true, x), x)
  {
    hide Results, Ecma, Loops, Repeat, LoopsAll, RepeatAll, Clear;
    StarIs(s, m, cc, x);
    StarCons(s, m, cc, x, x, []);
  }

  /** The answers for a pattern that is a greedy unbounded loop over m. */
  lemma {:induction false} StarAnswers(s: Subject, m: Node, z: State, z': State)
    requires var n := Quant(m, 0, None, true); var x := SetCap(Start(n, 0), 0);
             ResetAtom(m, 0, 1, x) == x && First(Loops(s, m, false, 1, 0, None, true, x), z) && First(Repeat(s, m, false, 1, 0, None, true, x), z')
    ensures var n := Quant(m, 0, None, true);
            Answer(Results(s, Whole(n, true), false, 0, Start(n, 0))) == Halt(true, SetCap(z, 1).caps) &&
            Answer(Ecma(s, Whole(n, true), false, 0, Start(n, 0))) == Halt(true, SetCap(z', 1).caps)
  {
    hide Results, Ecma, Loops, Repeat, Compile, SetAll, SetCap, NodeOk, Iter, IterEach, ResetAtom, QuantCode;
    var n := Quant(m, 0, None, true);
    var x0 := Start(n, 0);
    var x := SetCap(x0, 0);
    GroupUnfold(s, n, false, 0, x0);
    EcmaGroup(s, n, x0);
    EcmaQuant(s, n, false, 1, x);
    QuantUnfold(s, n, false, 1, x);
    LoopsAre(s, m, false, 1, 0, None, true, x);
    SetFirst(Results(s, n, false, 1, x), z, 1);
    SetFirst(Ecma(s, n, false, 1, x), z', 1);
  }

  lemma {:induction false} EcmaGroup(s: Subject, n: Node, x: State)
    ensures Ecma(s, Group(n), false, 0, x) == SetAll(Ecma(s, n, false, 1, SetCap(x, 0)), 1)
  {
    hide SetAll, SetCap, Repeat, EcmaAll;
  }

  lemma {:induction false} SetFirst(xs: seq<State>, z: State, i: nat)
    requires First(xs, z)
    ensures First(SetAll(xs, i), SetCap(z, i))
  {
  }

  /** A loop around code that starts with a split and refers to no group is checked for progress. */
  lemma {:induction false} LoopChecked(a: seq<Instr>)
    requires a != [] && a[0].SplitNextFirst? && forall i | i in a :: !IsBackRef(i)
    ensures NeedsCheck(a, true) && SimpleCount(a) == None
  {
    assert forall j | 0 <= j < |a| :: a[j] in a;
    assert !SelfRefers(a);
  }

  /** (?:|a)* */
  const EmptyStar: Node := Quant(Alt(Empty, Letter(97)), 0, None, true)

  const EmptyAtom: seq<Instr> := [SplitNextFirst(5), Goto(3), Char(97)]

  lemma {:induction false} EmptyCode(cc: nat)
    ensures Compile(EmptyStar.n, false, cc) == EmptyAtom && CodeSize(EmptyAtom) == 13
  {
    hide Compile;
    var s, x := Text([]), State(0, []);
    EmptyUnfold(s, false, cc, x);
    AtomUnfold(s, OneChar(97), false, cc, x);
    AltUnfold(s, Empty, Letter(97), false, cc, x);
    assert [Char(97)][1..] == [] && CodeSize([Char(97)]) == 3;
    assert EmptyAtom[1..] == [Goto(3), Char(97)] && EmptyAtom[1..][1..] == [Char(97)];
  }

  lemma {:induction false} EmptyOk()
    ensures NeedsCheck(EmptyAtom, true) && SimpleCount(EmptyAtom) == None && AllEncodable(EmptyAtom)
    ensures NodeOk(EmptyStar.n, false, 1) && NumCaps(EmptyStar.n) == 0 && NumCaps(EmptyStar) == 0
  {
    hide Compile;
    LoopChecked(EmptyAtom);
    assert NodeOk(Letter(97), false, 1) && NodeOk(Empty, false, 1);
  }

  /** The program of a checked loop around some code can be encoded, and is accepted. */
  lemma {:induction false} LoopProgram(m: Node, a: seq<Instr>, reset: seq<Instr>)
    requires Compile(m, false, 1) == a && NeedsCheck(a, true) && SimpleCount(a) == None && reset == ResetCode(m, 0, 1)
    requires AllEncodable(a) && CodeSize(a) < 1000 && NumCaps(m) < 200
    ensures AllEncodable(Program(Quant(m, 0, None, true), true))
  {
    hide Compile, CodeSize, NeedsCheck, SimpleCount, NumCaps, Encodable, AllEncodable, QuantCode, Results, SetAll, NodeOk;
    var n := Quant(m, 0, None, true);
    var len: int := CodeSize(a);
    var s, x := Text([]), State(0, []);
    GroupUnfold(s, n, false, 0, x);
    QuantUnfold(s, n, false, 1, x);
    CheckedCode(a, reset);
    var pre, post := [SplitNextFirst(len + 6), PushCharPos], [BneCharPos(-(len + 11))];
    SmallOnes(len, NumCaps(m), pre, post, reset);
    Encoded(pre, a);
    Encoded(pre + a, post);
    Encoded(reset, pre + a + post);
    Encoded([SaveStart(0)], reset + (pre + a + post));
    Encoded([SaveStart(0)] + (reset + (pre + a + post)), [SaveEnd(0)]);
    Encoded([SaveStart(0)] + (reset + (pre + a + post)) + [SaveEnd(0)], [Match]);
  }

  lemma {:induction false} CheckedCode(a: seq<Instr>, reset: seq<Instr>)
    requires NeedsCheck(a, true) && SimpleCount(a) == None
    ensures var len := CodeSize(a);
            QuantCode(a, 0, None, true, reset) == reset + ([SplitNextFirst(len + 6), PushCharPos] + a + [BneCharPos(-(len + 11))])
  {
    hide CodeSize, NeedsCheck, SimpleCount;
  }

  lemma {:induction false} Encoded(a: seq<Instr>, b: seq<Instr>)
    requires AllEncodable(a) && AllEncodable(b)
    ensures AllEncodable(a + b)
  {
    hide Encodable;
  }

  lemma {:induction false} LoopAccepted(m: Node)
    requires NodeOk(m, false, 1) && NeedsCheck(Compile(m, false, 1), true)
    ensures Accepted(Quant(m, 0, None, true))
  {
    hide Compile, NeedsCheck, NumCaps, ClassOk;
  }

  lemma {:induction false} SmallOnes(len: int, k: nat, pre: seq<Instr>, post: seq<Instr>, reset: seq<Instr>)
    requires 0 <= len < 1000 && k < 200 && pre == [SplitNextFirst(len + 6), PushCharPos] && post == [BneCharPos(-(len + 11))]
    requires reset == if k > 0 then [SaveReset(1, k)] else []
    ensures AllEncodable(pre) && AllEncodable(post) && AllEncodable(reset)
    ensures AllEncodable([SaveStart(0)]) && AllEncodable([SaveEnd(0)]) && AllEncodable([Match])
  {
  }

  lemma {:induction false} EmptyAnswers(s: Subject)
    requires s == Text([97])
    ensures var x0 := Start(EmptyStar, 0);
            Answer(Results(s, Whole(EmptyStar, true), false, 0, x0)) == Halt(true, [Some(0), Some(0)]) &&
            Answer(Ecma(s, Whole(EmptyStar, true), false, 0, x0)) == Halt(true, [Some(0), Some(1)])
  {
    hide Results, Ecma, Loops, Repeat, LoopsAll, RepeatAll, Whole;
    var m := EmptyStar.n;
    assert NumCaps(m) == 0;
    var x, y := State(0, [Some(0), None]), State(1, [Some(0), None]);
    assert SetCap(Start(EmptyStar, 0), 0) == x;
    EmptyIteration(s, x);
    EmptyIteration(s, y);
    // from y the only iteration stays in place
    StarIs(s, m, 1, y);
    StarCons(s, m, 1, y, y, []);
    assert [y] == [y] + [];
    StarIs(s, m, 1, x);
    StarCons(s, m, 1, x, x, [y]);
    StarCons(s, m, 1, x, y, []);
    assert [x, y] == [x] + [y];
    assert First(Loops(s, m, false, 1, 0, None, true, x), x) && First(Repeat(s, m, false, 1, 0, None, true, x), y);
    StarAnswers(s, m, x, y);
  }

  lemma {:induction false} EmptyIteration(s: Subject, x: State)
    requires s == Text([97]) && x.pos <= 1
    ensures var rs := if x.pos == 0 then [x, x.(pos := 1)] else [x];
            Results(s, EmptyStar.n, false, 1, x) == rs && Ecma(s, EmptyStar.n, false, 1, x) == rs
  {
    hide Results, Compile, NodeOk, EcmaAll, Repeat, SetAll, QuantCode;
    LetterResults(s, 97, 1, x);
    EmptyUnfold(s, false, 1, x);
    AltUnfold(s, Empty, Letter(97), false, 1, x);
  }

  /**
  For (?:|a)* on "a" the machine stops at the first, empty iteration and matches nothing, while
  RepeatMatcher rejects that iteration and matches the character.
  */
  lemma {:induction false} EmptyIterationDiffers()
    ensures AllEncodable(Program(EmptyStar, true))
    ensures var s, x0 := Text([97]), Start(EmptyStar, 0);
            Reaches(Machine(EmptyStar, true, s), Initial(EmptyStar, 0), Halt(true, [Some(0), Some(0)])) &&
            Answer(Ecma(s, Whole(EmptyStar, true), false, 0, x0)) == Halt(true, [Some(0), Some(1)])
  {
    hide Ecma, Results, Program, Reaches, Machine, Compile, CodeSize, Whole;
    EmptyCode(1);
    EmptyOk();
    LoopProgram(EmptyStar.n, EmptyAtom, []);
    LoopAccepted(EmptyStar.n);
    ProgramCorrect(EmptyStar, true, Text([97]), 0);
    EmptyAnswers(Text([97]));
  }

  /** (?:(a)|b)* */
  const GroupStar: Node := Quant(Alt(Group(Letter(97)), Letter(98)), 0, None, true)

  const GroupAtom: seq<Instr> := [SplitNextFirst(12), SaveStart(1), Char(97), SaveEnd(1), Goto(3), Char(98)]

  lemma {:induction false} GroupCode()
    ensures Compile(GroupStar.n, false, 1) == GroupAtom && CodeSize(GroupAtom) == 20
  {
    hide Compile, CodeSize, Results, SetAll, NodeOk;
    var s, x := Text([]), State(0, []);
    GroupBranch();
    var g := [SaveStart(1), Char(97), SaveEnd(1)];
    AtomUnfold(s, OneChar(98), false, 2, x);
    AltUnfold(s, Group(Letter(97)), Letter(98), false, 1, x);
    CodeSizeAppend([SplitNextFirst(12)], g + [Goto(3)] + [Char(98)]);
    CodeSizeAppend(g + [Goto(3)], [Char(98)]);
    CodeSizeAppend(g, [Goto(3)]);
    OneSize(SplitNextFirst(12));
    OneSize(Goto(3));
    OneSize(Char(98));
    assert GroupAtom == [SplitNextFirst(12)] + (g + [Goto(3)] + [Char(98)]);
    assert GroupAtom == [SplitNextFirst(12)] + g + [Goto(3)] + [Char(98)];
  }

  lemma {:induction false} GroupBranch()
    ensures var g := [SaveStart(1), Char(97), SaveEnd(1)];
            Compile(Group(Letter(97)), false, 1) == g && CodeSize(g) == 7 && NumCaps(Group(Letter(97))) == 1
  {
    hide Compile, Results, SetAll, NodeOk, CodeSize;
    var s, x := Text([]), State(0, []);
    var g := [SaveStart(1), Char(97), SaveEnd(1)];
    AtomUnfold(s, OneChar(97), false, 2, x);
    GroupUnfold(s, Letter(97), false, 1, x);
    assert g == [SaveStart(1)] + [Char(97)] + [SaveEnd(1)];
    CodeSizeAppend([SaveStart(1)] + [Char(97)], [SaveEnd(1)]);
    CodeSizeAppend([SaveStart(1)], [Char(97)]);
    OneSize(SaveStart(1));
    OneSize(Char(97));
    OneSize(SaveEnd(1));
  }

  lemma {:induction false} LetterOk(c: nat, cc: nat)
    requires c <= UINT32_MAX
    ensures NodeOk(Letter(c), false, cc)
  {
  }

  lemma {:induction false} GroupOk()
    ensures NeedsCheck(GroupAtom, true) && SimpleCount(GroupAtom) == None && AllEncodable(GroupAtom) && NodeOk(GroupStar.n, false, 1)
  {
    hide Compile, NodeOk, NeedsCheck, SimpleCount, Results, SetAll;
    LoopChecked(GroupAtom);
    GroupBranch();
    var s, x := Text([]), State(0, []);
    AltUnfold(s, Group(Letter(97)), Letter(98), false, 1, x);
    GroupUnfold(s, Letter(97), false, 1, x);
    LetterOk(97, 2);
    LetterOk(98, 2);
  }

  lemma {:induction false} GroupIteration(s: Subject, x: State)
    requires s == Text([97, 98]) && x.pos <= 2 && |x.caps| == 4
    ensures var rs := if x.pos == 0 then [State(1, x.caps[2 := Some(0)][3 := Some(1)])]
                      else if x.pos == 1 then [x.(pos := 2)] else [];
            Results(s, GroupStar.n, false, 1, x) == rs && Ecma(s, GroupStar.n, false, 1, x) == rs
  {
    hide Results, Compile, NodeOk, EcmaAll, Repeat, QuantCode;
    var x1 := SetCap(x, 2);
    LetterResults(s, 97, 2, x1);
    GroupUnfold(s, Letter(97), false, 1, x);
    LetterResults(s, 98, 2, x);
    assert NumCaps(Group(Letter(97))) == 1;
    AltUnfold(s, Group(Letter(97)), Letter(98), false, 1, x);
    assert Ecma(s, Group(Letter(97)), false, 1, x) == SetAll(Ecma(s, Letter(97), false, 2, x1), 3);
    assert Results(s, Group(Letter(97)), false, 1, x) == if x.pos == 0 then [State(1, x.caps[2 := Some(0)][3 := Some(1)])] else [];
  }

  lemma {:induction false} GroupAnswers(s: Subject)
    requires s == Text([97, 98])
    ensures var x0 := Start(GroupStar, 0);
            Answer(Results(s, Whole(GroupStar, true), false, 0, x0)) == Halt(true, [Some(0), Some(2), Some(0), Some(1)]) &&
            Answer(Ecma(s, Whole(GroupStar, true), false, 0, x0)) == Halt(true, [Some(0), Some(2), None, None])
  {
    hide Results, Ecma, Loops, Repeat, LoopsAll, RepeatAll, Whole;
    var m := GroupStar.n;
    GroupCaps();
    var x, y := State(0, [Some(0), None, None, None]), State(1, [Some(0), None, Some(0), Some(1)]);
    var c := State(1, [Some(0), None, None, None]);
    var z, z' := y.(pos := 2), c.(pos := 2);
    assert SetCap(Start(GroupStar, 0), 0) == x;
    assert Clear(m, 1, x) == x && Clear(m, 1, y) == c && Clear(m, 1, z) == z' && Clear(m, 1, z') == z' && ResetAtom(m, 0, 1, x) == x by {
      Cleared(m, x);
      Cleared(m, y);
      Cleared(m, z);
      Cleared(m, z');
    }
    GroupIteration(s, x);
    assert State(1, x.caps[2 := Some(0)][3 := Some(1)]) == y;
    GroupIteration(s, y);
    GroupIteration(s, c);
    GroupIteration(s, z);
    GroupIteration(s, z');
    StarEnds(s, m, 1, z);
    StarEnds(s, m, 1, z');
    StarMoves(s, m, 1, y, z, z', z, z');
    StarMoves(s, m, 1, x, y, y, z, z');
    StarAnswers(s, m, z, z');
  }

  lemma {:induction false} GroupCaps()
    ensures NumCaps(GroupStar.n) == 1 && NumCaps(GroupStar) == 1
  {
    assert NumCaps(Letter(97)) == 0 && NumCaps(Group(Letter(97))) == 1 && NumCaps(Letter(98)) == 0;
  }

  lemma {:induction false} Cleared(m: Node, x: State)
    requires NumCaps(m) == 1 && |x.caps| == 4
    ensures Clear(m, 1, x) == x.(caps := [x.caps[0], x.caps[1], None, None]) && ResetAtom(m, 0, 1, x) == Clear(m, 1, x)
  {
    hide NumCaps;
  }

  /**
  For (?:(a)|b)* on "ab" the machine keeps the group of the first iteration, while RepeatMatcher
  clears it before the second.
  */
  lemma {:induction false} KeptCaptureDiffers()
    ensures AllEncodable(Program(GroupStar, true))
    ensures var s, x0 := Text([97, 98]), Start(GroupStar, 0);
            Reaches(Machine(GroupStar, true, s), Initial(GroupStar, 0), Halt(true, [Some(0), Some(2), Some(0), Some(1)])) &&
            Answer(Ecma(s, Whole(GroupStar, true), false, 0, x0)) == Halt(true, [Some(0), Some(2), None, None])
  {
    hide Ecma, Results, Program, Reaches, Machine, Compile, CodeSize, Whole;
    GroupCode();
    GroupCaps();
    GroupOk();
    LoopProgram(GroupStar.n, GroupAtom, [SaveReset(1, 1)]);
    LoopAccepted(GroupStar.n);
    ProgramCorrect(GroupStar, true, Text([97, 98]), 0);
    GroupAnswers(Text([97, 98]));
  }
}
