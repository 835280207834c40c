/** Whole programs: the machine halts, with the best result of the pattern at the leftmost start. */
module ReProgram {
  import opened ReCode
  import opened ReSyntax
  import opened ReMatch
  import opened ReUnfold
  import opened ReVm
  import opened ReLaws
  import opened ReRun
  import opened ReCorrect
  import opened ReLoops
  import opened ReMain
  import opened ReQuant

  /** The machine for a compiled pattern: its bytes, and the stack size found by the linear scan. */
  ghost function Machine(n: Node, sticky: bool, s: Subject): Env
    requires AllEncodable(Program(n, sticky))
  {
    Env(EncodeAll(Program(n, sticky)), s, MaxDepth(Program(n, sticky), 0))
  }

  function Unset(nc: nat): seq<Option<nat>> {
    seq(2 * nc, i => None)
  }

  function Start(n: Node, pos: nat): State {
    State(pos, Unset(1 + NumCaps(n)))
  }

  ghost function Initial(n: Node, pos: nat): Vm {
    At(0, Start(n, pos), [], [])
  }

  /** The captures of the first result, if there is one. */
  function Answer(rs: seq<State>): Vm {
    if rs == [] then Halt(false, []) else Halt(true, rs[0].caps)
  }

  /** Patterns that the compiler accepts and whose loops all make progress. */
  ghost predicate Accepted(n: Node) {
    NodeOk(n, false, 1)
  }

  lemma {:induction false} WholeOk(n: Node, sticky: bool)
    requires NodeOk(n, false, 1)
    ensures NodeOk(Whole(n, sticky), false, 0) && NumCaps(Whole(n, sticky)) == 1 + NumCaps(n)
  {
    hide Compile, NodeOk, Results, ResultsAll, Iter, IterEach, SetAll, QuantCode;
    var s, x := Subject([], false, false), State(0, []);
    var q := Quant(Atom(Anything), 0, None, false);
    GroupUnfold(s, n, false, 0, x);
    CatUnfold(s, q, Group(n), false, 0, x);
    LazyAnyOk();
  }

  lemma {:induction false} LazyAnyOk()
    ensures NodeOk(Quant(Atom(Anything), 0, None, false), false, 0)
  {
    assert Compile(Atom(Anything), false, 0) == [AnyChar];
    assert NonEmpty(Atom(Anything));
  }

  lemma {:induction false} ProgramPlaced(n: Node, sticky: bool, s: Subject)
    requires AllEncodable(Program(n, sticky))
    ensures var e, a := Machine(n, sticky, s), Compile(Whole(n, sticky), false, 0);
            Placed(e, 0, a, 0) && Fetch(e.code, CodeSize(a)) == Some(Match)
  {
    hide Compile, CodeSize, EncodeAll, MaxDepth, EndDepth, Encodable, Fetch;
    var e, p, a := Machine(n, sticky, s), Program(n, sticky), Compile(Whole(n, sticky), false, 0);
    assert e.code[0..0 + CodeSize(p)] == e.code;
    PlacedAppend(e, 0, a, [Match], 0);
    PlacedOne(e, CodeSize(a), Match, EndDepth(a, 0));
  }

  /** Success and failure with nothing left to unwind. */
  lemma {:induction false} Halts(e: Env, c: Vm, caps: seq<Option<nat>>, won: bool)
    requires Reaches(e, c, if won then Won(caps, []) else Fail([]))
    ensures Reaches(e, c, if won then Halt(true, caps) else Halt(false, []))
  {
    var c1 := if won then Won(caps, []) else Fail([]);
    var c2 := if won then Halt(true, caps) else Halt(false, []);
    assert Step(e, c1) == c2;
    hide Step, Reaches;
    ReachRefl(e, c2);
    ReachStep(e, c1, c2);
    ReachTrans(e, c, c1, c2);
  }

  /**
  Every run on a compiled pattern halts, and its answer is the first result of the pattern in
  order of preference, or failure if there is none.
  */
  lemma {:induction false} ProgramCorrect(n: Node, sticky: bool, s: Subject, pos: nat)
    requires Accepted(n) && AllEncodable(Program(n, sticky)) && SubjectOk(s) && Boundary(s, pos)
    ensures Reaches(Machine(n, sticky, s), Initial(n, pos), Answer(Results(s, Whole(n, sticky), false, 0, Start(n, pos))))
  {
    hide Compile, CodeSize, Placed, NodeOk, Matches, Results, NumCaps, Whole, Fetch, AllEncodable, Reaches, Offers, Step;
    var e, w, x := Machine(n, sticky, s), Whole(n, sticky), Start(n, pos);
    var a, nc := Compile(w, false, 0), 1 + NumCaps(n);
    WholeOk(n, sticky);
    ProgramPlaced(n, sticky, s);
    Compiled(e, w, false, 0, 0, 0, nc);
    MatchesAt(e, w, false, 0, 0, CodeSize(a), nc, x, []);
    var rs := Results(s, w, false, 0, x);
    ResultsInside(s, w, false, 0, x, nc);
    assert Offers(e, At(0, x, [], []), rs, CodeSize(a), [], []);
    UpToMatch(e, At(0, x, [], []), rs, CodeSize(a), [], []);
    Halts(e, At(0, x, [], []), if rs == [] then [] else rs[0].caps, rs != []);
  }

  /** The results at pos, then at the following characters. */
  ghost function Scan(s: Subject, n: Node, x: State): seq<State>
    decreases Remaining(s, false, x)
  {
    Results(s, Group(n), false, 0, x) +
    if x.pos < |s.input| then Scan(s, n, x.(pos := NextPos(s, x.pos))) else []
  }

  lemma {:induction false} AnyResults(s: Subject, x: State)
    requires x.pos <= |s.input|
    ensures Results(s, Atom(Anything), false, 0, x) == if x.pos < |s.input| then [x.(pos := NextPos(s, x.pos))] else []
  {
    hide Results;
    AtomUnfold(s, Anything, false, 0, x);
  }

  /** The lazy loop in front of an unanchored pattern tries every later character in turn. */
  lemma {:induction false} LazyScan(s: Subject, n: Node, x: State)
    requires x.pos <= |s.input|
    ensures ResultsAll(s, Group(n), false, 0, Iter(s, Atom(Anything), false, 0, Star(false), x)) == Scan(s, n, x)
    decreases Remaining(s, false, x)
  {
    hide Results, Iter, IterAll, NextPos;
    var m := Atom(Anything);
    var f := Next(s, m, false, 0, Star(false), x);
    StarUnfold(s, m, false, 0, false, x);
    AnyResults(s, x);
    var rs := Results(s, m, false, 0, x);
    if x.pos < |s.input| {
      var y := x.(pos := NextPos(s, x.pos));
      assert rs[1..] == [] && Flat([], f) == [];
      assert Flat(rs, f) == Iter(s, m, false, 0, Star(false), y);
      LazyScan(s, n, y);
      AllCons(s, Group(n), x, Iter(s, m, false, 0, Star(false), y));
    } else {
      assert Flat(rs, f) == [];
      AllCons(s, Group(n), x, []);
    }
  }

  lemma {:induction false} AllCons(s: Subject, m: Node, x: State, xs: seq<State>)
    ensures ResultsAll(s, m, false, 0, [x] + xs) == Results(s, m, false, 0, x) + ResultsAll(s, m, false, 0, xs)
  {
    hide Results;
    assert ([x] + xs)[1..] == xs;
  }

  lemma {:induction false} UnanchoredScans(s: Subject, n: Node, x: State)
    requires x.pos <= |s.input|
    ensures Results(s, Whole(n, false), false, 0, x) == Scan(s, n, x)
  {
    hide Results, Iter, IterAll, IterEach, ResultsAll, NextPos, Scan, Compile, NodeOk, QuantCode, CodeSize;
    var m := Atom(Anything);
    var q := Quant(m, 0, None, false);
    CatUnfold(s, q, Group(n), false, 0, x);
    QuantUnfold(s, q, false, 0, x);
    EachOnce(s, m, false, 0, Star(false), x);
    LazyScan(s, n, x);
  }

  /** p is some number of characters after pos. */
  ghost predicate CharAfter(s: Subject, pos: nat, p: nat)
    decreases |s.input| - pos
  {
    p == pos || (pos < |s.input| && CharAfter(s, NextPos(s, pos), p))
  }

  /** No start before p matches. */
  ghost predicate NoneBefore(s: Subject, n: Node, x: State, p: nat) {
    forall q: nat :: CharAfter(s, x.pos, q) && q < p ==> Results(s, Group(n), false, 0, x.(pos := q)) == []
  }

  lemma {:induction false} AfterIsLater(s: Subject, pos: nat, p: nat)
    requires CharAfter(s, pos, p)
    ensures p >= pos
    decreases |s.input| - pos
  {
    hide NextPos;
    if p != pos {
      AfterIsLater(s, NextPos(s, pos), p);
    }
  }

  lemma {:induction false} ScanLeftmost(s: Subject, n: Node, x: State) returns (p: nat)
    requires x.pos <= |s.input|
    ensures Scan(s, n, x) == [] ==>
              forall q: nat :: CharAfter(s, x.pos, q) ==> Results(s, Group(n), false, 0, x.(pos := q)) == []
    ensures Scan(s, n, x) != [] ==>
              CharAfter(s, x.pos, p) && NoneBefore(s, n, x, p) && Results(s, Group(n), false, 0, x.(pos := p)) != [] &&
              Scan(s, n, x)[0] == Results(s, Group(n), false, 0, x.(pos := p))[0]
    decreases |s.input| - x.pos
  {
    hide Results, NextPos;
    assert x.(pos := x.pos) == x;
    p := x.pos;
    if Results(s, Group(n), false, 0, x) != [] {
      forall q: nat | CharAfter(s, x.pos, q)
        ensures q >= p
      {
        AfterIsLater(s, x.pos, q);
      }
    } else if x.pos < |s.input| {
      var y := x.(pos := NextPos(s, x.pos));
      p := ScanLeftmost(s, n, y);
      forall q: nat | CharAfter(s, x.pos, q)
        ensures (q == x.pos || CharAfter(s, y.pos, q)) && y.(pos := q) == x.(pos := q)
      {
      }
    }
  }
}
