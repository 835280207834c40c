/**
Unbounded loops without a run-time check, the lazy ones and those that refer back to their own
groups: such a loop ends if and only if no state that its iterations reach comes back to itself.
*/
module ReEndless {
  import opened ReCode
  import opened ReSyntax
  import opened ReMatch
  import opened ReUnfold
  import opened ReVm
  import opened ReLaws
  import opened ReAlike
  import opened ReRun
  import opened ReCorrect
  import opened ReLoops
  import opened ReMain
  import opened ReQuant
  import opened ReProgram

  /** y is reached from x by k iterations of m. */
  ghost predicate ReachedIn(s: Subject, m: Node, back: bool, cc: nat, x: State, y: State, k: nat)
    decreases k
  {
    if k == 0 then x == y
    else exists z :: z in Results(s, m, back, cc, x) && ReachedIn(s, m, back, cc, z, y, k - 1)
  }

  ghost predicate Reached(s: Subject, m: Node, back: bool, cc: nat, x: State, y: State) {
    exists k: nat :: ReachedIn(s, m, back, cc, x, y, k)
  }

  /** At least one iteration leads from x to y. */
  ghost predicate Again(s: Subject, m: Node, back: bool, cc: nat, x: State, y: State) {
    exists z :: z in Results(s, m, back, cc, x) && Reached(s, m, back, cc, z, y)
  }

  /** The iterations from x reach a state that comes back to itself. */
  ghost predicate Circular(s: Subject, m: Node, back: bool, cc: nat, x: State) {
    exists y :: Reached(s, m, back, cc, x, y) && Again(s, m, back, cc, y, y)
  }

  lemma {:induction false} ReachedSelf(s: Subject, m: Node, back: bool, cc: nat, x: State)
    ensures Reached(s, m, back, cc, x, x)
  {
    assert ReachedIn(s, m, back, cc, x, x, 0);
  }

  lemma {:induction false} ReachedInTrans(s: Subject, m: Node, back: bool, cc: nat, x: State, y: State, z: State, j: nat, k: nat)
    requires ReachedIn(s, m, back, cc, x, y, j) && ReachedIn(s, m, back, cc, y, z, k)
    ensures ReachedIn(s, m, back, cc, x, z, j + k)
    decreases j
  {
    hide Results;
    if j > 0 {
      var w :| w in Results(s, m, back, cc, x) && ReachedIn(s, m, back, cc, w, y, j - 1);
      ReachedInTrans(s, m, back, cc, w, y, z, j - 1, k);
    }
  }

  lemma {:induction false} ReachedTrans(s: Subject, m: Node, back: bool, cc: nat, x: State, y: State, z: State)
    requires Reached(s, m, back, cc, x, y) && Reached(s, m, back, cc, y, z)
    ensures Reached(s, m, back, cc, x, z)
  {
    hide ReachedIn;
    var j: nat :| ReachedIn(s, m, back, cc, x, y, j);
    var k: nat :| ReachedIn(s, m, back, cc, y, z, k);
    ReachedInTrans(s, m, back, cc, x, y, z, j, k);
  }

  lemma {:induction false} ReachedStep(s: Subject, m: Node, back: bool, cc: nat, x: State, y: State)
    requires y in Results(s, m, back, cc, x)
    ensures Reached(s, m, back, cc, x, y)
  {
    hide Results;
    assert ReachedIn(s, m, back, cc, y, y, 0);
    assert ReachedIn(s, m, back, cc, x, y, 1);
  }

  /** Reached by no iteration, or by one and then others. */
  lemma {:induction false} ReachedFirst(s: Subject, m: Node, back: bool, cc: nat, x: State, y: State)
    requires Reached(s, m, back, cc, x, y)
    ensures x == y || Again(s, m, back, cc, x, y)
  {
    hide Results;
    var k: nat :| ReachedIn(s, m, back, cc, x, y, k);
    if k > 0 {
      var z :| z in Results(s, m, back, cc, x) && ReachedIn(s, m, back, cc, z, y, k - 1);
      assert Reached(s, m, back, cc, z, y);
    }
  }

  /** Iterations that reach a circle go on to one that does. */
  lemma {:induction false} CircularNext(s: Subject, m: Node, back: bool, cc: nat, x: State)
    requires Circular(s, m, back, cc, x)
    ensures exists y :: y in Results(s, m, back, cc, x) && Circular(s, m, back, cc, y)
  {
    hide Results, Reached, Again;
    var y :| Reached(s, m, back, cc, x, y) && Again(s, m, back, cc, y, y);
    ReachedFirst(s, m, back, cc, x, y);
    assert Again(s, m, back, cc, x, y);
    var z :| z in Results(s, m, back, cc, x) && Reached(s, m, back, cc, z, y) by { AgainIs(s, m, back, cc, x, y); }
    assert Circular(s, m, back, cc, z);
  }

  lemma {:induction false} AgainIs(s: Subject, m: Node, back: bool, cc: nat, x: State, y: State)
    requires Again(s, m, back, cc, x, y)
    ensures exists z :: z in Results(s, m, back, cc, x) && Reached(s, m, back, cc, z, y)
  {
  }

  /** Capture lists of a given length, with positions in the subject. */
  ghost function CapLists(n: nat, limit: nat): set<seq<Option<nat>>>
    decreases n
  {
    if n == 0 then {[]}
    else
      var shorter := CapLists(n - 1, limit);
      (set t | t in shorter :: [None] + t) + (set p: nat, t | p <= limit && t in shorter :: [Some(p)] + t)
  }

  lemma {:induction false} InCapLists(caps: seq<Option<nat>>, limit: nat)
    requires forall i | 0 <= i < |caps| && caps[i].Some? :: caps[i].value <= limit
    ensures caps in CapLists(|caps|, limit)
    decreases |caps|
  {
    if caps != [] {
      var t := caps[1..];
      InCapLists(t, limit);
      assert caps == [caps[0]] + t;
      var shorter := CapLists(|caps| - 1, limit);
      assert t in shorter;
      if caps[0].Some? {
        var p: nat := caps[0].value;
        assert p <= limit && caps == [Some(p)] + t;
      } else {
        assert caps == [None] + t;
      }
    }
  }

  /** All well-formed states, and possibly others: a finite set. */
  ghost function AllStates(s: Subject, nc: nat): set<State> {
    set p: nat, caps | p <= |s.input| && caps in CapLists(2 * nc, |s.input|) :: State(p, caps)
  }

  lemma {:induction false} InAllStates(s: Subject, x: State, nc: nat)
    requires StateOk(s, x, nc)
    ensures x in AllStates(s, nc)
  {
    hide CapLists;
    InCapLists(x.caps, |s.input|);
    assert x == State(x.pos, x.caps);
  }

  /** The states that at least one iteration leads to. */
  ghost function Later(s: Subject, m: Node, back: bool, cc: nat, nc: nat, x: State): set<State> {
    set y | y in AllStates(s, nc) && Again(s, m, back, cc, x, y)
  }

  lemma {:induction false} SubsetSize(a: set<State>, b: set<State>)
    requires a <= b
    ensures |a| <= |b|
  {
    if a != {} {
      var x :| x in a;
      SubsetSize(a - {x}, b - {x});
    }
  }

  /** Without a circle every iteration leaves fewer states for later. */
  lemma {:induction false} FewerLater(s: Subject, m: Node, back: bool, cc: nat, nc: nat, x: State, y: State)
    requires !Circular(s, m, back, cc, x) && y in Results(s, m, back, cc, x) && StateOk(s, y, nc)
    ensures !Circular(s, m, back, cc, y) && |Later(s, m, back, cc, nc, y)| < |Later(s, m, back, cc, nc, x)|
  {
    hide Results, Reached, AllStates, StateOk;
    ReachedStep(s, m, back, cc, x, y);
    ReachedSelf(s, m, back, cc, y);
    InAllStates(s, y, nc);
    var a, b := Later(s, m, back, cc, nc, y), Later(s, m, back, cc, nc, x);
    assert y in b;
    assert y !in a;
    forall z | z in a
      ensures z in b
    {
      AgainReached(s, m, back, cc, y, z);
      assert Again(s, m, back, cc, x, z);
    }
    SubsetSize(a, b - {y});
    if Circular(s, m, back, cc, y) {
      var z :| Reached(s, m, back, cc, y, z) && Again(s, m, back, cc, z, z);
      ReachedTrans(s, m, back, cc, x, y, z);
      assert false;
    }
  }

  lemma {:induction false} AgainReached(s: Subject, m: Node, back: bool, cc: nat, x: State, y: State)
    requires Again(s, m, back, cc, x, y)
    ensures Reached(s, m, back, cc, x, y)
  {
    hide Results, Reached;
    var z :| z in Results(s, m, back, cc, x) && Reached(s, m, back, cc, z, y);
    ReachedStep(s, m, back, cc, x, z);
    ReachedTrans(s, m, back, cc, x, z, y);
  }

  /** The order in which an unchecked loop without a circle offers its states. */
  ghost function Order(s: Subject, m: Node, back: bool, cc: nat, nc: nat, greedy: bool, x: State): seq<State>
    decreases |Later(s, m, back, cc, nc, x)|, 1
  {
    var more := Flat(Results(s, m, back, cc, x), OrderAfter(s, m, back, cc, nc, greedy, x));
    if greedy then more + [x] else [x] + more
  }

  ghost function OrderAfter(s: Subject, m: Node, back: bool, cc: nat, nc: nat, greedy: bool, x: State): State -> seq<State>
    decreases |Later(s, m, back, cc, nc, x)|, 0
  {
    (y: State) =>
      if |Later(s, m, back, cc, nc, y)| < |Later(s, m, back, cc, nc, x)| then Order(s, m, back, cc, nc, greedy, y) else []
  }

  /**
  An unchecked loop: at the head either the body or the end is tried first, and after the body
  the machine is back at the head.
  */
  ghost predicate Unchecked(e: Env, head: nat, body: nat, tail: nat, end: nat, greedy: bool, st: seq<nat>, nc: nat) {
    forall x, bt: seq<Frame> | StateOk(e.s, x, nc) ::
      Step(e, At(head, x, st, bt)) ==
        (if greedy then At(body, x, st, [SplitTo(end, x, st)] + bt) else At(end, x, st, [SplitTo(body, x, st)] + bt)) &&
      Reaches(e, At(tail, x, st, bt), At(head, x, st, bt))
  }

  lemma {:induction false} HeadStep(e: Env, head: nat, body: nat, tail: nat, end: nat, greedy: bool, st: seq<nat>, nc: nat, x: State, bt: seq<Frame>)
    requires Unchecked(e, head, body, tail, end, greedy, st, nc) && StateOk(e.s, x, nc)
    ensures Step(e, At(head, x, st, bt)) ==
            if greedy then At(body, x, st, [SplitTo(end, x, st)] + bt) else At(end, x, st, [SplitTo(body, x, st)] + bt)
    ensures Reaches(e, At(tail, x, st, bt), At(head, x, st, bt))
  {
    hide Step, Reaches, StateOk;
  }

  /** Without a circle the loop offers the states in their order, and then fails. */
  lemma {:induction false} LoopEnds(e: Env, m: Node, back: bool, cc: nat, head: nat, body: nat, tail: nat, end: nat, greedy: bool,
                                    x: State, st: seq<nat>, nc: nat)
    requires Unchecked(e, head, body, tail, end, greedy, st, nc) && Matches(e, m, back, cc, body, tail, |st|, nc)
    requires StateOk(e.s, x, nc) && !Circular(e.s, m, back, cc, x)
    ensures Gives(e, head, x, st, Order(e.s, m, back, cc, nc, greedy, x), end, st)
    decreases |Later(e.s, m, back, cc, nc, x)|
  {
    hide Results, Matches, Circular, Later, Gives, Flat, Step, StateOk, Unchecked, Order, OrderAfter;
    var ys, f := Results(e.s, m, back, cc, x), OrderAfter(e.s, m, back, cc, nc, greedy, x);
    OrderIs(e.s, m, back, cc, nc, greedy, x);
    ResultsAllOk2(e.s, m, back, cc, x, nc);
    forall y | y in ys
      ensures Gives(e, tail, y, st, f(y), end, st)
    {
      FewerLater(e.s, m, back, cc, nc, x, y);
      LoopEnds(e, m, back, cc, head, body, tail, end, greedy, y, st, nc);
      AfterIs(e.s, m, back, cc, nc, greedy, x, y);
      BackToHead(e, head, body, tail, end, greedy, st, nc, y, f(y));
    }
    MatchesAt(e, m, back, cc, body, tail, nc, x, st);
    GivesThen(e, body, x, st, ys, tail, st, f, end, st);
    Arrived(e, end, x, st);
    HeadGives(e, head, body, tail, end, greedy, st, nc, x, Flat(ys, f));
  }

  lemma {:induction false} OrderIs(s: Subject, m: Node, back: bool, cc: nat, nc: nat, greedy: bool, x: State)
    ensures var more := Flat(Results(s, m, back, cc, x), OrderAfter(s, m, back, cc, nc, greedy, x));
            Order(s, m, back, cc, nc, greedy, x) == if greedy then more + [x] else [x] + more
  {
    hide Results, Later, OrderAfter, Flat;
  }

  lemma {:induction false} AfterIs(s: Subject, m: Node, back: bool, cc: nat, nc: nat, greedy: bool, x: State, y: State)
    requires |Later(s, m, back, cc, nc, y)| < |Later(s, m, back, cc, nc, x)|
    ensures OrderAfter(s, m, back, cc, nc, greedy, x)(y) == Order(s, m, back, cc, nc, greedy, y)
  {
    hide Later, Order;
  }

  lemma {:induction false} BackToHead(e: Env, head: nat, body: nat, tail: nat, end: nat, greedy: bool, st: seq<nat>, nc: nat, y: State, rs: seq<State>)
    requires Unchecked(e, head, body, tail, end, greedy, st, nc) && StateOk(e.s, y, nc) && Gives(e, head, y, st, rs, end, st)
    ensures Gives(e, tail, y, st, rs, end, st)
  {
    hide Unchecked, StateOk, Offers, Reaches, Step;
    forall bt
      ensures Offers(e, At(tail, y, st, bt), rs, end, st, bt)
    {
      HeadStep(e, head, body, tail, end, greedy, st, nc, y, bt);
      OffersFrom(e, At(tail, y, st, bt), At(head, y, st, bt), rs, end, st, bt);
    }
  }

  lemma {:induction false} HeadGives(e: Env, head: nat, body: nat, tail: nat, end: nat, greedy: bool, st: seq<nat>, nc: nat, x: State, more: seq<State>)
    requires Unchecked(e, head, body, tail, end, greedy, st, nc) && StateOk(e.s, x, nc)
    requires Gives(e, body, x, st, more, end, st) && Gives(e, end, x, st, [x], end, st)
    ensures Gives(e, head, x, st, if greedy then more + [x] else [x] + more, end, st)
  {
    hide Unchecked, StateOk, Offers, Step, Reaches;
    forall bt
      ensures Offers(e, At(head, x, st, bt), if greedy then more + [x] else [x] + more, end, st, bt)
    {
      HeadStep(e, head, body, tail, end, greedy, st, nc, x, bt);
      if greedy {
        SplitOffers(e, At(head, x, st, bt), body, end, x, st, bt, more, [x], end, st);
      } else {
        SplitOffers(e, At(head, x, st, bt), end, body, x, st, bt, [x], more, end, st);
      }
    }
  }

  /** What follows the loop rejects the state y. */
  ghost predicate Rejects(e: Env, end: nat, st: seq<nat>, y: State) {
    forall bt: seq<Frame> :: Reaches(e, At(end, y, st, bt), Fail(bt))
  }

  /** What follows the loop rejects every state that the loop reaches from x. */
  ghost predicate RejectsAll(e: Env, m: Node, back: bool, cc: nat, end: nat, st: seq<nat>, x: State) {
    forall y | Reached(e.s, m, back, cc, x, y) :: Rejects(e, end, st, y)
  }

  lemma {:induction false} OffersRejected(e: Env, c: Vm, rs: seq<State>, pc: nat, st: seq<nat>, bt: seq<Frame>)
    requires Offers(e, c, rs, pc, st, bt) && forall r | r in rs :: Rejects(e, pc, st, r)
    ensures Reaches(e, c, Fail(bt))
    decreases |rs|
  {
    hide Reaches, Step;
    if rs != [] {
      var ext: seq<Frame> :| NoLook(ext) && Reaches(e, c, At(pc, rs[0], st, ext + bt)) &&
                             Offers(e, Fail(ext + bt), rs[1..], pc, st, bt);
      assert rs[0] in rs;
      OffersRejected(e, Fail(ext + bt), rs[1..], pc, st, bt);
      ReachTrans(e, c, At(pc, rs[0], st, ext + bt), Fail(ext + bt));
      ReachTrans(e, c, Fail(ext + bt), Fail(bt));
    }
  }

  /** Everything that the loop offers is reached by its iterations. */
  lemma {:induction false} OrderReached(s: Subject, m: Node, back: bool, cc: nat, nc: nat, greedy: bool, x: State, y: State)
    requires y in Order(s, m, back, cc, nc, greedy, x)
    ensures Reached(s, m, back, cc, x, y)
    decreases |Later(s, m, back, cc, nc, x)|
  {
    hide Results, Later, Order, OrderAfter, Flat, Reached;
    OrderIs(s, m, back, cc, nc, greedy, x);
    ReachedSelf(s, m, back, cc, x);
    var ys, f := Results(s, m, back, cc, x), OrderAfter(s, m, back, cc, nc, greedy, x);
    if y != x {
      var z := InFlat(ys, f, y);
      AfterNone(s, m, back, cc, nc, greedy, x, z);
      AfterIs(s, m, back, cc, nc, greedy, x, z);
      OrderReached(s, m, back, cc, nc, greedy, z, y);
      ReachedStep(s, m, back, cc, x, z);
      ReachedTrans(s, m, back, cc, x, z, y);
    }
  }

  lemma {:induction false} AfterNone(s: Subject, m: Node, back: bool, cc: nat, nc: nat, greedy: bool, x: State, y: State)
    requires OrderAfter(s, m, back, cc, nc, greedy, x)(y) != []
    ensures |Later(s, m, back, cc, nc, y)| < |Later(s, m, back, cc, nc, x)|
  {
    hide Later, Order;
  }

  lemma {:induction false} InFlat(xs: seq<State>, f: State -> seq<State>, y: State) returns (x: State)
    requires y in Flat(xs, f)
    ensures x in xs && y in f(x)
  {
    if y in f(xs[0]) {
      x := xs[0];
    } else {
      x := InFlat(xs[1..], f, y);
    }
  }

  lemma {:induction false} Fails(e: Env, m: Node, back: bool, cc: nat, head: nat, body: nat, tail: nat, end: nat, greedy: bool,
                                 x: State, st: seq<nat>, nc: nat)
    requires Unchecked(e, head, body, tail, end, greedy, st, nc) && Matches(e, m, back, cc, body, tail, |st|, nc)
    requires StateOk(e.s, x, nc) && !Circular(e.s, m, back, cc, x) && RejectsAll(e, m, back, cc, end, st, x)
    ensures Rejects(e, head, st, x)
  {
    hide Unchecked, Matches, StateOk, Circular, Order, Offers, Reached, Rejects, Reaches;
    LoopEnds(e, m, back, cc, head, body, tail, end, greedy, x, st, nc);
    var rs := Order(e.s, m, back, cc, nc, greedy, x);
    forall r | r in rs
      ensures Rejects(e, end, st, r)
    {
      OrderReached(e.s, m, back, cc, nc, greedy, x, r);
    }
    AllRejected(e, head, x, rs, end, st);
  }

  lemma {:induction false} AllRejected(e: Env, pc: nat, x: State, rs: seq<State>, end: nat, st: seq<nat>)
    requires Gives(e, pc, x, st, rs, end, st) && forall r | r in rs :: Rejects(e, end, st, r)
    ensures Rejects(e, pc, st, x)
  {
    hide Offers, Reaches;
    forall bt
      ensures Reaches(e, At(pc, x, st, bt), Fail(bt))
    {
      OffersRejected(e, At(pc, x, st, bt), rs, end, st, bt);
    }
  }

  /** With a circle the machine comes from the head to the head again, in a state that still reaches a circle. */
  lemma {:induction false} GoesRound(e: Env, m: Node, back: bool, cc: nat, head: nat, body: nat, tail: nat, end: nat, greedy: bool,
                                     x: State, st: seq<nat>, bt: seq<Frame>, nc: nat) returns (y: State, bt': seq<Frame>)
    requires Unchecked(e, head, body, tail, end, greedy, st, nc) && Matches(e, m, back, cc, body, tail, |st|, nc)
    requires StateOk(e.s, x, nc) && Circular(e.s, m, back, cc, x) && RejectsAll(e, m, back, cc, end, st, x)
    ensures StateOk(e.s, y, nc) && Circular(e.s, m, back, cc, y) && RejectsAll(e, m, back, cc, end, st, y)
    ensures Reaches(e, Step(e, At(head, x, st, bt)), At(head, y, st, bt'))
  {
    hide Results, Unchecked, Matches, StateOk, Circular, Reached, Rejects, Reaches, Step, Offers, RejectsAll;
    var ys := Results(e.s, m, back, cc, x);
    ResultsAllOk2(e.s, m, back, cc, x, nc);
    CircularNext(e.s, m, back, cc, x);
    forall z | z in ys
      ensures RejectsAll(e, m, back, cc, end, st, z)
      ensures Circular(e.s, m, back, cc, z) || Rejects(e, tail, st, z)
    {
      RejectsLater(e, m, back, cc, end, st, x, z);
      if !Circular(e.s, m, back, cc, z) {
        Fails(e, m, back, cc, head, body, tail, end, greedy, z, st, nc);
        TailRejects(e, head, body, tail, end, greedy, st, nc, z);
      }
    }
    var c, bt1 := EnterBody(e, m, back, cc, head, body, tail, end, greedy, x, st, bt, nc);
    MatchesAt(e, m, back, cc, body, tail, nc, x, st);
    assert Offers(e, c, ys, tail, st, bt1);
    var bt2: seq<Frame>;
    y, bt2 := FirstCircular(e, m, back, cc, c, ys, tail, st, bt1);
    bt' := bt2;
    HeadStep(e, head, body, tail, end, greedy, st, nc, y, bt2);
    ReachTrans(e, Step(e, At(head, x, st, bt)), c, At(tail, y, st, bt2));
    ReachTrans(e, Step(e, At(head, x, st, bt)), At(tail, y, st, bt2), At(head, y, st, bt2));
  }

  lemma {:induction false} RejectsLater(e: Env, m: Node, back: bool, cc: nat, end: nat, st: seq<nat>, x: State, z: State)
    requires RejectsAll(e, m, back, cc, end, st, x) && z in Results(e.s, m, back, cc, x)
    ensures RejectsAll(e, m, back, cc, end, st, z)
  {
    hide Results, Reached, Rejects;
    ReachedStep(e.s, m, back, cc, x, z);
    forall y | Reached(e.s, m, back, cc, z, y)
      ensures Rejects(e, end, st, y)
    {
      ReachedTrans(e.s, m, back, cc, x, z, y);
    }
  }

  lemma {:induction false} TailRejects(e: Env, head: nat, body: nat, tail: nat, end: nat, greedy: bool, st: seq<nat>, nc: nat, z: State)
    requires Unchecked(e, head, body, tail, end, greedy, st, nc) && StateOk(e.s, z, nc) && Rejects(e, head, st, z)
    ensures Rejects(e, tail, st, z)
  {
    hide Unchecked, StateOk, Reaches, Step;
    forall bt: seq<Frame>
      ensures Reaches(e, At(tail, z, st, bt), Fail(bt))
    {
      HeadStep(e, head, body, tail, end, greedy, st, nc, z, bt);
      ReachTrans(e, At(tail, z, st, bt), At(head, z, st, bt), Fail(bt));
    }
  }

  /** From the head to the body: at once, or after the end has been tried and rejected. */
  lemma {:induction false} EnterBody(e: Env, m: Node, back: bool, cc: nat, head: nat, body: nat, tail: nat, end: nat, greedy: bool,
                                     x: State, st: seq<nat>, bt: seq<Frame>, nc: nat) returns (c: Vm, bt1: seq<Frame>)
    requires Unchecked(e, head, body, tail, end, greedy, st, nc) && StateOk(e.s, x, nc) && RejectsAll(e, m, back, cc, end, st, x)
    ensures c == At(body, x, st, bt1) && Reaches(e, Step(e, At(head, x, st, bt)), c)
  {
    hide Unchecked, StateOk, Reaches, Reached;
    HeadStep(e, head, body, tail, end, greedy, st, nc, x, bt);
    if greedy {
      bt1 := [SplitTo(end, x, st)] + bt;
      c := At(body, x, st, bt1);
      ReachRefl(e, c);
    } else {
      bt1 := bt;
      c := At(body, x, st, bt);
      ReachedSelf(e.s, m, back, cc, x);
      assert Rejects(e, end, st, x);
      var fr := SplitTo(body, x, st);
      var f := Fail([fr] + bt);
      assert Step(e, f) == c by {
        hide StepRun, StepGreedy;
        assert ([fr] + bt)[1..] == bt;
      }
      hide Step;
      ReachRefl(e, c);
      ReachStep(e, f, c);
      ReachTrans(e, Step(e, At(head, x, st, bt)), f, c);
    }
  }

  /** Of the results offered, the first that reaches a circle is arrived at. */
  lemma {:induction false} FirstCircular(e: Env, m: Node, back: bool, cc: nat, c: Vm, ys: seq<State>, tail: nat, st: seq<nat>, bt: seq<Frame>)
      returns (y: State, bt': seq<Frame>)
    requires Offers(e, c, ys, tail, st, bt) && exists z :: z in ys && Circular(e.s, m, back, cc, z)
    requires forall z | z in ys :: Circular(e.s, m, back, cc, z) || Rejects(e, tail, st, z)
    ensures y in ys && Circular(e.s, m, back, cc, y) && Reaches(e, c, At(tail, y, st, bt'))
    decreases |ys|
  {
    hide Circular, Reaches, Step;
    var ext: seq<Frame> :| NoLook(ext) && Reaches(e, c, At(tail, ys[0], st, ext + bt)) &&
                           Offers(e, Fail(ext + bt), ys[1..], tail, st, bt);
    assert ys[0] in ys;
    if Circular(e.s, m, back, cc, ys[0]) {
      y, bt' := ys[0], ext + bt;
    } else {
      ReachTrans(e, c, At(tail, ys[0], st, ext + bt), Fail(ext + bt));
      var z :| z in ys && Circular(e.s, m, back, cc, z);
      assert z in ys[1..];
      y, bt' := FirstCircular(e, m, back, cc, Fail(ext + bt), ys[1..], tail, st, bt);
      ReachTrans(e, c, Fail(ext + bt), At(tail, y, st, bt'));
    }
  }

  lemma {:induction false} HaltIsLast(e: Env, vm: Vm, k: nat)
    requires vm.Halt?
    ensures StepN(e, vm, k) == vm
    decreases k
  {
    if k > 0 {
      HaltIsLast(e, vm, k - 1);
    }
  }

  /** With a circle, and with everything rejected after the loop, the machine never halts. */
  lemma {:induction false} NeverHalts(e: Env, m: Node, back: bool, cc: nat, head: nat, body: nat, tail: nat, end: nat, greedy: bool,
                                      x: State, st: seq<nat>, bt: seq<Frame>, nc: nat, k: nat)
    requires Unchecked(e, head, body, tail, end, greedy, st, nc) && Matches(e, m, back, cc, body, tail, |st|, nc)
    requires StateOk(e.s, x, nc) && Circular(e.s, m, back, cc, x) && RejectsAll(e, m, back, cc, end, st, x)
    ensures !StepN(e, At(head, x, st, bt), k).Halt?
    decreases k
  {
    hide Unchecked, Matches, StateOk, Circular, RejectsAll, Step;
    if k > 0 {
      var y, bt' := GoesRound(e, m, back, cc, head, body, tail, end, greedy, x, st, bt, nc);
      var vm := Step(e, At(head, x, st, bt));
      var j: nat :| StepN(e, vm, j) == At(head, y, st, bt');
      if j <= k - 1 {
        StepNAdd(e, vm, j, k - 1 - j);
        NeverHalts(e, m, back, cc, head, body, tail, end, greedy, y, st, bt', nc, k - 1 - j);
      } else {
        StepNAdd(e, vm, k - 1, j - (k - 1));
        if StepN(e, vm, k - 1).Halt? {
          HaltIsLast(e, StepN(e, vm, k - 1), j - (k - 1));
        }
      }
    }
  }

  /**
  An unchecked loop around any compiled atom, whose results are all rejected: it fails, whatever is
  on the backtrack stack, if and only if its iterations reach no circle.
  */
  lemma {:induction false} EndsIff(e: Env, m: Node, back: bool, cc: nat, head: nat, body: nat, tail: nat, end: nat, greedy: bool,
                                   x: State, st: seq<nat>, nc: nat)
    requires Unchecked(e, head, body, tail, end, greedy, st, nc) && Matches(e, m, back, cc, body, tail, |st|, nc)
    requires StateOk(e.s, x, nc) && RejectsAll(e, m, back, cc, end, st, x)
    ensures Rejects(e, head, st, x) <==> !Circular(e.s, m, back, cc, x)
  {
    hide Unchecked, Matches, StateOk, Circular, RejectsAll, Step;
    if !Circular(e.s, m, back, cc, x) {
      Fails(e, m, back, cc, head, body, tail, end, greedy, x, st, nc);
    } else if Rejects(e, head, st, x) {
      var bt: seq<Frame> := [];
      assert Reaches(e, At(head, x, st, bt), Fail(bt));
      Halts(e, At(head, x, st, bt), [], false);
      var k: nat :| StepN(e, At(head, x, st, bt), k) == Halt(false, []);
      NeverHalts(e, m, back, cc, head, body, tail, end, greedy, x, st, bt, nc, k);
      assert false;
    }
  }

  /** Iterations that all move on reach no circle. */
  lemma {:induction false} ProgressIsNotCircular(s: Subject, m: Node, back: bool, cc: nat, x: State, nc: nat)
    requires StateOk(s, x, nc) && Progresses(m, back, cc)
    ensures !Circular(s, m, back, cc, x)
  {
    hide Results, StateOk, Progresses, Remaining;
    if Circular(s, m, back, cc, x) {
      var y :| Reached(s, m, back, cc, x, y) && Again(s, m, back, cc, y, y);
      var j: nat :| ReachedIn(s, m, back, cc, x, y, j);
      Nearer(s, m, back, cc, x, y, j, nc);
      var z :| z in Results(s, m, back, cc, y) && Reached(s, m, back, cc, z, y);
      ProgressMoves(s, m, back, cc, y, nc);
      var k: nat :| ReachedIn(s, m, back, cc, z, y, k);
      Nearer(s, m, back, cc, z, y, k, nc);
      assert false;
    }
  }

  lemma {:induction false} Nearer(s: Subject, m: Node, back: bool, cc: nat, x: State, y: State, k: nat, nc: nat)
    requires StateOk(s, x, nc) && Progresses(m, back, cc) && ReachedIn(s, m, back, cc, x, y, k)
    ensures StateOk(s, y, nc) && Remaining(s, back, y) <= Remaining(s, back, x)
    decreases k
  {
    hide Results, StateOk, Progresses, Remaining;
    if k > 0 {
      var z :| z in Results(s, m, back, cc, x) && ReachedIn(s, m, back, cc, z, y, k - 1);
      ProgressMoves(s, m, back, cc, x, nc);
      Nearer(s, m, back, cc, z, y, k - 1, nc);
    }
  }

  /** An iteration from y that stays in place. */
  ghost predicate StaysAt(s: Subject, m: Node, back: bool, cc: nat, y: State) {
    exists z :: z in Results(s, m, back, cc, y) && z.pos == y.pos
  }

  /** The iterations from x reach a state with an iteration that stays in place. */
  ghost predicate StaysSomewhere(s: Subject, m: Node, back: bool, cc: nat, x: State) {
    exists y :: Reached(s, m, back, cc, x, y) && StaysAt(s, m, back, cc, y)
  }

  lemma {:induction false} StaysOn(s: Subject, m: Node, back: bool, cc: nat, y: State, z: State)
    requires RefersOutside(m, cc, cc + NumCaps(m)) && z in Results(s, m, back, cc, y) && z.pos == y.pos
    ensures StaysAt(s, m, back, cc, z)
  {
    hide Results, RefersOutside, NumCaps;
    ResultsWithin(s, m, back, cc, y);
    assert Alike(y, z, cc, cc + NumCaps(m)) by { assert y.(pos := z.pos) == y; }
    ResultsAlike(s, m, back, cc, y, z, cc, cc + NumCaps(m));
    var ys, zs := Results(s, m, back, cc, y), Results(s, m, back, cc, z);
    var i :| 0 <= i < |ys| && ys[i] == z;
    assert Alike(ys[i], zs[i], cc, cc + NumCaps(m));
    assert zs[i] in zs && zs[i].pos == z.pos;
  }

  /** Staying in place again and again, among finitely many states, closes a circle. */
  lemma {:induction false} StayingIsCircular(s: Subject, m: Node, back: bool, cc: nat, x: State, nc: nat)
    requires StateOk(s, x, nc) && RefersOutside(m, cc, cc + NumCaps(m)) && StaysAt(s, m, back, cc, x)
    ensures Circular(s, m, back, cc, x)
    decreases |Later(s, m, back, cc, nc, x)|
  {
    hide Results, StateOk, RefersOutside, NumCaps, Later, Circular;
    var z :| z in Results(s, m, back, cc, x) && z.pos == x.pos;
    ResultsAllOk2(s, m, back, cc, x, nc);
    if !Circular(s, m, back, cc, x) {
      FewerLater(s, m, back, cc, nc, x, z);
      StaysOn(s, m, back, cc, x, z);
      StayingIsCircular(s, m, back, cc, z, nc);
      assert false;
    }
  }

  /** For an atom that does not refer to its own groups: a circle if and only if some iteration stays in place. */
  lemma {:induction false} CircularIffStays(s: Subject, m: Node, back: bool, cc: nat, x: State, nc: nat)
    requires StateOk(s, x, nc) && RefersOutside(m, cc, cc + NumCaps(m))
    ensures Circular(s, m, back, cc, x) <==> StaysSomewhere(s, m, back, cc, x)
  {
    hide Results, StateOk, RefersOutside, NumCaps, StaysAt, ReachedIn;
    if Circular(s, m, back, cc, x) {
      var y :| Reached(s, m, back, cc, x, y) && Again(s, m, back, cc, y, y);
      ReachedIsOk(s, m, back, cc, x, y, nc);
      CircleStays(s, m, back, cc, y, nc);
    }
    if StaysSomewhere(s, m, back, cc, x) {
      var y :| Reached(s, m, back, cc, x, y) && StaysAt(s, m, back, cc, y);
      ReachedIsOk(s, m, back, cc, x, y, nc);
      StayingIsCircular(s, m, back, cc, y, nc);
      var z :| Reached(s, m, back, cc, y, z) && Again(s, m, back, cc, z, z);
      ReachedTrans(s, m, back, cc, x, y, z);
    }
  }

  lemma {:induction false} CircleStays(s: Subject, m: Node, back: bool, cc: nat, y: State, nc: nat)
    requires StateOk(s, y, nc) && Again(s, m, back, cc, y, y)
    ensures StaysAt(s, m, back, cc, y)
  {
    hide Results, StateOk, Reached;
    var z :| z in Results(s, m, back, cc, y) && Reached(s, m, back, cc, z, y);
    ResultsOk(s, m, back, cc, y, nc);
    ReachedIsOk(s, m, back, cc, z, y, nc);
    OkInside(s, y, nc);
    OkInside(s, z, nc);
  }

  lemma {:induction false} ReachedIsOk(s: Subject, m: Node, back: bool, cc: nat, x: State, y: State, nc: nat)
    requires StateOk(s, x, nc) && Reached(s, m, back, cc, x, y)
    ensures StateOk(s, y, nc) && Remaining(s, back, y) <= Remaining(s, back, x)
  {
    hide StateOk, ReachedIn;
    var k: nat :| ReachedIn(s, m, back, cc, x, y, k);
    ReachedInOk(s, m, back, cc, x, y, k, nc);
  }

  lemma {:induction false} ReachedInOk(s: Subject, m: Node, back: bool, cc: nat, x: State, y: State, k: nat, nc: nat)
    requires StateOk(s, x, nc) && ReachedIn(s, m, back, cc, x, y, k)
    ensures StateOk(s, y, nc) && Remaining(s, back, y) <= Remaining(s, back, x)
    decreases k
  {
    hide Results, StateOk, Remaining;
    if k > 0 {
      var z :| z in Results(s, m, back, cc, x) && ReachedIn(s, m, back, cc, z, y, k - 1);
      ResultsOk(s, m, back, cc, x, nc);
      ReachedInOk(s, m, back, cc, z, y, k - 1, nc);
    }
  }
}
