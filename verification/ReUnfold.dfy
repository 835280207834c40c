/** The definitions of the compiler and of the reference matcher, one pattern constructor at a time. */
module ReUnfold {
  import opened ReCode
  import opened ReSyntax
  import opened ReMatch
  import opened ReVm

  lemma {:induction false} EmptyUnfold(s: Subject, back: bool, cc: nat, x: State)
    ensures Compile(Empty, back, cc) == [] && Results(s, Empty, back, cc, x) == [x]
  {
  }

  lemma {:induction false} AtomUnfold(s: Subject, t: Test, back: bool, cc: nat, x: State)
    requires x.pos <= |s.input|
    ensures Compile(Atom(t), back, cc) == if back then [Prev, TestCode(t), Prev] else [TestCode(t)]
    ensures back ==>
              var ok := x.pos > 0 && Accepts(t, GetChar(s, PrevPos(s, x.pos)));
              Results(s, Atom(t), back, cc, x) == if ok then [x.(pos := PrevPos(s, x.pos))] else []
    ensures !back ==>
              var ok := x.pos < |s.input| && Accepts(t, GetChar(s, x.pos));
              Results(s, Atom(t), back, cc, x) == if ok then [x.(pos := NextPos(s, x.pos))] else []
    ensures NodeOk(Atom(t), back, cc) ==> NodeOk(Atom(t), false, 0)
  {
    hide TestCode, Accepts, GetChar, PrevPos, NextPos, ClassOk;
  }

  predicate IsAssertion(m: Node) {
    m.BeginLine? || m.EndLine? || m.WordEdge?
  }

  function AssertOp(m: Node): (i: Instr)
    requires IsAssertion(m)
    ensures IsAssertOp(i) && !IsCharOp(i)
  {
    if m.BeginLine? then LineStart else if m.EndLine? then LineEnd
    else if m.neg then NotWordBoundary else WordBoundary
  }

  lemma {:induction false} AssertUnfold(s: Subject, m: Node, back: bool, cc: nat, x: State)
    requires x.pos <= |s.input| && IsAssertion(m)
    ensures Compile(m, back, cc) == [AssertOp(m)]
    ensures Results(s, m, back, cc, x) == if AssertTest(AssertOp(m), s, x.pos) then [x] else []
  {
    hide AtLineStart, AtLineEnd, AtWordEdge;
  }

  lemma {:induction false} BackUnfold(s: Subject, g: nat, back: bool, cc: nat, x: State)
    ensures Compile(BackReference(g), back, cc) == [if back then BackwardBackRef(g) else BackRef(g)]
    ensures var p := RefersTo(s, g, back, x);
            Results(s, BackReference(g), back, cc, x) == if p.Some? then [x.(pos := p.value)] else []
  {
    hide RefersTo;
  }

  lemma {:induction false} CatUnfold(s: Subject, l: Node, r: Node, back: bool, cc: nat, x: State)
    ensures var cl, cr := Compile(l, back, cc), Compile(r, back, cc + NumCaps(l));
            Compile(Cat(l, r), back, cc) == if back then cr + cl else cl + cr
    ensures Results(s, Cat(l, r), back, cc, x) ==
            if back then ResultsAll(s, l, back, cc, Results(s, r, back, cc + NumCaps(l), x))
            else ResultsAll(s, r, back, cc + NumCaps(l), Results(s, l, back, cc, x))
    ensures NodeOk(Cat(l, r), back, cc) <==> NodeOk(l, back, cc) && NodeOk(r, back, cc + NumCaps(l))
  {
    hide NumCaps, CodeSize, Iter, IterEach, ResultsAll, QuantCode, SetAll, ResetCode, TestCode, ClassOk, CheckAdvance, SelfRefers, RefersTo, Progresses;
  }

  lemma {:induction false} AltUnfold(s: Subject, l: Node, r: Node, back: bool, cc: nat, x: State)
    ensures var cl, cr := Compile(l, back, cc), Compile(r, back, cc + NumCaps(l));
            Compile(Alt(l, r), back, cc) == [SplitNextFirst(CodeSize(cl) + 5)] + cl + [Goto(CodeSize(cr))] + cr
    ensures Results(s, Alt(l, r), back, cc, x) == Results(s, l, back, cc, x) + Results(s, r, back, cc + NumCaps(l), x)
    ensures NodeOk(Alt(l, r), back, cc) <==> NodeOk(l, back, cc) && NodeOk(r, back, cc + NumCaps(l))
  {
    hide NumCaps, CodeSize, Iter, IterEach, ResultsAll, QuantCode, SetAll, ResetCode, TestCode, ClassOk, CheckAdvance, SelfRefers, RefersTo, Progresses;
  }

  lemma {:induction false} GroupUnfold(s: Subject, m: Node, back: bool, cc: nat, x: State)
    ensures Compile(Group(m), back, cc) ==
            if back then [SaveEnd(cc)] + Compile(m, back, cc + 1) + [SaveStart(cc)]
            else [SaveStart(cc)] + Compile(m, back, cc + 1) + [SaveEnd(cc)]
    ensures Results(s, Group(m), back, cc, x) ==
            if back then SetAll(Results(s, m, back, cc + 1, SetCap(x, 2 * cc + 1)), 2 * cc)
            else SetAll(Results(s, m, back, cc + 1, SetCap(x, 2 * cc)), 2 * cc + 1)
    ensures NodeOk(Group(m), back, cc) <==> NodeOk(m, back, cc + 1)
    ensures NumCaps(Group(m)) == 1 + NumCaps(m)
  {
    hide SetAll, SetCap, Iter, IterEach, ResultsAll, QuantCode, ResetCode, TestCode, ClassOk, CheckAdvance, SelfRefers, RefersTo, Progresses, CodeSize;
  }

  lemma {:induction false} LookUnfold(s: Subject, neg: bool, b: bool, m: Node, back: bool, cc: nat, x: State)
    ensures var a := Compile(m, b, cc);
            Compile(Look(neg, b, m), back, cc) ==
            [if neg then NegLookahead(CodeSize(a) + 1) else Lookahead(CodeSize(a) + 1)] + a + [Match]
    ensures var rs := Results(s, m, b, cc, x);
            Results(s, Look(neg, b, m), back, cc, x) ==
            if neg then (if rs == [] then [x] else [])
            else if rs == [] then [] else [x.(caps := rs[0].caps)]
    ensures NodeOk(Look(neg, b, m), back, cc) <==> NodeOk(m, b, cc)
  {
    hide CodeSize, SetAll, SetCap, Iter, IterEach, ResultsAll, QuantCode, ResetCode, TestCode, ClassOk, CheckAdvance, SelfRefers, RefersTo, Progresses;
  }

  lemma {:induction false} QuantUnfold(s: Subject, n: Node, back: bool, cc: nat, x: State)
    requires n.Quant?
    ensures Compile(n, back, cc) == QuantCode(Compile(n.n, back, cc), n.min, n.max, n.greedy, ResetCode(n.n, n.min, cc))
    ensures NodeOk(n, back, cc) ==>
              NodeOk(n.n, back, cc) && n.min < INFINITE && (n.max.Some? ==> n.min <= n.max.value < INFINITE) &&
              (n.max == None && !NeedsCheck(Compile(n.n, back, cc), n.greedy) ==> Progresses(n.n, back, cc))
    ensures n.max.Some? ==> n.max.value >= n.min ==>
              Results(s, n, back, cc, x) ==
              IterEach(s, n.n, back, cc, UpTo(n.max.value - n.min, n.greedy),
                       Iter(s, n.n, back, cc, Times(n.min), ResetAtom(n.n, n.min, cc, x)))
    ensures n.max.Some? && n.max.value < n.min ==> Results(s, n, back, cc, x) == []
    ensures n.max == None ==>
              Results(s, n, back, cc, x) ==
              IterEach(s, n.n, back, cc, Star(n.greedy),
                       Iter(s, n.n, back, cc, Times(n.min), ResetAtom(n.n, n.min, cc, x)))
    ensures NumCaps(n) == NumCaps(n.n)
  {
    hide Iter, IterEach, ResetAtom, QuantCode, ResetCode, SetAll, SetCap, ResultsAll, TestCode, ClassOk, CheckAdvance, SelfRefers, RefersTo, Progresses, CodeSize;
  }
}
