/** Laws of the reference matcher: results stay inside the subject and move one way. */
module ReLaws {
  import opened ReCode
  import opened ReSyntax
  import opened ReMatch
  import opened ReUnfold
  import opened ReVm

  /** Captured positions are between characters. */
  ghost predicate CapsOk(s: Subject, caps: seq<Option<nat>>) {
    forall i | 0 <= i < |caps| && caps[i].Some? :: Boundary(s, caps[i].value)
  }

  /** A position between characters, and nc captures. */
  ghost predicate StateOk(s: Subject, x: State, nc: nat) {
    Boundary(s, x.pos) && |x.caps| == 2 * nc && CapsOk(s, x.caps)
  }

  /** Well-formed states with at most `lim` units remaining. */
  ghost predicate AllOk(s: Subject, back: bool, xs: seq<State>, nc: nat, lim: int) {
    forall x | x in xs :: StateOk(s, x, nc) && Remaining(s, back, x) <= lim
  }

  lemma {:induction false} NextIsBoundary(s: Subject, pos: nat)
    requires Boundary(s, pos) && pos < |s.input|
    ensures Boundary(s, NextPos(s, pos)) && PrevPos(s, NextPos(s, pos)) == pos
  {
  }

  /** Stepping back and forth: the second `prev` of a backward atom undoes its read. */
  lemma {:induction false} PrevIsBoundary(s: Subject, pos: nat)
    requires 0 < pos <= |s.input|
    ensures PrevPos(s, NextPos(s, PrevPos(s, pos))) == PrevPos(s, pos)
    ensures Boundary(s, pos) ==> Boundary(s, PrevPos(s, pos))
  {
  }

  /** A back reference ends between characters, not behind its start. */
  lemma {:induction false} ForwardOk(s: Subject, p: nat, end: nat, q: nat)
    requires end <= |s.input| && Boundary(s, q)
    ensures var r := SameForward(s, p, end, q); r.Some? ==> q <= r.value && Boundary(s, r.value)
    decreases |s.input| - q
  {
    hide GetChar, Boundary;
    if p < end && q < |s.input| {
      NextIsBoundary(s, q);
      ForwardOk(s, NextPos(s.(input := s.input[..end]), p), end, NextPos(s, q));
    }
  }

  lemma {:induction false} BackwardOk(s: Subject, start: nat, p: nat, q: nat)
    requires p <= |s.input| && q <= |s.input| && Boundary(s, q)
    ensures var r := SameBackward(s, start, p, q); r.Some? ==> r.value <= q && Boundary(s, r.value)
    decreases p
  {
    hide GetChar, Boundary;
    if p > start && q > 0 {
      PrevIsBoundary(s, q);
      var (c2, q1) := PrevFrom(s, 0, q);
      assert q1 == PrevPos(s, q);
      BackwardOk(s, start, PrevFrom(s, start, p).1, q1);
    }
  }

  lemma {:induction false} RefersOk(s: Subject, g: nat, back: bool, x: State)
    requires Boundary(s, x.pos)
    ensures var p := RefersTo(s, g, back, x);
            p.Some? ==> Boundary(s, p.value) && Remaining(s, back, x.(pos := p.value)) <= Remaining(s, back, x)
  {
    hide SameForward, SameBackward;
    var text := Captured(x.caps, g);
    if text.Some? && text.value.1 <= |s.input| {
      ForwardOk(s, text.value.0, text.value.1, x.pos);
      BackwardOk(s, text.value.0, text.value.1, x.pos);
    }
  }

  lemma {:induction false} SetCapOk(s: Subject, back: bool, x: State, i: nat, nc: nat)
    requires StateOk(s, x, nc)
    ensures StateOk(s, SetCap(x, i), nc) && Remaining(s, back, SetCap(x, i)) == Remaining(s, back, x)
  {
  }

  lemma {:induction false} ResetOk(s: Subject, back: bool, m: Node, min: nat, cc: nat, x: State, nc: nat)
    requires StateOk(s, x, nc)
    ensures var x0 := ResetAtom(m, min, cc, x); StateOk(s, x0, nc) && Remaining(s, back, x0) == Remaining(s, back, x)
  {
    hide NumCaps, Boundary;
  }

  lemma {:induction false} SetAllOk(s: Subject, back: bool, xs: seq<State>, i: nat, nc: nat, lim: int)
    requires AllOk(s, back, xs, nc, lim)
    ensures AllOk(s, back, SetAll(xs, i), nc, lim)
  {
    hide StateOk, SetCap;
    if xs != [] {
      assert xs[0] in xs;
      SetCapOk(s, back, xs[0], i, nc);
      SetAllOk(s, back, xs[1..], i, nc, lim);
    }
  }

  /** Every result is a well-formed state, not before the start in the direction of matching. */
  lemma {:induction false} ResultsOk(s: Subject, n: Node, back: bool, cc: nat, x: State, nc: nat)
    requires StateOk(s, x, nc)
    ensures AllOk(s, back, Results(s, n, back, cc, x), nc, Remaining(s, back, x))
    decreases n, 0, 0, 0, 0
  {
    hide Results, Compile, Iter, IterEach, ResultsAll, SetAll, AllOk, NodeOk, NumCaps, StateOk, SetCap, ResetAtom, Remaining;
    var lim := Remaining(s, back, x);
    match n
    case Cat(l, r) =>
      CatUnfold(s, l, r, back, cc, x);
      if back {
        ResultsOk(s, r, back, cc + NumCaps(l), x, nc);
        ResultsAllOk(s, l, back, cc, Results(s, r, back, cc + NumCaps(l), x), nc, lim);
      } else {
        ResultsOk(s, l, back, cc, x, nc);
        ResultsAllOk(s, r, back, cc + NumCaps(l), Results(s, l, back, cc, x), nc, lim);
      }
    case Alt(l, r) =>
      AltUnfold(s, l, r, back, cc, x);
      ResultsOk(s, l, back, cc, x, nc);
      ResultsOk(s, r, back, cc + NumCaps(l), x, nc);
      BothOk(s, back, Results(s, l, back, cc, x), Results(s, r, back, cc + NumCaps(l), x), nc, lim);
    case Group(m) =>
      GroupUnfold(s, m, back, cc, x);
      var (i, j) := if back then (2 * cc + 1, 2 * cc) else (2 * cc, 2 * cc + 1);
      SetCapOk(s, back, x, i, nc);
      ResultsOk(s, m, back, cc + 1, SetCap(x, i), nc);
      SetAllOk(s, back, Results(s, m, back, cc + 1, SetCap(x, i)), j, nc, lim);
    case Look(neg, b, m) =>
      LookUnfold(s, neg, b, m, back, cc, x);
      ResultsOk(s, m, b, cc, x, nc);
      LookOk(s, back, b, Results(s, m, b, cc, x), x, nc);
    case Quant(m, min, max, greedy) =>
      QuantUnfold(s, n, back, cc, x);
      var x0 := ResetAtom(m, min, cc, x);
      ResetOk(s, back, m, min, cc, x, nc);
      var first := Iter(s, m, back, cc, Times(min), x0);
      IterOk(s, m, back, cc, Times(min), x0, nc);
      if max == None {
        IterEachOk(s, m, back, cc, Star(greedy), first, nc, lim);
      } else if max.value >= min {
        IterEachOk(s, m, back, cc, UpTo(max.value - min, greedy), first, nc, lim);
      } else {
        NoneOk(s, back, nc, lim);
      }
    case _ => LeafOk(s, n, back, cc, x, nc);
  }

  lemma {:induction false} LeafOk(s: Subject, n: Node, back: bool, cc: nat, x: State, nc: nat)
    requires StateOk(s, x, nc) && (n.Empty? || n.Atom? || IsAssertion(n) || n.BackReference?)
    ensures AllOk(s, back, Results(s, n, back, cc, x), nc, Remaining(s, back, x))
  {
    hide Results, Compile, Accepts, GetChar, AssertTest, AssertOp, NodeOk, TestCode, RefersTo, CapsOk;
    if n.BackReference? {
      BackUnfold(s, n.group, back, cc, x);
      RefersOk(s, n.group, back, x);
    } else if n.Atom? {
      AtomUnfold(s, n.t, back, cc, x);
      if back && x.pos > 0 {
        PrevIsBoundary(s, x.pos);
      } else if !back && x.pos < |s.input| {
        NextIsBoundary(s, x.pos);
      }
    } else if n.Empty? {
      EmptyUnfold(s, back, cc, x);
    } else {
      AssertUnfold(s, n, back, cc, x);
    }
  }

  lemma {:induction false} BothOk(s: Subject, back: bool, xs: seq<State>, ys: seq<State>, nc: nat, lim: int)
    requires AllOk(s, back, xs, nc, lim) && AllOk(s, back, ys, nc, lim)
    ensures AllOk(s, back, xs + ys, nc, lim)
  {
  }

  lemma {:induction false} LookOk(s: Subject, back: bool, b: bool, rs: seq<State>, x: State, nc: nat)
    requires StateOk(s, x, nc) && AllOk(s, b, rs, nc, Remaining(s, b, x))
    ensures AllOk(s, back, [x], nc, Remaining(s, back, x)) && AllOk(s, back, [], nc, Remaining(s, back, x))
    ensures rs != [] ==> AllOk(s, back, [x.(caps := rs[0].caps)], nc, Remaining(s, back, x))
  {
    hide CapsOk;
    if rs != [] {
      assert rs[0] in rs;
    }
  }

  lemma {:induction false} ResultsAllOk(s: Subject, n: Node, back: bool, cc: nat, xs: seq<State>, nc: nat, lim: int)
    requires AllOk(s, back, xs, nc, lim)
    ensures AllOk(s, back, ResultsAll(s, n, back, cc, xs), nc, lim)
    decreases n, 1, 0, 0, |xs|
  {
    if xs != [] {
      ResultsOk(s, n, back, cc, xs[0], nc);
      ResultsAllOk(s, n, back, cc, xs[1..], nc, lim);
    }
  }

  lemma {:induction false} IterOk(s: Subject, m: Node, back: bool, cc: nat, rep: Rep, x: State, nc: nat)
    requires StateOk(s, x, nc)
    ensures AllOk(s, back, Iter(s, m, back, cc, rep, x), nc, Remaining(s, back, x))
    decreases m, 1, RepMeasure(s, back, rep, x), if rep.Star? then 2 else 0, 0
  {
    hide Results, IterAll, StateOk, AllOk;
    ResultsOk(s, m, back, cc, x, nc);
    var ys, lim := Results(s, m, back, cc, x), Remaining(s, back, x);
    OneOk(s, back, x, nc);
    if rep.Star? || rep.k > 0 {
      var rep' := match rep case Star(_) => rep case Times(k) => Times(k - 1) case UpTo(k, greedy) => UpTo(k - 1, greedy);
      IterAllOk(s, m, back, cc, rep', x, ys, nc);
      var more := IterAll(s, m, back, cc, rep', x, ys);
      BothOk(s, back, more, [x], nc, lim);
      BothOk(s, back, [x], more, nc, lim);
    }
  }

  lemma {:induction false} OneOk(s: Subject, back: bool, x: State, nc: nat)
    requires StateOk(s, x, nc)
    ensures AllOk(s, back, [x], nc, Remaining(s, back, x))
  {
  }

  lemma {:induction false} IterAllOk(s: Subject, m: Node, back: bool, cc: nat, rep: Rep, x: State, ys: seq<State>, nc: nat)
    requires StateOk(s, x, nc) && AllOk(s, back, ys, nc, Remaining(s, back, x))
    ensures AllOk(s, back, IterAll(s, m, back, cc, rep, x, ys), nc, Remaining(s, back, x))
    decreases m, 1, RepMeasure(s, back, rep, x), 1, |ys|
  {
    if ys != [] {
      if !(rep.Star? && Remaining(s, back, ys[0]) >= Remaining(s, back, x)) {
        IterOk(s, m, back, cc, rep, ys[0], nc);
      }
      IterAllOk(s, m, back, cc, rep, x, ys[1..], nc);
    }
  }

  lemma {:induction false} IterEachOk(s: Subject, m: Node, back: bool, cc: nat, rep: Rep, xs: seq<State>, nc: nat, lim: int)
    requires AllOk(s, back, xs, nc, lim)
    ensures AllOk(s, back, IterEach(s, m, back, cc, rep, xs), nc, lim)
    decreases m, 2, 0, 0, |xs|
  {
    if xs != [] {
      IterOk(s, m, back, cc, rep, xs[0], nc);
      IterEachOk(s, m, back, cc, rep, xs[1..], nc, lim);
    }
  }

  /** An undecided or advancing prefix: what follows is reached only when the prefix has no effect. */
  lemma {:induction false} CheckAdvanceAppend(a: seq<Instr>, b: seq<Instr>)
    requires CheckAdvance(a + b)
    ensures CheckAdvance(a) || CheckAdvance(b)
  {
    if a == [] {
      assert a + b == b;
    } else {
      assert (a + b)[1..] == a[1..] + b;
      if !IsCharOp(a[0]) {
        CheckAdvanceAppend(a[1..], b);
      }
    }
  }

  /** Code that the compiler judges to advance leaves every result strictly further. */
  lemma {:induction false} Advances(s: Subject, n: Node, back: bool, cc: nat, x: State, nc: nat)
    requires StateOk(s, x, nc) && CheckAdvance(Compile(n, back, cc))
    ensures AllOk(s, back, Results(s, n, back, cc, x), nc, Remaining(s, back, x) - 1)
    decreases n, 0, 0
  {
    match n
    case Atom(t) => ResultsOk(s, n, back, cc, x, nc);
    case Cat(l, r) => AdvancesCat(s, n, back, cc, x, nc);
    case Group(m) => AdvancesGroup(s, n, back, cc, x, nc);
    case Quant(m, min, max, greedy) => AdvancesQuant(s, n, back, cc, x, nc);
    case _ =>
  }

  lemma {:induction false} AdvancesCat(s: Subject, n: Node, back: bool, cc: nat, x: State, nc: nat)
    requires n.Cat? && StateOk(s, x, nc) && CheckAdvance(Compile(n, back, cc))
    ensures AllOk(s, back, Results(s, n, back, cc, x), nc, Remaining(s, back, x) - 1)
    decreases n, -1, 0
  {
    hide AllOk, StateOk, ResultsAll, Results, Compile, CheckAdvance, NumCaps;
    var lim: int := Remaining(s, back, x);
    var Cat(l, r) := n;
    CatUnfold(s, l, r, back, cc, x);
    var (p, q, cp, cq) := if back then (r, l, cc + NumCaps(l), cc) else (l, r, cc, cc + NumCaps(l));
    var a, b := Compile(p, back, cp), Compile(q, back, cq);
    assert Compile(n, back, cc) == a + b;
    CheckAdvanceAppend(a, b);
    var ys := Results(s, p, back, cp, x);
    if CheckAdvance(a) {
      Advances(s, p, back, cp, x, nc);
      ResultsAllOk(s, q, back, cq, ys, nc, lim - 1);
    } else {
      ResultsOk(s, p, back, cp, x, nc);
      AdvancesAll(s, q, back, cq, ys, nc, lim);
    }
  }

  lemma {:induction false} AdvancesGroup(s: Subject, n: Node, back: bool, cc: nat, x: State, nc: nat)
    requires n.Group? && StateOk(s, x, nc) && CheckAdvance(Compile(n, back, cc))
    ensures AllOk(s, back, Results(s, n, back, cc, x), nc, Remaining(s, back, x) - 1)
    decreases n, -1, 0
  {
    hide AllOk, SetAll, Results, Compile, StateOk, SetCap, Remaining;
    GroupUnfold(s, n.n, back, cc, x);
    var (i, j) := if back then (2 * cc + 1, 2 * cc) else (2 * cc, 2 * cc + 1);
    var a := Compile(n.n, back, cc + 1);
    var head: Instr := if back then SaveEnd(cc) else SaveStart(cc);
    var tail: Instr := if back then SaveStart(cc) else SaveEnd(cc);
    assert Compile(n, back, cc) == [head] + (a + [tail]);
    CheckAdvanceAppend(a, [tail]);
    SetCapOk(s, back, x, i, nc);
    Advances(s, n.n, back, cc + 1, SetCap(x, i), nc);
    SetAllOk(s, back, Results(s, n.n, back, cc + 1, SetCap(x, i)), j, nc, Remaining(s, back, x) as int - 1);
  }

  lemma {:induction false} AdvancesQuant(s: Subject, n: Node, back: bool, cc: nat, x: State, nc: nat)
    requires n.Quant? && StateOk(s, x, nc) && CheckAdvance(Compile(n, back, cc))
    ensures AllOk(s, back, Results(s, n, back, cc, x), nc, Remaining(s, back, x) - 1)
    decreases n, -1, 0
  {
    hide AllOk, StateOk, QuantCode, CheckAdvance, IterAll, IterEach, Results, Compile;
    QuantUnfold(s, n, back, cc, x);
    var lim: int := Remaining(s, back, x);
    var Quant(m, min, max, greedy) := n;
    QuantAdvances(Compile(m, back, cc), min, max, greedy, ResetCode(m, min, cc));
    Advances(s, m, back, cc, x, nc);
    var first := Iter(s, m, back, cc, Times(min), x);
    IterAllBelow(s, m, back, cc, min - 1, x, Results(s, m, back, cc, x), nc, lim - 1);
    if max == None {
      IterEachOk(s, m, back, cc, Star(greedy), first, nc, lim - 1);
    } else if max.value >= min {
      IterEachOk(s, m, back, cc, UpTo(max.value - min, greedy), first, nc, lim - 1);
    } else {
      NoneOk(s, back, nc, lim - 1);
    }
  }

  lemma {:induction false} NoneOk(s: Subject, back: bool, nc: nat, lim: int)
    ensures AllOk(s, back, [], nc, lim)
  {
  }

  lemma {:induction false} AdvancesAll(s: Subject, n: Node, back: bool, cc: nat, xs: seq<State>, nc: nat, lim: int)
    requires AllOk(s, back, xs, nc, lim) && CheckAdvance(Compile(n, back, cc))
    ensures AllOk(s, back, ResultsAll(s, n, back, cc, xs), nc, lim - 1)
    decreases n, 1, |xs|
  {
    if xs != [] {
      Advances(s, n, back, cc, xs[0], nc);
      AdvancesAll(s, n, back, cc, xs[1..], nc, lim);
    }
  }

  lemma {:induction false} IterAllBelow(s: Subject, m: Node, back: bool, cc: nat, k: nat, x: State, ys: seq<State>,
                                        nc: nat, lim: int)
    requires AllOk(s, back, ys, nc, lim)
    ensures AllOk(s, back, IterAll(s, m, back, cc, Times(k), x, ys), nc, lim)
  {
    if ys != [] {
      IterOk(s, m, back, cc, Times(k), ys[0], nc);
      IterAllBelow(s, m, back, cc, k, x, ys[1..], nc, lim);
    }
  }

  /** A quantified atom is judged to advance only when it must run and advances itself. */
  lemma {:induction false} QuantAdvances(a: seq<Instr>, min: nat, max: Option<nat>, greedy: bool, reset: seq<Instr>)
    requires CheckAdvance(QuantCode(a, min, max, greedy, reset))
    requires min == 0 ==> reset == [] || (|reset| == 1 && NoEffect(reset[0]) && !IsCharOp(reset[0]))
    ensures min >= 1 && CheckAdvance(a)
  {
    var simple := SimpleCount(a);
    if greedy && max != Some(0) && simple.Some? && simple.value > 0 {
    } else if min == 0 {
      QuantOptional(a, max, greedy, reset);
    } else if min == 1 && max == None && !NeedsCheck(a, greedy) {
      var jump: Instr := if greedy then SplitGotoFirst(-(CodeSize(a) + 5)) else SplitNextFirst(-(CodeSize(a) + 5));
      CheckAdvanceAppend(a, [jump]);
    } else {
      var more := if max == None then StarCode(a, greedy)
                  else if max.value > min then UpToCode(a, max.value - min, greedy) else [];
      CheckAdvanceAppend(TimesCode(a, min), more);
      LoopsDoNotAdvance(a, if max == None then 0 else max.value - min, greedy);
      if min >= 2 {
        var tail := [Loop(-(CodeSize(a) + 5)), Drop];
        assert TimesCode(a, min) == [PushI32(min)] + (a + tail);
        CheckAdvanceAppend(a, tail);
      }
    }
  }

  lemma {:induction false} LoopsDoNotAdvance(a: seq<Instr>, k: int, greedy: bool)
    ensures !CheckAdvance(StarCode(a, greedy))
    ensures k >= 0 ==> !CheckAdvance(UpToCode(a, k, greedy))
  {
    assert StarCode(a, greedy)[0] == Split(greedy, CodeSize(a) + if NeedsCheck(a, greedy) then 6 else 5);
    if k >= 0 {
      assert UpToCode(a, k, greedy)[1..][0] == Split(greedy, CodeSize(a) + 5);
    }
  }

  lemma {:induction false} QuantOptional(a: seq<Instr>, max: Option<nat>, greedy: bool, reset: seq<Instr>)
    requires reset == [] || (|reset| == 1 && NoEffect(reset[0]) && !IsCharOp(reset[0]))
    ensures !CheckAdvance(reset) && !CheckAdvance(reset + ([Split(greedy, CodeSize(a))] + a))
    ensures !CheckAdvance(reset + StarCode(a, greedy))
    ensures max.Some? ==> !CheckAdvance(reset + UpToCode(a, max.value, greedy))
  {
    LoopsDoNotAdvance(a, if max.Some? then max.value else -1, greedy);
    SkipReset(reset, [Split(greedy, CodeSize(a))] + a);
    SkipReset(reset, StarCode(a, greedy));
    if max.Some? {
      SkipReset(reset, UpToCode(a, max.value, greedy));
    }
  }

  lemma {:induction false} SkipReset(reset: seq<Instr>, b: seq<Instr>)
    requires reset == [] || (|reset| == 1 && NoEffect(reset[0]) && !IsCharOp(reset[0]))
    requires !CheckAdvance(b)
    ensures !CheckAdvance(reset + b)
  {
    if reset == [] {
      assert reset + b == b;
    } else {
      assert (reset + b)[1..] == b;
    }
  }

  /** A pattern that cannot match the empty string leaves every result strictly further. */
  lemma {:induction false} NonEmptyMoves(s: Subject, n: Node, back: bool, cc: nat, x: State, nc: nat)
    requires StateOk(s, x, nc) && NonEmpty(n)
    ensures AllOk(s, back, Results(s, n, back, cc, x), nc, Remaining(s, back, x) - 1)
    decreases n, 0
  {
    hide Results, Compile, Iter, IterEach, IterAll, ResultsAll, SetAll, AllOk, StateOk, NodeOk, NumCaps, Remaining;
    var lim := Remaining(s, back, x) as int;
    match n
    case Atom(t) => AtomMoves(s, t, back, cc, x, nc);
    case Cat(l, r) =>
      CatUnfold(s, l, r, back, cc, x);
      var (p, q, cp, cq) := if back then (r, l, cc + NumCaps(l), cc) else (l, r, cc, cc + NumCaps(l));
      var ys := Results(s, p, back, cp, x);
      if NonEmpty(p) {
        NonEmptyMoves(s, p, back, cp, x, nc);
        ResultsAllOk(s, q, back, cq, ys, nc, lim - 1);
      } else {
        ResultsOk(s, p, back, cp, x, nc);
        NonEmptyAll(s, q, back, cq, ys, nc, lim);
      }
    case Alt(l, r) =>
      AltUnfold(s, l, r, back, cc, x);
      NonEmptyMoves(s, l, back, cc, x, nc);
      NonEmptyMoves(s, r, back, cc + NumCaps(l), x, nc);
      BothOk(s, back, Results(s, l, back, cc, x), Results(s, r, back, cc + NumCaps(l), x), nc, lim - 1);
    case Group(m) =>
      GroupUnfold(s, m, back, cc, x);
      var (i, j) := if back then (2 * cc + 1, 2 * cc) else (2 * cc, 2 * cc + 1);
      SetCapOk(s, back, x, i, nc);
      NonEmptyMoves(s, m, back, cc + 1, SetCap(x, i), nc);
      SetAllOk(s, back, Results(s, m, back, cc + 1, SetCap(x, i)), j, nc, lim - 1);
    case Quant(m, min, max, greedy) =>
      QuantUnfold(s, n, back, cc, x);
      NonEmptyMoves(s, m, back, cc, x, nc);
      TimesUnfold(s, m, back, cc, min, x);
      var first := Iter(s, m, back, cc, Times(min), x);
      IterAllBelow(s, m, back, cc, min - 1, x, Results(s, m, back, cc, x), nc, lim - 1);
      if max == None {
        IterEachOk(s, m, back, cc, Star(greedy), first, nc, lim - 1);
      } else if max.value >= min {
        IterEachOk(s, m, back, cc, UpTo(max.value - min, greedy), first, nc, lim - 1);
      } else {
        NoneOk(s, back, nc, lim - 1);
      }
  }

  lemma {:induction false} TimesUnfold(s: Subject, m: Node, back: bool, cc: nat, k: nat, x: State)
    requires k > 0
    ensures Iter(s, m, back, cc, Times(k), x) == IterAll(s, m, back, cc, Times(k - 1), x, Results(s, m, back, cc, x))
  {
    hide Results, IterAll;
  }

  lemma {:induction false} AtomMoves(s: Subject, t: Test, back: bool, cc: nat, x: State, nc: nat)
    requires StateOk(s, x, nc)
    ensures AllOk(s, back, Results(s, Atom(t), back, cc, x), nc, Remaining(s, back, x) - 1)
  {
    hide Results, Compile, TestCode, Accepts, GetChar;
    ResultsOk(s, Atom(t), back, cc, x, nc);
    AtomUnfold(s, t, back, cc, x);
  }

  lemma {:induction false} NonEmptyAll(s: Subject, n: Node, back: bool, cc: nat, xs: seq<State>, nc: nat, lim: int)
    requires AllOk(s, back, xs, nc, lim) && NonEmpty(n)
    ensures AllOk(s, back, ResultsAll(s, n, back, cc, xs), nc, lim - 1)
    decreases n, 1, |xs|
  {
    hide Results;
    if xs != [] {
      NonEmptyMoves(s, n, back, cc, xs[0], nc);
      NonEmptyAll(s, n, back, cc, xs[1..], nc, lim);
    }
  }

  /** An atom that makes progress leaves every result strictly further. */
  lemma {:induction false} ProgressMoves(s: Subject, m: Node, back: bool, cc: nat, x: State, nc: nat)
    requires StateOk(s, x, nc) && Progresses(m, back, cc)
    ensures AllOk(s, back, Results(s, m, back, cc, x), nc, Remaining(s, back, x) - 1)
  {
    hide StateOk, AllOk, Results, Compile, CheckAdvance, NonEmpty, Remaining;
    if CheckAdvance(Compile(m, back, cc)) {
      Advances(s, m, back, cc, x, nc);
    } else {
      NonEmptyMoves(s, m, back, cc, x, nc);
    }
  }
}
