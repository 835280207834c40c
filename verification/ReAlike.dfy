/** What a pattern matches does not depend on captures that it does not refer to. */
module ReAlike {
  import opened ReCode
  import opened ReSyntax
  import opened ReMatch
  import opened ReUnfold

  /** x and y differ at most in the captures of the groups from first up to last. */
  ghost predicate Alike(x: State, y: State, first: nat, last: nat) {
    x.pos == y.pos && |x.caps| == |y.caps| && forall i | 0 <= i < |x.caps| && !(2 * first <= i < 2 * last) :: x.caps[i] == y.caps[i]
  }

  ghost predicate AllAlike(xs: seq<State>, ys: seq<State>, first: nat, last: nat) {
    |xs| == |ys| && forall i | 0 <= i < |xs| :: Alike(xs[i], ys[i], first, last)
  }

  /** No back reference to a group from first up to last. */
  predicate RefersOutside(n: Node, first: nat, last: nat) {
    match n
    case BackReference(g) => !(first <= g < last)
    case Cat(l, r) => RefersOutside(l, first, last) && RefersOutside(r, first, last)
    case Alt(l, r) => RefersOutside(l, first, last) && RefersOutside(r, first, last)
    case Group(m) => RefersOutside(m, first, last)
    case Look(_, _, m) => RefersOutside(m, first, last)
    case Quant(m, _, _, _) => RefersOutside(m, first, last)
    case _ => true
  }

  lemma {:induction false} RefersNowhere(n: Node, first: nat)
    ensures RefersOutside(n, first, first)
  {
    match n
    case Cat(l, r) => RefersNowhere(l, first); RefersNowhere(r, first);
    case Alt(l, r) => RefersNowhere(l, first); RefersNowhere(r, first);
    case Group(m) => RefersNowhere(m, first);
    case Look(_, _, m) => RefersNowhere(m, first);
    case Quant(m, _, _, _) => RefersNowhere(m, first);
    case _ =>
  }

  lemma {:induction false} AlikeSame(x: State, y: State, first: nat)
    requires Alike(x, y, first, first)
    ensures x == y
  {
    assert x.caps == y.caps;
  }

  lemma {:induction false} AlikeRemaining(s: Subject, back: bool, x: State, y: State, first: nat, last: nat)
    requires Alike(x, y, first, last)
    ensures Remaining(s, back, x) == Remaining(s, back, y)
  {
  }

  lemma {:induction false} BothAlike(xs: seq<State>, ys: seq<State>, us: seq<State>, vs: seq<State>, first: nat, last: nat)
    requires AllAlike(xs, us, first, last) && AllAlike(ys, vs, first, last)
    ensures AllAlike(xs + ys, us + vs, first, last)
  {
    hide Alike;
  }

  lemma {:induction false} OneAlike(x: State, y: State, first: nat, last: nat)
    requires Alike(x, y, first, last)
    ensures AllAlike([x], [y], first, last) && AllAlike([], [], first, last)
  {
    hide Alike;
  }

  lemma {:induction false} SetAlike(x: State, y: State, i: nat, first: nat, last: nat)
    requires Alike(x, y, first, last)
    ensures Alike(SetCap(x, i), SetCap(y, i), first, last)
  {
  }

  lemma {:induction false} SetAllAlike(xs: seq<State>, ys: seq<State>, i: nat, first: nat, last: nat)
    requires AllAlike(xs, ys, first, last)
    ensures AllAlike(SetAll(xs, i), SetAll(ys, i), first, last)
  {
    hide Alike, SetCap;
    if xs != [] {
      SetAlike(xs[0], ys[0], i, first, last);
      SetAllAlike(xs[1..], ys[1..], i, first, last);
    }
  }

  lemma {:induction false} ResetAlike(m: Node, min: nat, cc: nat, x: State, y: State, first: nat, last: nat)
    requires Alike(x, y, first, last)
    ensures Alike(ResetAtom(m, min, cc, x), ResetAtom(m, min, cc, y), first, last)
  {
    hide NumCaps;
  }

  /** The results from states that are alike are alike, in the same order. */
  lemma {:induction false} ResultsAlike(s: Subject, n: Node, back: bool, cc: nat, x: State, y: State, first: nat, last: nat)
    requires Alike(x, y, first, last) && RefersOutside(n, first, last)
    ensures AllAlike(Results(s, n, back, cc, x), Results(s, n, back, cc, y), first, last)
    decreases n, 0, 0, 0, 0
  {
    hide Results, Compile, Iter, IterEach, ResultsAll, SetAll, NodeOk, NumCaps, SetCap, ResetAtom, Alike, AllAlike, CodeSize, QuantCode;
    match n
    case Cat(l, r) =>
      CatUnfold(s, l, r, back, cc, x);
      CatUnfold(s, l, r, back, cc, y);
      var (p, q, cp, cq) := if back then (r, l, cc + NumCaps(l), cc) else (l, r, cc, cc + NumCaps(l));
      ResultsAlike(s, p, back, cp, x, y, first, last);
      ResultsAllAlike(s, q, back, cq, Results(s, p, back, cp, x), Results(s, p, back, cp, y), first, last);
    case Alt(l, r) =>
      AltUnfold(s, l, r, back, cc, x);
      AltUnfold(s, l, r, back, cc, y);
      var cr := cc + NumCaps(l);
      ResultsAlike(s, l, back, cc, x, y, first, last);
      ResultsAlike(s, r, back, cr, x, y, first, last);
      BothAlike(Results(s, l, back, cc, x), Results(s, r, back, cr, x), Results(s, l, back, cc, y), Results(s, r, back, cr, y), first, last);
    case Group(m) =>
      GroupUnfold(s, m, back, cc, x);
      GroupUnfold(s, m, back, cc, y);
      var (i, j) := if back then (2 * cc + 1, 2 * cc) else (2 * cc, 2 * cc + 1);
      SetAlike(x, y, i, first, last);
      ResultsAlike(s, m, back, cc + 1, SetCap(x, i), SetCap(y, i), first, last);
      SetAllAlike(Results(s, m, back, cc + 1, SetCap(x, i)), Results(s, m, back, cc + 1, SetCap(y, i)), j, first, last);
    case Look(neg, b, m) =>
      LookUnfold(s, neg, b, m, back, cc, x);
      LookUnfold(s, neg, b, m, back, cc, y);
      ResultsAlike(s, m, b, cc, x, y, first, last);
      LookAlike(Results(s, m, b, cc, x), Results(s, m, b, cc, y), x, y, first, last);
    case Quant(m, min, max, greedy) =>
      QuantUnfold(s, n, back, cc, x);
      QuantUnfold(s, n, back, cc, y);
      var x0, y0 := ResetAtom(m, min, cc, x), ResetAtom(m, min, cc, y);
      ResetAlike(m, min, cc, x, y, first, last);
      IterAlike(s, m, back, cc, Times(min), x0, y0, first, last);
      var xs, ys := Iter(s, m, back, cc, Times(min), x0), Iter(s, m, back, cc, Times(min), y0);
      if max == None {
        IterEachAlike(s, m, back, cc, Star(greedy), xs, ys, first, last);
      } else if max.value >= min {
        IterEachAlike(s, m, back, cc, UpTo(max.value - min, greedy), xs, ys, first, last);
      } else {
        OneAlike(x, y, first, last);
      }
    case _ => LeafAlike(s, n, back, cc, x, y, first, last);
  }

  lemma {:induction false} LookAlike(xs: seq<State>, ys: seq<State>, x: State, y: State, first: nat, last: nat)
    requires AllAlike(xs, ys, first, last) && Alike(x, y, first, last)
    ensures AllAlike([x], [y], first, last) && AllAlike([], [], first, last)
    ensures |xs| == |ys| && (xs != [] ==> AllAlike([x.(caps := xs[0].caps)], [y.(caps := ys[0].caps)], first, last))
  {
  }

  lemma {:induction false} LeafAlike(s: Subject, n: Node, back: bool, cc: nat, x: State, y: State, first: nat, last: nat)
    requires Alike(x, y, first, last) && RefersOutside(n, first, last)
    requires n.Empty? || n.Atom? || IsAssertion(n) || n.BackReference?
    ensures AllAlike(Results(s, n, back, cc, x), Results(s, n, back, cc, y), first, last)
  {
    hide Accepts, GetChar, NextPos, PrevPos, AtLineStart, AtLineEnd, AtWordEdge, SameForward, SameBackward;
    if n.BackReference? {
      BackUnfold(s, n.group, back, cc, x);
      BackUnfold(s, n.group, back, cc, y);
      RefersAlike(s, n.group, back, x, y, first, last);
      hide Results;
    }
  }

  lemma {:induction false} RefersAlike(s: Subject, g: nat, back: bool, x: State, y: State, first: nat, last: nat)
    requires Alike(x, y, first, last) && !(first <= g < last)
    ensures RefersTo(s, g, back, x) == RefersTo(s, g, back, y)
  {
    hide SameForward, SameBackward;
    assert Captured(x.caps, g) == Captured(y.caps, g);
  }

  lemma {:induction false} ResultsAllAlike(s: Subject, n: Node, back: bool, cc: nat, xs: seq<State>, ys: seq<State>, first: nat, last: nat)
    requires AllAlike(xs, ys, first, last) && RefersOutside(n, first, last)
    ensures AllAlike(ResultsAll(s, n, back, cc, xs), ResultsAll(s, n, back, cc, ys), first, last)
    decreases n, 1, 0, 0, |xs|
  {
    hide Results, Alike, RefersOutside;
    if xs != [] {
      ResultsAlike(s, n, back, cc, xs[0], ys[0], first, last);
      ResultsAllAlike(s, n, back, cc, xs[1..], ys[1..], first, last);
      BothAlike(Results(s, n, back, cc, xs[0]), ResultsAll(s, n, back, cc, xs[1..]),
                Results(s, n, back, cc, ys[0]), ResultsAll(s, n, back, cc, ys[1..]), first, last);
    }
  }

  lemma {:induction false} IterAlike(s: Subject, m: Node, back: bool, cc: nat, rep: Rep, x: State, y: State, first: nat, last: nat)
    requires Alike(x, y, first, last) && RefersOutside(m, first, last)
    ensures AllAlike(Iter(s, m, back, cc, rep, x), Iter(s, m, back, cc, rep, y), first, last)
    decreases m, 1, RepMeasure(s, back, rep, x), if rep.Star? then 2 else 0, 0
  {
    hide Results, IterAll, Alike, AllAlike, RefersOutside;
    ResultsAlike(s, m, back, cc, x, y, first, last);
    OneAlike(x, y, first, last);
    if rep.Star? || rep.k > 0 {
      var rep' := match rep case Star(_) => rep case Times(k) => Times(k - 1) case UpTo(k, greedy) => UpTo(k - 1, greedy);
      var xs, ys := Results(s, m, back, cc, x), Results(s, m, back, cc, y);
      IterAllAlike(s, m, back, cc, rep', x, y, xs, ys, first, last);
      var us, vs := IterAll(s, m, back, cc, rep', x, xs), IterAll(s, m, back, cc, rep', y, ys);
      BothAlike(us, [x], vs, [y], first, last);
      BothAlike([x], us, [y], vs, first, last);
    }
  }

  lemma {:induction false} IterAllAlike(s: Subject, m: Node, back: bool, cc: nat, rep: Rep, x: State, y: State,
                                        xs: seq<State>, ys: seq<State>, first: nat, last: nat)
    requires Alike(x, y, first, last) && AllAlike(xs, ys, first, last) && RefersOutside(m, first, last)
    ensures AllAlike(IterAll(s, m, back, cc, rep, x, xs), IterAll(s, m, back, cc, rep, y, ys), first, last)
    decreases m, 1, RepMeasure(s, back, rep, x), 1, |xs|
  {
    hide Iter, Alike, RefersOutside, Remaining;
    if xs != [] {
      var u, v := xs[0], ys[0];
      AlikeRemaining(s, back, x, y, first, last);
      AlikeRemaining(s, back, u, v, first, last);
      IterAllAlike(s, m, back, cc, rep, x, y, xs[1..], ys[1..], first, last);
      var us, vs := IterAll(s, m, back, cc, rep, x, xs[1..]), IterAll(s, m, back, cc, rep, y, ys[1..]);
      if rep.Star? && Remaining(s, back, u) >= Remaining(s, back, x) {
        OneAlike(u, v, first, last);
        BothAlike([u], us, [v], vs, first, last);
      } else {
        IterAlike(s, m, back, cc, rep, u, v, first, last);
        BothAlike(Iter(s, m, back, cc, rep, u), us, Iter(s, m, back, cc, rep, v), vs, first, last);
      }
    }
  }

  lemma {:induction false} IterEachAlike(s: Subject, m: Node, back: bool, cc: nat, rep: Rep, xs: seq<State>, ys: seq<State>, first: nat, last: nat)
    requires AllAlike(xs, ys, first, last) && RefersOutside(m, first, last)
    ensures AllAlike(IterEach(s, m, back, cc, rep, xs), IterEach(s, m, back, cc, rep, ys), first, last)
    decreases m, 2, 0, 0, |xs|
  {
    hide Iter, Alike, RefersOutside;
    if xs != [] {
      IterAlike(s, m, back, cc, rep, xs[0], ys[0], first, last);
      IterEachAlike(s, m, back, cc, rep, xs[1..], ys[1..], first, last);
      BothAlike(Iter(s, m, back, cc, rep, xs[0]), IterEach(s, m, back, cc, rep, xs[1..]),
                Iter(s, m, back, cc, rep, ys[0]), IterEach(s, m, back, cc, rep, ys[1..]), first, last);
    }
  }

  /** All of xs have the captures of x, except for the groups from first up to last. */
  ghost predicate Within(xs: seq<State>, x: State, first: nat, last: nat) {
    forall y | y in xs :: Alike(x.(pos := y.pos), y, first, last)
  }

  lemma {:induction false} WithinTrans(ys: seq<State>, x: State, y: State, first: nat, last: nat)
    requires Alike(x.(pos := y.pos), y, first, last) && Within(ys, y, first, last)
    ensures Within(ys, x, first, last)
  {
  }

  lemma {:induction false} WithinWider(ys: seq<State>, x: State, first: nat, last: nat, first': nat, last': nat)
    requires Within(ys, x, first, last) && first' <= first && last <= last'
    ensures Within(ys, x, first', last')
  {
    forall y | y in ys
      ensures Alike(x.(pos := y.pos), y, first', last')
    {
      assert Alike(x.(pos := y.pos), y, first, last);
    }
  }

  lemma {:induction false} WithinBoth(xs: seq<State>, ys: seq<State>, x: State, first: nat, last: nat)
    requires Within(xs, x, first, last) && Within(ys, x, first, last)
    ensures Within(xs + ys, x, first, last)
  {
    hide Alike;
  }

  lemma {:induction false} WithinOne(x: State, first: nat, last: nat)
    ensures Within([x], x, first, last) && Within([], x, first, last)
  {
  }

  lemma {:induction false} WithinSet(xs: seq<State>, x: State, i: nat, first: nat, last: nat)
    requires Within(xs, x, first, last) && 2 * first <= i < 2 * last
    ensures Within(SetAll(xs, i), x, first, last)
  {
    if xs != [] {
      assert xs[0] in xs;
      assert Alike(x.(pos := xs[0].pos), SetCap(xs[0], i), first, last);
      WithinSet(xs[1..], x, i, first, last);
    }
  }

  /** A pattern changes the captures of its own groups only. */
  lemma {:induction false} ResultsWithin(s: Subject, n: Node, back: bool, cc: nat, x: State)
    ensures Within(Results(s, n, back, cc, x), x, cc, cc + NumCaps(n))
    decreases n, 0, 0, 0, 0
  {
    hide Results, Compile, Iter, IterEach, ResultsAll, SetAll, NodeOk, SetCap, ResetAtom, Alike, Within, CodeSize, QuantCode, NumCaps;
    CapsAre(n);
    match n
    case Cat(l, r) =>
      CatUnfold(s, l, r, back, cc, x);
      var (p, q, cp, cq) := if back then (r, l, cc + NumCaps(l), cc) else (l, r, cc, cc + NumCaps(l));
      ResultsWithin(s, p, back, cp, x);
      WithinWider(Results(s, p, back, cp, x), x, cp, cp + NumCaps(p), cc, cc + NumCaps(n));
      ResultsAllWithin(s, q, back, cq, Results(s, p, back, cp, x), x, cc, cc + NumCaps(n));
    case Alt(l, r) =>
      AltUnfold(s, l, r, back, cc, x);
      var cr := cc + NumCaps(l);
      ResultsWithin(s, l, back, cc, x);
      ResultsWithin(s, r, back, cr, x);
      WithinWider(Results(s, l, back, cc, x), x, cc, cc + NumCaps(l), cc, cc + NumCaps(n));
      WithinWider(Results(s, r, back, cr, x), x, cr, cr + NumCaps(r), cc, cc + NumCaps(n));
      WithinBoth(Results(s, l, back, cc, x), Results(s, r, back, cr, x), x, cc, cc + NumCaps(n));
    case Group(m) =>
      GroupUnfold(s, m, back, cc, x);
      var (i, j) := if back then (2 * cc + 1, 2 * cc) else (2 * cc, 2 * cc + 1);
      var x1 := SetCap(x, i);
      ResultsWithin(s, m, back, cc + 1, x1);
      WithinWider(Results(s, m, back, cc + 1, x1), x1, cc + 1, cc + 1 + NumCaps(m), cc, cc + NumCaps(n));
      SetWithin(x, i, cc, cc + NumCaps(n));
      WithinTrans(Results(s, m, back, cc + 1, x1), x, x1, cc, cc + NumCaps(n));
      WithinSet(Results(s, m, back, cc + 1, x1), x, j, cc, cc + NumCaps(n));
    case Look(neg, b, m) =>
      LookUnfold(s, neg, b, m, back, cc, x);
      ResultsWithin(s, m, b, cc, x);
      LookWithin(Results(s, m, b, cc, x), x, cc, cc + NumCaps(n));
    case Quant(m, min, max, greedy) =>
      QuantUnfold(s, n, back, cc, x);
      var x0, last := ResetAtom(m, min, cc, x), cc + NumCaps(n);
      IterWithin(s, m, back, cc, Times(min), x0);
      ResetWithin(m, min, cc, x);
      var first := Iter(s, m, back, cc, Times(min), x0);
      WithinTrans(first, x, x0, cc, last);
      WithinOne(x, cc, last);
      if max == None {
        IterEachWithin(s, m, back, cc, Star(greedy), first, x);
      } else if max.value >= min {
        IterEachWithin(s, m, back, cc, UpTo(max.value - min, greedy), first, x);
      }
    case _ => LeafWithin(s, n, back, cc, x);
  }

  lemma {:induction false} CapsAre(n: Node)
    ensures n.Cat? || n.Alt? ==> NumCaps(n) == NumCaps(n.l) + NumCaps(n.r)
    ensures n.Look? ==> NumCaps(n) == NumCaps(n.n)
  {
  }

  lemma {:induction false} SetWithin(x: State, i: nat, first: nat, last: nat)
    requires 2 * first <= i < 2 * last
    ensures Alike(x.(pos := SetCap(x, i).pos), SetCap(x, i), first, last)
  {
  }

  lemma {:induction false} ResetWithin(m: Node, min: nat, cc: nat, x: State)
    ensures var x0 := ResetAtom(m, min, cc, x); Alike(x.(pos := x0.pos), x0, cc, cc + NumCaps(m))
  {
    hide NumCaps;
  }

  lemma {:induction false} LookWithin(rs: seq<State>, x: State, first: nat, last: nat)
    requires Within(rs, x, first, last)
    ensures Within([x], x, first, last) && Within([], x, first, last)
    ensures rs != [] ==> Within([x.(caps := rs[0].caps)], x, first, last)
  {
    if rs != [] {
      assert rs[0] in rs;
    }
  }

  lemma {:induction false} LeafWithin(s: Subject, n: Node, back: bool, cc: nat, x: State)
    requires n.Empty? || n.Atom? || IsAssertion(n) || n.BackReference?
    ensures Within(Results(s, n, back, cc, x), x, cc, cc + NumCaps(n))
  {
    hide Accepts, GetChar, NextPos, PrevPos, AtLineStart, AtLineEnd, AtWordEdge, RefersTo;
  }

  lemma {:induction false} ResultsAllWithin(s: Subject, n: Node, back: bool, cc: nat, xs: seq<State>, x: State, first: nat, last: nat)
    requires Within(xs, x, first, last) && first <= cc && cc + NumCaps(n) <= last
    ensures Within(ResultsAll(s, n, back, cc, xs), x, first, last)
    decreases n, 1, 0, 0, |xs|
  {
    hide Results, Alike, NumCaps;
    if xs != [] {
      var y := xs[0];
      assert y in xs;
      ResultsWithin(s, n, back, cc, y);
      WithinWider(Results(s, n, back, cc, y), y, cc, cc + NumCaps(n), first, last);
      WithinTrans(Results(s, n, back, cc, y), x, y, first, last);
      ResultsAllWithin(s, n, back, cc, xs[1..], x, first, last);
    }
  }

  lemma {:induction false} IterWithin(s: Subject, m: Node, back: bool, cc: nat, rep: Rep, x: State)
    ensures Within(Iter(s, m, back, cc, rep, x), x, cc, cc + NumCaps(m))
    decreases m, 1, RepMeasure(s, back, rep, x), if rep.Star? then 2 else 0, 0
  {
    hide Results, IterAll, Alike, Within, NumCaps;
    ResultsWithin(s, m, back, cc, x);
    WithinOne(x, cc, cc + NumCaps(m));
    if rep.Star? || rep.k > 0 {
      var rep' := match rep case Star(_) => rep case Times(k) => Times(k - 1) case UpTo(k, greedy) => UpTo(k - 1, greedy);
      var ys := Results(s, m, back, cc, x);
      IterAllWithin(s, m, back, cc, rep', x, ys);
      var more := IterAll(s, m, back, cc, rep', x, ys);
      WithinBoth(more, [x], x, cc, cc + NumCaps(m));
      WithinBoth([x], more, x, cc, cc + NumCaps(m));
    }
  }

  lemma {:induction false} IterAllWithin(s: Subject, m: Node, back: bool, cc: nat, rep: Rep, x: State, ys: seq<State>)
    requires Within(ys, x, cc, cc + NumCaps(m))
    ensures Within(IterAll(s, m, back, cc, rep, x, ys), x, cc, cc + NumCaps(m))
    decreases m, 1, RepMeasure(s, back, rep, x), 1, |ys|
  {
    hide Iter, Alike, NumCaps, Remaining;
    if ys != [] {
      var y := ys[0];
      assert y in ys;
      IterAllWithin(s, m, back, cc, rep, x, ys[1..]);
      if !(rep.Star? && Remaining(s, back, y) >= Remaining(s, back, x)) {
        IterWithin(s, m, back, cc, rep, y);
        WithinTrans(Iter(s, m, back, cc, rep, y), x, y, cc, cc + NumCaps(m));
      }
    }
  }

  lemma {:induction false} IterEachWithin(s: Subject, m: Node, back: bool, cc: nat, rep: Rep, xs: seq<State>, x: State)
    requires Within(xs, x, cc, cc + NumCaps(m))
    ensures Within(IterEach(s, m, back, cc, rep, xs), x, cc, cc + NumCaps(m))
    decreases m, 2, 0, 0, |xs|
  {
    hide Iter, Alike, NumCaps;
    if xs != [] {
      var y := xs[0];
      assert y in xs;
      IterWithin(s, m, back, cc, rep, y);
      WithinTrans(Iter(s, m, back, cc, rep, y), x, y, cc, cc + NumCaps(m));
      IterEachWithin(s, m, back, cc, rep, xs[1..], x);
    }
  }

  /** A group records where it begins and ends, whatever the groups inside it record. */
  lemma {:induction false} GroupRecords(s: Subject, m: Node, back: bool, cc: nat, x: State, y: State)
    requires y in Results(s, Group(m), back, cc, x) && 2 * cc + 1 < |x.caps|
    ensures |y.caps| == |x.caps|
    ensures var (start, end) := if back then (y.pos, x.pos) else (x.pos, y.pos);
            y.caps[2 * cc] == Some(start) && y.caps[2 * cc + 1] == Some(end)
  {
    hide Results, SetAll, Compile, NodeOk;
    GroupUnfold(s, m, back, cc, x);
    var (i, j) := if back then (2 * cc + 1, 2 * cc) else (2 * cc, 2 * cc + 1);
    var w := SetFrom(Results(s, m, back, cc + 1, SetCap(x, i)), j, y);
    ResultsWithin(s, m, back, cc + 1, SetCap(x, i));
    assert Alike(SetCap(x, i).(pos := w.pos), w, cc + 1, cc + 1 + NumCaps(m));
  }

  lemma {:induction false} SetFrom(xs: seq<State>, i: nat, y: State) returns (w: State)
    requires y in SetAll(xs, i)
    ensures w in xs && y == SetCap(w, i)
  {
    if y == SetCap(xs[0], i) {
      w := xs[0];
    } else {
      w := SetFrom(xs[1..], i, y);
    }
  }
}
