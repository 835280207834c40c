/**
The reference matcher of section 21.2.2 of ECMA-262, as lists of results in order of
preference, and exactly when the compiled loops agree with it.
*/
module ReEcma {
  import opened ReCode
  import opened ReSyntax
  import opened ReMatch
  import opened ReUnfold
  import opened ReLaws
  import opened ReAlike
  import opened ReVm
  import opened ReRun
  import opened ReCorrect
  import opened ReMain
  import opened ReQuant
  import opened ReProgram

  /** The captures inside the atom are undefined at the start of every iteration. */
  function Clear(m: Node, cc: nat, x: State): State {
    if NumCaps(m) > 0 then ResetCaps(x, cc, cc + NumCaps(m) - 1) else x
  }

  function LessOne(max: Option<nat>): Option<nat> {
    if max.Some? && max.value > 0 then Some(max.value - 1) else max
  }

  /** Like Results, except that quantifiers follow RepeatMatcher. */
  function Ecma(s: Subject, n: Node, back: bool, cc: nat, x: State): seq<State>
    decreases n, 0, 0, 0, 0, 0
  {
    match n
    case Cat(l, r) =>
      if back then EcmaAll(s, l, back, cc, Ecma(s, r, back, cc + NumCaps(l), x))
      else EcmaAll(s, r, back, cc + NumCaps(l), Ecma(s, l, back, cc, x))
    case Alt(l, r) => Ecma(s, l, back, cc, x) + Ecma(s, r, back, cc + NumCaps(l), x)
    case Group(m) =>
      if back then SetAll(Ecma(s, m, back, cc + 1, SetCap(x, 2 * cc + 1)), 2 * cc)
      else SetAll(Ecma(s, m, back, cc + 1, SetCap(x, 2 * cc)), 2 * cc + 1)
    case Look(neg, b, m) =>
      var rs := Ecma(s, m, b, cc, x);
      if neg then (if rs == [] then [x] else [])
      else if rs == [] then [] else [x.(caps := rs[0].caps)]
    case Quant(m, min, max, greedy) => Repeat(s, m, back, cc, min, max, greedy, x)
    case _ => Results(s, n, back, cc, x)
  }

  function EcmaAll(s: Subject, n: Node, back: bool, cc: nat, xs: seq<State>): seq<State>
    decreases n, 1, 0, 0, 0, |xs|
  {
    if xs == [] then [] else Ecma(s, n, back, cc, xs[0]) + EcmaAll(s, n, back, cc, xs[1..])
  }

  /** RepeatMatcher: at least min and at most max iterations. */
  function Repeat(s: Subject, m: Node, back: bool, cc: nat, min: nat, max: Option<nat>, greedy: bool, x: State): seq<State>
    decreases m, 1, min, Remaining(s, back, x), 1, 0
  {
    if max == Some(0) then [x]
    else
      var more := RepeatAll(s, m, back, cc, min, max, greedy, x, Ecma(s, m, back, cc, Clear(m, cc, x)));
      if min > 0 then more else if greedy then more + [x] else [x] + more
  }

  /** Optional iterations that do not move fail. */
  function RepeatAll(s: Subject, m: Node, back: bool, cc: nat, min: nat, max: Option<nat>, greedy: bool, x: State,
                     ys: seq<State>): seq<State>
    decreases m, 1, min, Remaining(s, back, x), 0, |ys|
  {
    if ys == [] then []
    else
      (if min > 0 then Repeat(s, m, back, cc, min - 1, LessOne(max), greedy, ys[0])
       else if Remaining(s, back, ys[0]) >= Remaining(s, back, x) then []
       else Repeat(s, m, back, cc, 0, LessOne(max), greedy, ys[0]))
      + RepeatAll(s, m, back, cc, min, max, greedy, x, ys[1..])
  }

  /** Quantified atoms have no groups and cannot match the empty string. */
  predicate Plain(n: Node) {
    match n
    case Cat(l, r) => Plain(l) && Plain(r)
    case Alt(l, r) => Plain(l) && Plain(r)
    case Group(m) => Plain(m)
    case Look(_, _, m) => Plain(m)
    case Quant(m, min, max, _) => Plain(m) && NumCaps(m) == 0 && NonEmpty(m) && (max.Some? ==> min <= max.value)
    case _ => true
  }

  /** One iteration from x to y that does not move. */
  predicate Stalls(s: Subject, back: bool, x: State, y: State) {
    Remaining(s, back, y) >= Remaining(s, back, x)
  }

  function Less(min: nat): nat {
    if min == 0 then 0 else min - 1
  }

  function LoopMeasure(s: Subject, back: bool, max: Option<nat>, x: State): nat {
    if max.Some? then max.value else Remaining(s, back, x)
  }

  /**
  The loops of the code, one iteration at a time like RepeatMatcher: captures are not cleared, and
  an iteration that does not move is a result, the last one if the loop is unbounded.
  */
  ghost function Loops(s: Subject, m: Node, back: bool, cc: nat, min: nat, max: Option<nat>, greedy: bool, x: State): seq<State>
    decreases min, LoopMeasure(s, back, max, x), 1, 0
  {
    if max == Some(0) then [x]
    else
      var more := LoopsAll(s, m, back, cc, min, max, greedy, x, Results(s, m, back, cc, x));
      if min > 0 then more else if greedy then more + [x] else [x] + more
  }

  ghost function LoopsAll(s: Subject, m: Node, back: bool, cc: nat, min: nat, max: Option<nat>, greedy: bool, x: State,
                          ys: seq<State>): seq<State>
    requires max != Some(0)
    decreases min, LoopMeasure(s, back, max, x), 0, |ys|
  {
    if ys == [] then []
    else
      (if min == 0 && max == None && Stalls(s, back, x, ys[0]) then [ys[0]]
       else Loops(s, m, back, cc, Less(min), LessOne(max), greedy, ys[0]))
      + LoopsAll(s, m, back, cc, min, max, greedy, x, ys[1..])
  }

  lemma {:induction false} LoopsAre(s: Subject, m: Node, back: bool, cc: nat, min: nat, max: Option<nat>, greedy: bool, x: State)
    requires max.Some? ==> min <= max.value
    ensures Loops(s, m, back, cc, min, max, greedy, x) ==
            IterEach(s, m, back, cc, Optional(min, max, greedy), Iter(s, m, back, cc, Times(min), x))
    decreases min, LoopMeasure(s, back, max, x), 1, 0
  {
    hide Results, IterAll, IterEach, LoopsAll, Remaining;
    if min == 0 {
      EachOnce(s, m, back, cc, Optional(min, max, greedy), x);
    }
    if max != Some(0) {
      LoopsAllAre(s, m, back, cc, min, max, greedy, x, Results(s, m, back, cc, x));
    }
  }

  lemma {:induction false} LoopsAllAre(s: Subject, m: Node, back: bool, cc: nat, min: nat, max: Option<nat>, greedy: bool,
                                       x: State, ys: seq<State>)
    requires (max.Some? ==> min <= max.value) && max != Some(0)
    ensures LoopsAll(s, m, back, cc, min, max, greedy, x, ys) ==
            if min > 0 then IterEach(s, m, back, cc, Optional(min, max, greedy), IterAll(s, m, back, cc, Times(min - 1), x, ys))
            else IterAll(s, m, back, cc, Optional(0, LessOne(max), greedy), x, ys)
    decreases min, LoopMeasure(s, back, max, x), 0, |ys|
  {
    hide Loops, Iter, IterEach, Remaining;
    if ys == [] {
      EachNone(s, m, back, cc, Optional(min, max, greedy));
    } else {
      var y := ys[0];
      LoopsAllAre(s, m, back, cc, min, max, greedy, x, ys[1..]);
      if min > 0 {
        LoopsAre(s, m, back, cc, min - 1, LessOne(max), greedy, y);
        EachAppend(s, m, back, cc, Optional(min, max, greedy), Iter(s, m, back, cc, Times(min - 1), y),
                   IterAll(s, m, back, cc, Times(min - 1), x, ys[1..]));
      } else if max.Some? || !Stalls(s, back, x, y) {
        LoopsAre(s, m, back, cc, 0, LessOne(max), greedy, y);
        EachOnce(s, m, back, cc, Optional(0, LessOne(max), greedy), y);
      }
    }
  }

  lemma {:induction false} EachNone(s: Subject, m: Node, back: bool, cc: nat, rep: Rep)
    ensures IterEach(s, m, back, cc, rep, []) == []
  {
  }

  lemma {:induction false} EachAppend(s: Subject, m: Node, back: bool, cc: nat, rep: Rep, xs: seq<State>, ys: seq<State>)
    ensures IterEach(s, m, back, cc, rep, xs + ys) == IterEach(s, m, back, cc, rep, xs) + IterEach(s, m, back, cc, rep, ys)
    decreases |xs|
  {
    hide Iter;
    if xs == [] {
      assert xs + ys == ys;
    } else {
      assert (xs + ys)[1..] == xs[1..] + ys;
      EachAppend(s, m, back, cc, rep, xs[1..], ys);
    }
  }

  /** An iteration from x gives the same when the captures of the atom are cleared first. */
  ghost predicate Keeps(s: Subject, m: Node, back: bool, cc: nat, x: State) {
    Results(s, m, back, cc, x) == Results(s, m, back, cc, Clear(m, cc, x))
  }

  /**
  Of the iterations reached from x, every optional one moves, and the optional ones and the last
  mandatory one give the same when the captures of the atom are cleared first.
  */
  ghost predicate Faithful(s: Subject, m: Node, back: bool, cc: nat, min: nat, max: Option<nat>, x: State)
    decreases min, LoopMeasure(s, back, max, x)
  {
    max == Some(0) ||
    ((min <= 1 ==> Keeps(s, m, back, cc, x)) &&
     forall y | y in Results(s, m, back, cc, x) ::
       (min > 0 || !Stalls(s, back, x, y)) && Faithful(s, m, back, cc, Less(min), LessOne(max), y))
  }

  /** At every iteration reached from x, RepeatMatcher's results for the atom are those of the code. */
  ghost predicate AtomAgrees(s: Subject, m: Node, back: bool, cc: nat, min: nat, max: Option<nat>, x: State)
    decreases min, LoopMeasure(s, back, max, x)
  {
    max == Some(0) ||
    (Ecma(s, m, back, cc, Clear(m, cc, x)) == Results(s, m, back, cc, Clear(m, cc, x)) &&
     forall y | y in Results(s, m, back, cc, x) && (min > 0 || max.Some? || !Stalls(s, back, x, y)) ::
       AtomAgrees(s, m, back, cc, Less(min), LessOne(max), y))
  }

  /** What is known of a quantified atom when its loop from x is compared with RepeatMatcher. */
  ghost predicate Comparable(s: Subject, m: Node, back: bool, cc: nat, min: nat, max: Option<nat>, x: State) {
    RefersOutside(m, cc, cc + NumCaps(m)) && AtomAgrees(s, m, back, cc, min, max, x)
  }

  /** The same of all the iterations to ys. */
  ghost predicate AllComparable(s: Subject, m: Node, back: bool, cc: nat, min: nat, max: Option<nat>, x: State, ys: seq<State>) {
    forall y | y in ys && (min > 0 || max.Some? || !Stalls(s, back, x, y)) ::
      Comparable(s, m, back, cc, Less(min), LessOne(max), y)
  }

  /** The iterations from two states that differ only in the captures of the atom, one of them with these cleared. */
  lemma {:induction false} Iterated(s: Subject, m: Node, back: bool, cc: nat, min: nat, max: Option<nat>, x: State, x': State, nc: nat)
    requires StateOk(s, x, nc) && StateOk(s, x', nc) && Alike(x, x', cc, cc + NumCaps(m))
    requires Comparable(s, m, back, cc, min, max, x) && max != Some(0)
    ensures Clear(m, cc, x') == Clear(m, cc, x) && StateOk(s, Clear(m, cc, x), nc)
    ensures Ecma(s, m, back, cc, Clear(m, cc, x')) == Results(s, m, back, cc, Clear(m, cc, x))
    ensures AllAlike(Results(s, m, back, cc, x), Results(s, m, back, cc, Clear(m, cc, x)), cc, cc + NumCaps(m))
    ensures AllOk(s, back, Results(s, m, back, cc, x), nc, Remaining(s, back, x))
    ensures AllOk(s, back, Results(s, m, back, cc, Clear(m, cc, x)), nc, Remaining(s, back, x))
    ensures AllComparable(s, m, back, cc, min, max, x, Results(s, m, back, cc, x))
  {
    hide Results, Ecma, NumCaps, AllOk, AllAlike, RefersOutside, Remaining;
    var c := Clear(m, cc, x);
    ClearOk(s, back, m, cc, x, nc);
    ClearAlike(m, cc, x, x');
    ResultsAlike(s, m, back, cc, x, c, cc, cc + NumCaps(m));
    ResultsOk(s, m, back, cc, x, nc);
    ResultsOk(s, m, back, cc, c, nc);
  }

  lemma {:induction false} ClearOk(s: Subject, back: bool, m: Node, cc: nat, x: State, nc: nat)
    requires StateOk(s, x, nc)
    ensures StateOk(s, Clear(m, cc, x), nc) && Remaining(s, back, Clear(m, cc, x)) == Remaining(s, back, x)
  {
    hide NumCaps;
    ResetOk(s, back, m, 0, cc, x, nc);
  }

  lemma {:induction false} ClearAlike(m: Node, cc: nat, x: State, x': State)
    requires Alike(x, x', cc, cc + NumCaps(m))
    ensures Clear(m, cc, x') == Clear(m, cc, x) && Alike(x, Clear(m, cc, x), cc, cc + NumCaps(m))
  {
    hide NumCaps;
    if NumCaps(m) == 0 {
      AlikeSame(x, x', cc);
    } else {
      assert Clear(m, cc, x').caps == Clear(m, cc, x).caps;
    }
  }

  /** RepeatMatcher never has more results than the code. */
  lemma {:induction false} Shorter(s: Subject, m: Node, back: bool, cc: nat, min: nat, max: Option<nat>, greedy: bool,
                                   x: State, x': State, nc: nat)
    requires StateOk(s, x, nc) && StateOk(s, x', nc) && Alike(x, x', cc, cc + NumCaps(m))
    requires Comparable(s, m, back, cc, min, max, x) && (max.Some? ==> min <= max.value)
    ensures |Repeat(s, m, back, cc, min, max, greedy, x')| <= |Loops(s, m, back, cc, min, max, greedy, x)|
    ensures min == 0 ==> |Loops(s, m, back, cc, min, max, greedy, x)| >= 1
    decreases min, LoopMeasure(s, back, max, x), 1, 0
  {
    hide Results, Ecma, RepeatAll, LoopsAll, Remaining, StateOk, AllOk, AllAlike, Alike, Comparable, NumCaps, Clear;
    if max != Some(0) {
      Iterated(s, m, back, cc, min, max, x, x', nc);
      AlikeRemaining(s, back, x, x', cc, cc + NumCaps(m));
      ShorterAll(s, m, back, cc, min, max, greedy, x, x', Results(s, m, back, cc, x), Results(s, m, back, cc, Clear(m, cc, x)), nc);
    }
  }

  lemma {:induction false} ShorterAll(s: Subject, m: Node, back: bool, cc: nat, min: nat, max: Option<nat>, greedy: bool,
                                      x: State, x': State, ys: seq<State>, ys': seq<State>, nc: nat)
    requires max != Some(0) && (max.Some? ==> min <= max.value) && Remaining(s, back, x) == Remaining(s, back, x')
    requires AllComparable(s, m, back, cc, min, max, x, ys)
    requires AllAlike(ys, ys', cc, cc + NumCaps(m))
    requires AllOk(s, back, ys, nc, Remaining(s, back, x)) && AllOk(s, back, ys', nc, Remaining(s, back, x))
    ensures |RepeatAll(s, m, back, cc, min, max, greedy, x', ys')| <= |LoopsAll(s, m, back, cc, min, max, greedy, x, ys)|
    decreases min, LoopMeasure(s, back, max, x), 0, |ys|
  {
    hide Repeat, Loops, Remaining, StateOk, Comparable, NumCaps, Alike;
    if ys != [] {
      var y, y' := ys[0], ys'[0];
      assert y in ys && y' in ys';
      AlikeRemaining(s, back, y, y', cc, cc + NumCaps(m));
      ShorterAll(s, m, back, cc, min, max, greedy, x, x', ys[1..], ys'[1..], nc);
      if !(min == 0 && max == None && Stalls(s, back, x, y)) {
        Shorter(s, m, back, cc, Less(min), LessOne(max), greedy, y, y', nc);
      }
    }
  }

  /** The code and RepeatMatcher agree exactly when the iterations are faithful. */
  lemma {:induction false} Exact(s: Subject, m: Node, back: bool, cc: nat, min: nat, max: Option<nat>, greedy: bool,
                                 x: State, x': State, nc: nat)
    requires StateOk(s, x, nc) && StateOk(s, x', nc) && Alike(x, x', cc, cc + NumCaps(m))
    requires Comparable(s, m, back, cc, min, max, x) && (max.Some? ==> min <= max.value)
    ensures Loops(s, m, back, cc, min, max, greedy, x) == Repeat(s, m, back, cc, min, max, greedy, x') <==>
            (min == 0 ==> x == x') && Faithful(s, m, back, cc, min, max, x)
    decreases min, LoopMeasure(s, back, max, x), 1, 0
  {
    hide Results, Ecma, RepeatAll, LoopsAll, Remaining, StateOk, AllOk, Alike, Comparable, NumCaps, Clear;
    if max != Some(0) {
      var ys, ys' := Results(s, m, back, cc, x), Results(s, m, back, cc, Clear(m, cc, x));
      Iterated(s, m, back, cc, min, max, x, x', nc);
      AlikeRemaining(s, back, x, x', cc, cc + NumCaps(m));
      ShorterAll(s, m, back, cc, min, max, greedy, x, x', ys, ys', nc);
      ExactAll(s, m, back, cc, min, max, greedy, x, x', ys, ys', nc);
      var more, more' := LoopsAll(s, m, back, cc, min, max, greedy, x, ys), RepeatAll(s, m, back, cc, min, max, greedy, x', ys');
      AddedOne(more, more', x, x', greedy);
      FaithfulIs(s, m, back, cc, min, max, x, ys, ys');
    }
  }

  lemma {:induction false} AddedOne(xs: seq<State>, ys: seq<State>, x: State, y: State, greedy: bool)
    requires |ys| <= |xs|
    ensures (if greedy then xs + [x] else [x] + xs) == (if greedy then ys + [y] else [y] + ys) <==> x == y && xs == ys
  {
    var a, b := if greedy then xs + [x] else [x] + xs, if greedy then ys + [y] else [y] + ys;
    if a == b {
      assert |a| == |xs| + 1 && |b| == |ys| + 1;
      if greedy {
        assert a[..|xs|] == xs && b[..|xs|] == ys && a[|xs|] == x && b[|xs|] == y;
      } else {
        assert a[1..] == xs && b[1..] == ys && a[0] == x && b[0] == y;
      }
    }
  }

  /** What an iteration to y, or to y' with the captures cleared, contributes to being faithful. */
  ghost predicate FaithfulTo(s: Subject, m: Node, back: bool, cc: nat, min: nat, max: Option<nat>, x: State, y: State, y': State) {
    (min > 0 || !Stalls(s, back, x, y)) && (min <= 1 ==> y == y') &&
    Faithful(s, m, back, cc, Less(min), LessOne(max), y)
  }

  lemma {:induction false} FaithfulIs(s: Subject, m: Node, back: bool, cc: nat, min: nat, max: Option<nat>, x: State,
                                      ys: seq<State>, ys': seq<State>)
    requires max != Some(0) && |ys| == |ys'| && ys == Results(s, m, back, cc, x) && ys' == Results(s, m, back, cc, Clear(m, cc, x))
    requires max.Some? ==> min <= max.value
    ensures (forall i | 0 <= i < |ys| :: FaithfulTo(s, m, back, cc, min, max, x, ys[i], ys'[i])) <==> Faithful(s, m, back, cc, min, max, x)
  {
    hide Results, Remaining, Clear;
  }

  /** Blocks of results, none of RepeatMatcher's longer than the code's: the lists are equal when the blocks are. */
  lemma {:induction false} ExactAll(s: Subject, m: Node, back: bool, cc: nat, min: nat, max: Option<nat>, greedy: bool,
                                    x: State, x': State, ys: seq<State>, ys': seq<State>, nc: nat)
    requires max != Some(0) && (max.Some? ==> min <= max.value) && Remaining(s, back, x) == Remaining(s, back, x')
    requires AllComparable(s, m, back, cc, min, max, x, ys)
    requires AllAlike(ys, ys', cc, cc + NumCaps(m))
    requires AllOk(s, back, ys, nc, Remaining(s, back, x)) && AllOk(s, back, ys', nc, Remaining(s, back, x))
    ensures LoopsAll(s, m, back, cc, min, max, greedy, x, ys) == RepeatAll(s, m, back, cc, min, max, greedy, x', ys') <==>
            forall i | 0 <= i < |ys| :: FaithfulTo(s, m, back, cc, min, max, x, ys[i], ys'[i])
    decreases min, LoopMeasure(s, back, max, x), 0, |ys|
  {
    hide Repeat, Loops, Remaining, StateOk, Comparable, NumCaps, Alike, FaithfulTo;
    if ys != [] {
      var y, y' := ys[0], ys'[0];
      assert y in ys && y' in ys';
      AlikeRemaining(s, back, y, y', cc, cc + NumCaps(m));
      ExactAll(s, m, back, cc, min, max, greedy, x, x', ys[1..], ys'[1..], nc);
      ShorterAll(s, m, back, cc, min, max, greedy, x, x', ys[1..], ys'[1..], nc);
      var rest, rest' := LoopsAll(s, m, back, cc, min, max, greedy, x, ys[1..]), RepeatAll(s, m, back, cc, min, max, greedy, x', ys'[1..]);
      var p, k := Less(min), LessOne(max);
      var block := if min == 0 && max == None && Stalls(s, back, x, y) then [y] else Loops(s, m, back, cc, p, k, greedy, y);
      var block' := if min == 0 && Stalls(s, back, x, y) then [] else Repeat(s, m, back, cc, p, k, greedy, y');
      if !(min == 0 && max == None && Stalls(s, back, x, y)) {
        Shorter(s, m, back, cc, p, k, greedy, y, y', nc);
      }
      if min > 0 || !Stalls(s, back, x, y) {
        Exact(s, m, back, cc, p, k, greedy, y, y', nc);
      }
      assert block == block' <==> FaithfulTo(s, m, back, cc, min, max, x, y, y') by {
        BlockFaithful(s, m, back, cc, min, max, greedy, x, y, y', block, block');
      }
      BlocksEqual(block, block', rest, rest');
      FaithfulTail(s, m, back, cc, min, max, x, ys, ys');
    }
  }

  lemma {:induction false} BlockFaithful(s: Subject, m: Node, back: bool, cc: nat, min: nat, max: Option<nat>, greedy: bool,
                                         x: State, y: State, y': State, block: seq<State>, block': seq<State>)
    requires max != Some(0) && (max.Some? ==> min <= max.value)
    requires min == 0 && Stalls(s, back, x, y) ==> block' == [] && block != []
    requires min > 0 || !Stalls(s, back, x, y) ==>
               (block == block' <==> (Less(min) == 0 ==> y == y') && Faithful(s, m, back, cc, Less(min), LessOne(max), y))
    ensures block == block' <==> FaithfulTo(s, m, back, cc, min, max, x, y, y')
  {
    hide Faithful, Remaining;
  }

  lemma {:induction false} BlocksEqual(a: seq<State>, b: seq<State>, xs: seq<State>, ys: seq<State>)
    requires |b| <= |a| && |ys| <= |xs|
    ensures a + xs == b + ys <==> a == b && xs == ys
  {
    if a + xs == b + ys {
      assert |a + xs| == |a| + |xs| && |b + ys| == |b| + |ys|;
      assert (a + xs)[..|a|] == a && (b + ys)[..|a|] == b;
      assert (a + xs)[|a|..] == xs && (b + ys)[|a|..] == ys;
    }
  }

  lemma {:induction false} FaithfulTail(s: Subject, m: Node, back: bool, cc: nat, min: nat, max: Option<nat>, x: State,
                                        ys: seq<State>, ys': seq<State>)
    requires |ys| == |ys'| > 0
    ensures (forall i | 0 <= i < |ys| :: FaithfulTo(s, m, back, cc, min, max, x, ys[i], ys'[i])) <==>
            FaithfulTo(s, m, back, cc, min, max, x, ys[0], ys'[0]) &&
            forall i | 0 <= i < |ys[1..]| :: FaithfulTo(s, m, back, cc, min, max, x, ys[1..][i], ys'[1..][i])
  {
    hide FaithfulTo;
    if forall i | 0 <= i < |ys[1..]| :: FaithfulTo(s, m, back, cc, min, max, x, ys[1..][i], ys'[1..][i]) {
      forall i | 1 <= i < |ys|
        ensures FaithfulTo(s, m, back, cc, min, max, x, ys[i], ys'[i])
      {
        assert ys[1..][i - 1] == ys[i] && ys'[1..][i - 1] == ys'[i];
      }
    }
    if forall i | 0 <= i < |ys| :: FaithfulTo(s, m, back, cc, min, max, x, ys[i], ys'[i]) {
      forall i | 0 <= i < |ys[1..]|
        ensures FaithfulTo(s, m, back, cc, min, max, x, ys[1..][i], ys'[1..][i])
      {
        assert FaithfulTo(s, m, back, cc, min, max, x, ys[i + 1], ys'[i + 1]);
      }
    }
  }

  /**
  A quantifier over any atom on which the two agree, with or without groups, compared with
  RepeatMatcher from any state: the same results in the same order if and only if its iterations
  are faithful and, when it may be skipped, the captures that the code resets are not set.
  */
  lemma {:induction false} QuantExact(s: Subject, n: Node, back: bool, cc: nat, x: State, nc: nat)
    requires StateOk(s, x, nc) && n.Quant? && (n.max.Some? ==> n.min <= n.max.value)
    requires Comparable(s, n.n, back, cc, n.min, n.max, ResetAtom(n.n, n.min, cc, x))
    ensures Ecma(s, n, back, cc, x) == Results(s, n, back, cc, x) <==>
            (n.min == 0 ==> Clear(n.n, cc, x) == x) && Faithful(s, n.n, back, cc, n.min, n.max, x)
  {
    hide Results, Compile, Iter, IterEach, Repeat, StateOk, NodeOk, NumCaps, Comparable, Remaining, Loops, QuantCode, Faithful;
    var Quant(m, min, max, greedy) := n;
    QuantUnfold(s, n, back, cc, x);
    EcmaQuant(s, n, back, cc, x);
    var x0 := ResetAtom(m, min, cc, x);
    ResetOk(s, back, m, min, cc, x, nc);
    LoopsAre(s, m, back, cc, min, max, greedy, x0);
    ResetIsAlike(m, min, cc, x);
    Exact(s, m, back, cc, min, max, greedy, x0, x, nc);
  }

  lemma {:induction false} EcmaQuant(s: Subject, n: Node, back: bool, cc: nat, x: State)
    requires n.Quant?
    ensures Ecma(s, n, back, cc, x) == Repeat(s, n.n, back, cc, n.min, n.max, n.greedy, x)
  {
    hide Repeat, NumCaps, EcmaAll, SetAll;
  }

  lemma {:induction false} ResetIsAlike(m: Node, min: nat, cc: nat, x: State)
    ensures Alike(ResetAtom(m, min, cc, x), x, cc, cc + NumCaps(m))
    ensures ResetAtom(m, min, cc, x) == if min == 0 then Clear(m, cc, x) else x
  {
    hide NumCaps;
  }

  /** Every optional iteration reached from x moves. */
  ghost predicate Steady(s: Subject, m: Node, back: bool, cc: nat, min: nat, max: Option<nat>, x: State)
    decreases min, LoopMeasure(s, back, max, x)
  {
    max == Some(0) ||
    forall y | y in Results(s, m, back, cc, x) ::
      (min > 0 || !Stalls(s, back, x, y)) && Steady(s, m, back, cc, Less(min), LessOne(max), y)
  }

  lemma {:induction false} SteadyIsFaithful(s: Subject, m: Node, back: bool, cc: nat, min: nat, max: Option<nat>, x: State)
    requires NumCaps(m) == 0
    ensures Faithful(s, m, back, cc, min, max, x) <==> Steady(s, m, back, cc, min, max, x)
    decreases min, LoopMeasure(s, back, max, x)
  {
    hide Results, NumCaps, Remaining;
    if max != Some(0) {
      forall y | y in Results(s, m, back, cc, x) && (min > 0 || !Stalls(s, back, x, y))
        ensures Faithful(s, m, back, cc, Less(min), LessOne(max), y) <==> Steady(s, m, back, cc, Less(min), LessOne(max), y)
      {
        SteadyIsFaithful(s, m, back, cc, Less(min), LessOne(max), y);
      }
    }
  }

  /** Without groups in the atom: the same results if and only if no optional iteration stays in place. */
  lemma {:induction false} GroupFreeExact(s: Subject, n: Node, back: bool, cc: nat, x: State, nc: nat)
    requires StateOk(s, x, nc) && n.Quant? && NumCaps(n.n) == 0 && (n.max.Some? ==> n.min <= n.max.value)
    requires AtomAgrees(s, n.n, back, cc, n.min, n.max, x)
    ensures Ecma(s, n, back, cc, x) == Results(s, n, back, cc, x) <==> Steady(s, n.n, back, cc, n.min, n.max, x)
  {
    hide Results, Ecma, Steady, Faithful, StateOk, NumCaps, RefersOutside, AtomAgrees;
    RefersNowhere(n.n, cc);
    QuantExact(s, n, back, cc, x, nc);
    SteadyIsFaithful(s, n.n, back, cc, n.min, n.max, x);
  }

  /** Every iteration reached from x gives the same when the captures are cleared first, and every optional one moves. */
  ghost predicate AllKeep(s: Subject, m: Node, back: bool, cc: nat, min: nat, max: Option<nat>, x: State)
    decreases min, LoopMeasure(s, back, max, x)
  {
    max == Some(0) ||
    (Keeps(s, m, back, cc, x) &&
     forall y | y in Results(s, m, back, cc, x) ::
       (min > 0 || !Stalls(s, back, x, y)) && AllKeep(s, m, back, cc, Less(min), LessOne(max), y))
  }

  lemma {:induction false} KeptAgrees(s: Subject, m: Node, back: bool, cc: nat, min: nat, max: Option<nat>, greedy: bool, x: State)
    requires AllKeep(s, m, back, cc, min, max, x) && AtomAgrees(s, m, back, cc, min, max, x) && (max.Some? ==> min <= max.value)
    ensures Repeat(s, m, back, cc, min, max, greedy, x) == Loops(s, m, back, cc, min, max, greedy, x)
    decreases min, LoopMeasure(s, back, max, x), 1, 0
  {
    hide Results, Ecma, RepeatAll, LoopsAll, Remaining, Clear;
    if max != Some(0) {
      KeptAllAgrees(s, m, back, cc, min, max, greedy, x, Results(s, m, back, cc, x));
    }
  }

  lemma {:induction false} KeptAllAgrees(s: Subject, m: Node, back: bool, cc: nat, min: nat, max: Option<nat>, greedy: bool,
                                         x: State, ys: seq<State>)
    requires max != Some(0) && (max.Some? ==> min <= max.value)
    requires forall y | y in ys :: (min > 0 || !Stalls(s, back, x, y)) && AllKeep(s, m, back, cc, Less(min), LessOne(max), y) &&
                                   AtomAgrees(s, m, back, cc, Less(min), LessOne(max), y)
    ensures RepeatAll(s, m, back, cc, min, max, greedy, x, ys) == LoopsAll(s, m, back, cc, min, max, greedy, x, ys)
    decreases min, LoopMeasure(s, back, max, x), 0, |ys|
  {
    hide Repeat, Loops, Remaining, AllKeep, AtomAgrees;
    if ys != [] {
      assert ys[0] in ys;
      KeptAgrees(s, m, back, cc, Less(min), LessOne(max), greedy, ys[0]);
      KeptAllAgrees(s, m, back, cc, min, max, greedy, x, ys[1..]);
    }
  }

  /** For atoms that may refer back to their own groups: iterations that all keep and move give the same results. */
  lemma {:induction false} QuantKeeps(s: Subject, n: Node, back: bool, cc: nat, x: State)
    requires n.Quant? && (n.max.Some? ==> n.min <= n.max.value) && ResetAtom(n.n, n.min, cc, x) == x
    requires AllKeep(s, n.n, back, cc, n.min, n.max, x) && AtomAgrees(s, n.n, back, cc, n.min, n.max, x)
    ensures Ecma(s, n, back, cc, x) == Results(s, n, back, cc, x)
  {
    hide Results, Compile, Iter, IterEach, Repeat, NodeOk, NumCaps, Remaining, Loops, QuantCode, AllKeep, AtomAgrees, ResetAtom;
    var Quant(m, min, max, greedy) := n;
    QuantUnfold(s, n, back, cc, x);
    EcmaQuant(s, n, back, cc, x);
    LoopsAre(s, m, back, cc, min, max, greedy, x);
    KeptAgrees(s, m, back, cc, min, max, greedy, x);
  }

  /** On a plain atom the two agree from every state. */
  lemma {:induction false} PlainAgrees(s: Subject, m: Node, back: bool, cc: nat, min: nat, max: Option<nat>, x: State, nc: nat)
    requires StateOk(s, x, nc) && Plain(m)
    ensures AtomAgrees(s, m, back, cc, min, max, x)
    decreases m, 1, min, LoopMeasure(s, back, max, x), 0, 0
  {
    hide Results, Ecma, StateOk, Plain, Remaining, NumCaps, Clear;
    if max != Some(0) {
      ClearOk(s, back, m, cc, x, nc);
      EcmaAgrees(s, m, back, cc, Clear(m, cc, x), nc);
      ResultsAllOk2(s, m, back, cc, x, nc);
      forall y | y in Results(s, m, back, cc, x) && (min > 0 || max.Some? || !Stalls(s, back, x, y))
        ensures AtomAgrees(s, m, back, cc, Less(min), LessOne(max), y)
      {
        PlainAgrees(s, m, back, cc, Less(min), LessOne(max), y, nc);
      }
    }
  }

  lemma {:induction false} NonEmptySteady(s: Subject, m: Node, back: bool, cc: nat, min: nat, max: Option<nat>, x: State, nc: nat)
    requires StateOk(s, x, nc) && NonEmpty(m)
    ensures Steady(s, m, back, cc, min, max, x)
    decreases min, LoopMeasure(s, back, max, x)
  {
    hide Results, StateOk, NonEmpty, Remaining;
    NonEmptyMoves(s, m, back, cc, x, nc);
    if max != Some(0) {
      forall y | y in Results(s, m, back, cc, x)
        ensures !Stalls(s, back, x, y) && Steady(s, m, back, cc, Less(min), LessOne(max), y)
      {
        NonEmptySteady(s, m, back, cc, Less(min), LessOne(max), y, nc);
      }
    }
  }

  /** On plain patterns the code and the standard's matcher give the same results in the same order. */
  lemma {:induction false} EcmaAgrees(s: Subject, n: Node, back: bool, cc: nat, x: State, nc: nat)
    requires StateOk(s, x, nc) && Plain(n)
    ensures Ecma(s, n, back, cc, x) == Results(s, n, back, cc, x)
    decreases n, 0, 0, 0, 0, 0
  {
    hide Results, Compile, Iter, IterEach, ResultsAll, EcmaAll, SetAll, StateOk, NodeOk, NumCaps, Repeat, Steady;
    match n
    case Cat(l, r) =>
      CatUnfold(s, l, r, back, cc, x);
      var (p, q, cp, cq) := if back then (r, l, cc + NumCaps(l), cc) else (l, r, cc, cc + NumCaps(l));
      EcmaAgrees(s, p, back, cp, x, nc);
      ResultsOk(s, p, back, cp, x, nc);
      EcmaAllAgrees(s, q, back, cq, Results(s, p, back, cp, x), nc, Remaining(s, back, x));
    case Alt(l, r) =>
      AltUnfold(s, l, r, back, cc, x);
      EcmaAgrees(s, l, back, cc, x, nc);
      EcmaAgrees(s, r, back, cc + NumCaps(l), x, nc);
    case Group(m) =>
      GroupUnfold(s, m, back, cc, x);
      var i := if back then 2 * cc + 1 else 2 * cc;
      SetCapOk(s, back, x, i, nc);
      EcmaAgrees(s, m, back, cc + 1, SetCap(x, i), nc);
    case Look(neg, b, m) =>
      LookUnfold(s, neg, b, m, back, cc, x);
      EcmaAgrees(s, m, b, cc, x, nc);
    case Quant(m, min, max, greedy) =>
      NonEmptySteady(s, m, back, cc, min, max, x, nc);
      PlainAgrees(s, m, back, cc, min, max, x, nc);
      GroupFreeExact(s, n, back, cc, x, nc);
    case _ =>
  }

  lemma {:induction false} EcmaAllAgrees(s: Subject, n: Node, back: bool, cc: nat, xs: seq<State>, nc: nat, lim: int)
    requires AllOk(s, back, xs, nc, lim) && Plain(n)
    ensures EcmaAll(s, n, back, cc, xs) == ResultsAll(s, n, back, cc, xs)
    decreases n, 1, 0, 0, 0, |xs|
  {
    hide Results, Ecma, StateOk;
    if xs != [] {
      EcmaAgrees(s, n, back, cc, xs[0], nc);
      EcmaAllAgrees(s, n, back, cc, xs[1..], nc, lim);
    }
  }

  lemma {:induction false} WholeIsPlain(n: Node, sticky: bool)
    requires Plain(n)
    ensures Plain(Whole(n, sticky))
  {
    var any := Atom(Anything);
    assert Plain(any) && NumCaps(any) == 0 && NonEmpty(any);
    assert Plain(Quant(any, 0, None, false));
  }

  /** Loops over atoms that cannot be empty all make progress. */
  lemma {:induction false} PlainIsOk(n: Node, back: bool, cc: nat)
    requires Plain(n) && OperandsOk(n)
    ensures NodeOk(n, back, cc)
    decreases n
  {
    hide NumCaps, Compile, NeedsCheck;
    match n
    case Cat(l, r) => PlainIsOk(l, back, cc); PlainIsOk(r, back, cc + NumCaps(l));
    case Alt(l, r) => PlainIsOk(l, back, cc); PlainIsOk(r, back, cc + NumCaps(l));
    case Group(m) => PlainIsOk(m, back, cc + 1);
    case Look(_, b, m) => PlainIsOk(m, b, cc);
    case Quant(m, _, _, _) => PlainIsOk(m, back, cc);
    case _ =>
  }

  /** The answer of the machine on a plain pattern is the first result of the standard's matcher. */
  lemma {:induction false} MachineFollowsEcma(n: Node, sticky: bool, s: Subject, pos: nat)
    requires OperandsOk(n) && Plain(n) && AllEncodable(Program(n, sticky)) && SubjectOk(s) && Boundary(s, pos)
    ensures Reaches(Machine(n, sticky, s), Initial(n, pos), Answer(Ecma(s, Whole(n, sticky), false, 0, Start(n, pos))))
  {
    hide AllEncodable, SubjectOk, Boundary, Reaches, Ecma, Results, Compile, Plain, OperandsOk, NodeOk;
    PlainIsOk(n, false, 1);
    ProgramCorrect(n, sticky, s, pos);
    WholeIsPlain(n, sticky);
    EcmaAgrees(s, Whole(n, sticky), false, 0, Start(n, pos), 1 + NumCaps(n));
  }
}
