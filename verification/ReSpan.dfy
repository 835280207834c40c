/**
What a pattern without back references matches, as a relation between the places where a match
begins and ends in a text, the same for both directions; and that the results are its ends.
*/
module ReSpan {
  import opened ReCode
  import opened ReSyntax
  import opened ReMatch
  import opened ReUnfold
  import opened ReVm
  import opened ReText
  import opened ReAlike
  import opened ReProgram

  /** A character passes a test; a class is the union of the intervals between its points. */
  ghost predicate Passes(t: Test, c: nat) {
    match t
    case OneChar(x) => c == x
    case NotLineTerm => c !in LINE_TERMINATORS
    case Anything => true
    case InClass(p) => exists i, j :: 0 <= i && j == i + 1 && j < |p| && i % 2 == 0 && p[i] <= c < p[j]
  }

  /** n matches the characters from i up to j of the text cs. */
  ghost predicate Spans(cs: seq<nat>, multiline: bool, n: Node, i: nat, j: nat)
    decreases n, 0
  {
    match n
    case Empty => i == j
    case Atom(t) => j == i + 1 && j <= |cs| && Passes(t, cs[i])
    case BeginLine => i == j <= |cs| && (i == 0 || (multiline && cs[i - 1] in LINE_TERMINATORS))
    case EndLine => i == j <= |cs| && (i == |cs| || (multiline && cs[i] in LINE_TERMINATORS))
    case WordEdge(neg) =>
      i == j <= |cs| && neg != ((i > 0 && IsWord(cs[i - 1])) != (i < |cs| && IsWord(cs[i])))
    case BackReference(_) => false
    case Cat(l, r) => exists k: nat :: k <= |cs| && Spans(cs, multiline, l, i, k) && Spans(cs, multiline, r, k, j)
    case Alt(l, r) => Spans(cs, multiline, l, i, j) || Spans(cs, multiline, r, i, j)
    case Group(m) => Spans(cs, multiline, m, i, j)
    case Look(neg, back, m) =>
      i == j &&
      neg != if back then exists k: nat :: k <= |cs| && Spans(cs, multiline, m, k, i)
             else exists k: nat :: k <= |cs| && Spans(cs, multiline, m, i, k)
    case Quant(m, min, max, _) =>
      exists count: nat :: min <= count && (max.Some? ==> count <= max.value) && Chain(cs, multiline, m, count, i, j)
  }

  /** count matches in a row. */
  ghost predicate Chain(cs: seq<nat>, multiline: bool, m: Node, count: nat, i: nat, j: nat)
    decreases m, 1, count
  {
    if count == 0 then i == j
    else exists k: nat :: k <= |cs| && Spans(cs, multiline, m, i, k) && Chain(cs, multiline, m, count - 1, k, j)
  }

  predicate RefFree(n: Node) {
    match n
    case BackReference(_) => false
    case Cat(l, r) => RefFree(l) && RefFree(r)
    case Alt(l, r) => RefFree(l) && RefFree(r)
    case Group(m) => RefFree(m)
    case Look(_, _, m) => RefFree(m)
    case Quant(m, _, _, _) => RefFree(m)
    case _ => true
  }

  /** A match that is entered at i and left at k, in the direction of matching. */
  ghost predicate Rel(cs: seq<nat>, multiline: bool, n: Node, back: bool, i: nat, k: nat) {
    k <= |cs| && if back then Spans(cs, multiline, n, k, i) else Spans(cs, multiline, n, i, k)
  }

  ghost predicate RelChain(cs: seq<nat>, multiline: bool, m: Node, back: bool, count: nat, i: nat, k: nat) {
    k <= |cs| && if back then Chain(cs, multiline, m, count, k, i) else Chain(cs, multiline, m, count, i, k)
  }

  lemma {:induction false} PassesIs(t: Test, c: nat)
    ensures Accepts(t, c) <==> Passes(t, c)
  {
    if t.InClass? {
      MemberIs(t.points, c);
    }
  }

  lemma {:induction false} MemberIs(p: seq<nat>, c: nat)
    ensures Member(p, c) <==> exists i, j :: 0 <= i && j == i + 1 && j < |p| && i % 2 == 0 && p[i] <= c < p[j]
  {
    if |p| >= 2 {
      var q := p[2..];
      MemberIs(q, c);
      if Member(q, c) {
        var i, j :| 0 <= i && j == i + 1 && j < |q| && i % 2 == 0 && q[i] <= c < q[j];
        assert p[i + 2] <= c < p[j + 2];
      }
      forall i, j | 0 <= i && j == i + 1 && j < |p| && i % 2 == 0 && p[i] <= c < p[j]
        ensures Member(p, c)
      {
        if i > 0 {
          assert q[i - 2] <= c < q[j - 2];
        }
      }
    }
  }

  /** A match never ends before it begins. */
  lemma {:induction false} SpanOrder(cs: seq<nat>, multiline: bool, n: Node, i: nat, j: nat)
    requires Spans(cs, multiline, n, i, j)
    ensures i <= j
    decreases n, 0
  {
    match n
    case Cat(l, r) =>
      var k: nat :| k <= |cs| && Spans(cs, multiline, l, i, k) && Spans(cs, multiline, r, k, j);
      SpanOrder(cs, multiline, l, i, k);
      SpanOrder(cs, multiline, r, k, j);
    case Alt(l, r) =>
      if Spans(cs, multiline, l, i, j) {
        SpanOrder(cs, multiline, l, i, j);
      } else {
        SpanOrder(cs, multiline, r, i, j);
      }
    case Group(m) => SpanOrder(cs, multiline, m, i, j);
    case Quant(m, min, max, _) =>
      var count: nat :| min <= count && (max.Some? ==> count <= max.value) && Chain(cs, multiline, m, count, i, j);
      ChainOrder(cs, multiline, m, count, i, j);
    case _ =>
  }

  lemma {:induction false} ChainOrder(cs: seq<nat>, multiline: bool, m: Node, count: nat, i: nat, j: nat)
    requires Chain(cs, multiline, m, count, i, j)
    ensures i <= j
    decreases m, 1, count
  {
    if count > 0 {
      var k: nat :| k <= |cs| && Spans(cs, multiline, m, i, k) && Chain(cs, multiline, m, count - 1, k, j);
      SpanOrder(cs, multiline, m, i, k);
      ChainOrder(cs, multiline, m, count - 1, k, j);
    }
  }

  lemma {:induction false} ChainSnoc(cs: seq<nat>, multiline: bool, m: Node, count: nat, i: nat, k: nat, j: nat)
    requires k <= |cs| && j <= |cs| && Chain(cs, multiline, m, count, i, k) && Spans(cs, multiline, m, k, j)
    ensures Chain(cs, multiline, m, count + 1, i, j)
    decreases count
  {
    hide Spans;
    if count == 0 {
      assert Chain(cs, multiline, m, 0, j, j);
    } else {
      var h: nat :| h <= |cs| && Spans(cs, multiline, m, i, h) && Chain(cs, multiline, m, count - 1, h, k);
      ChainSnoc(cs, multiline, m, count - 1, h, k, j);
    }
  }

  lemma {:induction false} ChainUnsnoc(cs: seq<nat>, multiline: bool, m: Node, count: nat, i: nat, j: nat) returns (k: nat)
    requires count > 0 && i <= |cs| && j <= |cs| && Chain(cs, multiline, m, count, i, j)
    ensures k <= |cs| && Chain(cs, multiline, m, count - 1, i, k) && Spans(cs, multiline, m, k, j)
    decreases count
  {
    hide Spans;
    var h: nat :| h <= |cs| && Spans(cs, multiline, m, i, h) && Chain(cs, multiline, m, count - 1, h, j);
    if count == 1 {
      k := i;
    } else {
      k := ChainUnsnoc(cs, multiline, m, count - 1, h, j);
    }
  }

  lemma {:induction false} RelCons(cs: seq<nat>, multiline: bool, m: Node, back: bool, count: nat, i: nat, k: nat, j: nat)
    requires i <= |cs| && Rel(cs, multiline, m, back, i, k) && RelChain(cs, multiline, m, back, count, k, j)
    ensures RelChain(cs, multiline, m, back, count + 1, i, j)
  {
    hide Spans;
    if back {
      ChainSnoc(cs, multiline, m, count, j, k, i);
    }
  }

  lemma {:induction false} RelUncons(cs: seq<nat>, multiline: bool, m: Node, back: bool, count: nat, i: nat, j: nat) returns (k: nat)
    requires count > 0 && i <= |cs| && RelChain(cs, multiline, m, back, count, i, j)
    ensures Rel(cs, multiline, m, back, i, k) && RelChain(cs, multiline, m, back, count - 1, k, j)
  {
    hide Spans;
    if back {
      k := ChainUnsnoc(cs, multiline, m, count, j, i);
    } else {
      assert Chain(cs, multiline, m, count, i, j);
      k :| k <= |cs| && Spans(cs, multiline, m, i, k) && Chain(cs, multiline, m, count - 1, k, j);
    }
  }

  lemma {:induction false} RelNone(cs: seq<nat>, multiline: bool, m: Node, back: bool, i: nat)
    requires i <= |cs|
    ensures RelChain(cs, multiline, m, back, 0, i, i)
  {
  }

  lemma {:induction false} RelAdd(cs: seq<nat>, multiline: bool, m: Node, back: bool, a: nat, b: nat, i: nat, k: nat, j: nat)
    requires i <= |cs| && RelChain(cs, multiline, m, back, a, i, k) && RelChain(cs, multiline, m, back, b, k, j)
    ensures RelChain(cs, multiline, m, back, a + b, i, j)
    decreases a
  {
    if a > 0 {
      hide Rel, RelChain;
      var h := RelUncons(cs, multiline, m, back, a, i, k);
      RelInside(cs, multiline, m, back, i, h);
      RelAdd(cs, multiline, m, back, a - 1, b, h, k, j);
      RelCons(cs, multiline, m, back, a - 1 + b, i, h, j);
    }
  }

  lemma {:induction false} RelInside(cs: seq<nat>, multiline: bool, m: Node, back: bool, i: nat, k: nat)
    requires Rel(cs, multiline, m, back, i, k)
    ensures k <= |cs|
  {
  }

  lemma {:induction false} RelSplit(cs: seq<nat>, multiline: bool, m: Node, back: bool, a: nat, b: nat, i: nat, j: nat) returns (k: nat)
    requires i <= |cs| && RelChain(cs, multiline, m, back, a + b, i, j)
    ensures k <= |cs| && RelChain(cs, multiline, m, back, a, i, k) && RelChain(cs, multiline, m, back, b, k, j)
    decreases a
  {
    hide Rel, RelChain;
    k := i;
    RelNone(cs, multiline, m, back, i);
    if a > 0 {
      var h := RelUncons(cs, multiline, m, back, a + b, i, j);
      RelInside(cs, multiline, m, back, i, h);
      k := RelSplit(cs, multiline, m, back, a - 1, b, h, j);
      RelCons(cs, multiline, m, back, a - 1, i, h, k);
    }
  }

  lemma {:induction false} RelCat(cs: seq<nat>, multiline: bool, l: Node, r: Node, back: bool, i: nat, h: nat, k: nat)
    requires i <= |cs|
    requires Rel(cs, multiline, if back then r else l, back, i, h) && Rel(cs, multiline, if back then l else r, back, h, k)
    ensures Rel(cs, multiline, Cat(l, r), back, i, k)
  {
  }

  lemma {:induction false} RelUncat(cs: seq<nat>, multiline: bool, l: Node, r: Node, back: bool, i: nat, k: nat) returns (h: nat)
    requires i <= |cs| && Rel(cs, multiline, Cat(l, r), back, i, k)
    ensures Rel(cs, multiline, if back then r else l, back, i, h)
    ensures Rel(cs, multiline, if back then l else r, back, h, k)
  {
    var (a, b) := if back then (k, i) else (i, k);
    assert Spans(cs, multiline, Cat(l, r), a, b);
    h :| h <= |cs| && Spans(cs, multiline, l, a, h) && Spans(cs, multiline, r, h, b);
  }

  lemma {:induction false} RelAltGroup(cs: seq<nat>, multiline: bool, l: Node, r: Node, back: bool, i: nat, k: nat)
    ensures Rel(cs, multiline, Alt(l, r), back, i, k) <==> Rel(cs, multiline, l, back, i, k) || Rel(cs, multiline, r, back, i, k)
    ensures Rel(cs, multiline, Group(l), back, i, k) <==> Rel(cs, multiline, l, back, i, k)
  {
  }

  /** Whether a lookaround sees a match, and so itself matches. */
  lemma {:induction false} LookIs(cs: seq<nat>, multiline: bool, neg: bool, b: bool, m: Node, back: bool, i: nat)
    requires i <= |cs|
    ensures Rel(cs, multiline, Look(neg, b, m), back, i, i) <==> neg != exists k :: 0 <= k && Rel(cs, multiline, m, b, i, k)
  {
    var n := Look(neg, b, m);
    if b {
      assert Spans(cs, multiline, n, i, i) <==> neg != exists k: nat :: k <= |cs| && Spans(cs, multiline, m, k, i);
      assert forall k: nat :: Rel(cs, multiline, m, b, i, k) <==> k <= |cs| && Spans(cs, multiline, m, k, i);
    } else {
      assert Spans(cs, multiline, n, i, i) <==> neg != exists k: nat :: k <= |cs| && Spans(cs, multiline, m, i, k);
      assert forall k: nat :: Rel(cs, multiline, m, b, i, k) <==> k <= |cs| && Spans(cs, multiline, m, i, k);
    }
  }

  lemma {:induction false} LookStays(cs: seq<nat>, multiline: bool, neg: bool, b: bool, m: Node, back: bool, i: nat, k: nat)
    requires Rel(cs, multiline, Look(neg, b, m), back, i, k)
    ensures k == i
  {
  }

  /** A subject, its characters, and a state between two of them. */
  ghost predicate AtChar(s: Subject, cs: seq<nat>, x: State, i: nat) {
    CharsOf(s, cs) && i <= |cs| && x.pos == Off(cs, i)
  }

  lemma {:induction false} AtomResults(s: Subject, cs: seq<nat>, t: Test, back: bool, cc: nat, x: State, i: nat)
    requires AtChar(s, cs, x, i)
    ensures var k := if back then i - 1 else i + 1;
            if 0 <= k <= |cs| && Passes(t, cs[if back then k else i]) then Results(s, Atom(t), back, cc, x) == [x.(pos := Off(cs, k))]
            else Results(s, Atom(t), back, cc, x) == []
  {
    hide Off, Text, Accepts, Passes, GetChar, NextPos, PrevPos, Results;
    OffEnds(cs);
    OffOrder(cs, 0, i);
    OffOrder(cs, i, |cs|);
    AtomUnfold(s, t, back, cc, x);
    if back && i > 0 {
      ReadsText(s, cs, i - 1);
      PrevReads(s, cs, i);
      PassesIs(t, cs[i - 1]);
    } else if !back && i < |cs| {
      ReadsText(s, cs, i);
      PassesIs(t, cs[i]);
    }
  }

  lemma {:induction false} PrevReads(s: Subject, cs: seq<nat>, i: nat)
    requires CharsOf(s, cs) && 0 < i <= |cs|
    ensures 0 < Off(cs, i) <= |s.input| && PrevPos(s, Off(cs, i)) == Off(cs, i - 1) && GetChar(s, Off(cs, i - 1)) == cs[i - 1]
  {
    hide Off, Text, GetChar, PrevPos;
    ReadsText(s, cs, i - 1);
  }

  lemma {:induction false} Asserted(s: Subject, cs: seq<nat>, n: Node, back: bool, cc: nat, x: State, i: nat)
    requires AtChar(s, cs, x, i) && IsAssertion(n)
    ensures Results(s, n, back, cc, x) == if Spans(cs, s.multiline, n, i, i) then [x] else []
  {
    hide Off, Text, AtLineStart, AtLineEnd, AtWordEdge, Results, IsWord;
    AssertionsMean(s, cs, i);
    AssertUnfold(s, n, back, cc, x);
  }

  lemma {:induction false} FromAll(s: Subject, n: Node, back: bool, cc: nat, xs: seq<State>, y: State) returns (w: State)
    requires y in ResultsAll(s, n, back, cc, xs)
    ensures w in xs && y in Results(s, n, back, cc, w)
    decreases |xs|
  {
    hide Results;
    if y in Results(s, n, back, cc, xs[0]) {
      w := xs[0];
    } else {
      w := FromAll(s, n, back, cc, xs[1..], y);
    }
  }

  lemma {:induction false} IntoAll(s: Subject, n: Node, back: bool, cc: nat, xs: seq<State>, w: State, y: State)
    requires w in xs && y in Results(s, n, back, cc, w)
    ensures y in ResultsAll(s, n, back, cc, xs)
    decreases |xs|
  {
    hide Results;
    if w != xs[0] {
      IntoAll(s, n, back, cc, xs[1..], w, y);
    }
  }

  lemma {:induction false} IntoSet(xs: seq<State>, i: nat, w: State)
    requires w in xs
    ensures SetCap(w, i) in SetAll(xs, i) && SetCap(w, i).pos == w.pos
  {
    if w != xs[0] {
      IntoSet(xs[1..], i, w);
    }
  }

  predicate IsLeaf(n: Node) {
    n.Empty? || n.Atom? || IsAssertion(n)
  }

  lemma {:induction false} LeafSound(s: Subject, cs: seq<nat>, n: Node, back: bool, cc: nat, x: State, i: nat, y: State) returns (k: nat)
    requires AtChar(s, cs, x, i) && IsLeaf(n) && y in Results(s, n, back, cc, x)
    ensures AtChar(s, cs, y, k) && Rel(cs, s.multiline, n, back, i, k)
  {
    hide Results, Off, Text, Passes, CharsOf, IsWord;
    k := i;
    if n.Empty? {
      EmptyUnfold(s, back, cc, x);
    } else if n.Atom? {
      AtomResults(s, cs, n.t, back, cc, x, i);
      k := if back then i - 1 else i + 1;
    } else {
      Asserted(s, cs, n, back, cc, x, i);
    }
  }

  lemma {:induction false} LeafComplete(s: Subject, cs: seq<nat>, n: Node, back: bool, cc: nat, x: State, i: nat, k: nat) returns (y: State)
    requires AtChar(s, cs, x, i) && IsLeaf(n) && Rel(cs, s.multiline, n, back, i, k)
    ensures AtChar(s, cs, y, k) && y in Results(s, n, back, cc, x)
  {
    hide Results, Off, Text, Passes, CharsOf, IsWord;
    y := x;
    if n.Empty? {
      EmptyUnfold(s, back, cc, x);
    } else if n.Atom? {
      AtomResults(s, cs, n.t, back, cc, x, i);
      y := x.(pos := Off(cs, k));
    } else {
      Asserted(s, cs, n, back, cc, x, i);
    }
  }

  /** Every result is the end of a match. */
  lemma {:induction false} SpanSound(s: Subject, cs: seq<nat>, n: Node, back: bool, cc: nat, x: State, i: nat, y: State) returns (k: nat)
    requires AtChar(s, cs, x, i) && RefFree(n) && y in Results(s, n, back, cc, x)
    ensures AtChar(s, cs, y, k) && Rel(cs, s.multiline, n, back, i, k)
    decreases n, 0, 0, 0, 0
  {
    hide Results, ResultsAll, SetAll, Iter, IterEach, Compile, NodeOk, Off, Text, Spans, Rel, QuantCode, CharsOf, NumCaps, CheckAdvance, SelfRefers;
    match n
    case Cat(l, r) =>
      CatUnfold(s, l, r, back, cc, x);
      if back {
        var w := FromAll(s, l, back, cc, Results(s, r, back, cc + NumCaps(l), x), y);
        var h := SpanSound(s, cs, r, back, cc + NumCaps(l), x, i, w);
        k := SpanSound(s, cs, l, back, cc, w, h, y);
        RelCat(cs, s.multiline, l, r, back, i, h, k);
      } else {
        var w := FromAll(s, r, back, cc + NumCaps(l), Results(s, l, back, cc, x), y);
        var h := SpanSound(s, cs, l, back, cc, x, i, w);
        k := SpanSound(s, cs, r, back, cc + NumCaps(l), w, h, y);
        RelCat(cs, s.multiline, l, r, back, i, h, k);
      }
    case Alt(l, r) =>
      AltUnfold(s, l, r, back, cc, x);
      assert RefFree(l) && RefFree(r);
      if y in Results(s, l, back, cc, x) {
        k := SpanSound(s, cs, l, back, cc, x, i, y);
      } else {
        k := SpanSound(s, cs, r, back, cc + NumCaps(l), x, i, y);
      }
      RelAltGroup(cs, s.multiline, l, r, back, i, k);
    case Group(m) =>
      GroupUnfold(s, m, back, cc, x);
      var (a, b) := if back then (2 * cc + 1, 2 * cc) else (2 * cc, 2 * cc + 1);
      var w := SetFrom(Results(s, m, back, cc + 1, SetCap(x, a)), b, y);
      k := SpanSound(s, cs, m, back, cc + 1, SetCap(x, a), i, w);
      RelAltGroup(cs, s.multiline, m, m, back, i, k);
    case Look(neg, b, m) =>
      LookUnfold(s, neg, b, m, back, cc, x);
      LookSound(s, cs, neg, b, m, back, cc, x, i);
      k := i;
    case Quant(m, min, max, greedy) =>
      QuantUnfold(s, n, back, cc, x);
      k := QuantSound(s, cs, m, back, cc, min, max, greedy, x, i, y);
    case BackReference(_) =>
      assert false;
    case _ =>
      k := LeafSound(s, cs, n, back, cc, x, i, y);
  }

  lemma {:induction false} LookSound(s: Subject, cs: seq<nat>, neg: bool, b: bool, m: Node, back: bool, cc: nat, x: State, i: nat)
    requires AtChar(s, cs, x, i) && RefFree(m)
    ensures Rel(cs, s.multiline, Look(neg, b, m), back, i, i) <==> neg == (Results(s, m, b, cc, x) == [])
    decreases m, 1, 0, 0, 0
  {
    hide Results, Off, Text, CharsOf, Rel;
    var rs := Results(s, m, b, cc, x);
    LookIs(cs, s.multiline, neg, b, m, back, i);
    if rs != [] {
      var k := SpanSound(s, cs, m, b, cc, x, i, rs[0]);
    } else if k :| 0 <= k && Rel(cs, s.multiline, m, b, i, k) {
      var y := SpanComplete(s, cs, m, b, cc, x, i, k);
      assert false;
    }
  }

  /** How many repetitions a loop allows. */
  ghost predicate Allowed(rep: Rep, count: nat) {
    match rep
    case Times(k) => count == k
    case UpTo(k, _) => count <= k
    case Star(_) => true
  }

  lemma {:induction false} QuantSound(s: Subject, cs: seq<nat>, m: Node, back: bool, cc: nat, min: nat, max: Option<nat>, greedy: bool,
                                      x: State, i: nat, y: State) returns (k: nat)
    requires AtChar(s, cs, x, i) && RefFree(m) && (max.Some? ==> min <= max.value)
    requires y in IterEach(s, m, back, cc, if max.Some? then UpTo(max.value - min, greedy) else Star(greedy),
                           Iter(s, m, back, cc, Times(min), ResetAtom(m, min, cc, x)))
    ensures AtChar(s, cs, y, k) && Rel(cs, s.multiline, Quant(m, min, max, greedy), back, i, k)
    decreases m, 2, 0, 0, 0
  {
    hide Iter, IterEach, Off, Text, CharsOf, RelChain, NumCaps;
    var rep := if max.Some? then UpTo(max.value - min, greedy) else Star(greedy);
    var x0 := ResetAtom(m, min, cc, x);
    var w := FromEach(s, m, back, cc, rep, Iter(s, m, back, cc, Times(min), x0), y);
    var h, a := IterSound(s, cs, m, back, cc, Times(min), x0, i, w);
    var b;
    k, b := IterSound(s, cs, m, back, cc, rep, w, h, y);
    RelAdd(cs, s.multiline, m, back, a, b, i, h, k);
    RelQuant(cs, s.multiline, m, back, min, max, greedy, a + b, i, k);
  }

  lemma {:induction false} RelQuant(cs: seq<nat>, multiline: bool, m: Node, back: bool, min: nat, max: Option<nat>, greedy: bool, count: nat, i: nat, k: nat)
    requires RelChain(cs, multiline, m, back, count, i, k) && min <= count && (max.Some? ==> count <= max.value)
    ensures Rel(cs, multiline, Quant(m, min, max, greedy), back, i, k)
  {
    hide Chain;
  }

  lemma {:induction false} FromEach(s: Subject, m: Node, back: bool, cc: nat, rep: Rep, xs: seq<State>, y: State) returns (w: State)
    requires y in IterEach(s, m, back, cc, rep, xs)
    ensures w in xs && y in Iter(s, m, back, cc, rep, w)
    decreases |xs|
  {
    hide Iter;
    if y in Iter(s, m, back, cc, rep, xs[0]) {
      w := xs[0];
    } else {
      w := FromEach(s, m, back, cc, rep, xs[1..], y);
    }
  }

  lemma {:induction false} IntoEach(s: Subject, m: Node, back: bool, cc: nat, rep: Rep, xs: seq<State>, w: State, y: State)
    requires w in xs && y in Iter(s, m, back, cc, rep, w)
    ensures y in IterEach(s, m, back, cc, rep, xs)
    decreases |xs|
  {
    hide Iter;
    if w != xs[0] {
      IntoEach(s, m, back, cc, rep, xs[1..], w, y);
    }
  }

  /** What is left after one repetition. */
  function Fewer(rep: Rep): Rep
    requires rep.Star? || rep.k > 0
  {
    match rep
    case Times(k) => Times(k - 1)
    case UpTo(k, greedy) => UpTo(k - 1, greedy)
    case Star(_) => rep
  }

  lemma {:induction false} IterUnfold(s: Subject, m: Node, back: bool, cc: nat, rep: Rep, x: State, y: State)
    ensures y in Iter(s, m, back, cc, rep, x) <==>
            (y == x && Allowed(rep, 0)) ||
            ((rep.Star? || rep.k > 0) && y in IterAll(s, m, back, cc, Fewer(rep), x, Results(s, m, back, cc, x)))
  {
    hide Results, IterAll;
  }

  /** Every result of a loop is reached by an allowed number of repetitions. */
  lemma {:induction false} IterSound(s: Subject, cs: seq<nat>, m: Node, back: bool, cc: nat, rep: Rep, x: State, i: nat, y: State)
      returns (k: nat, count: nat)
    requires AtChar(s, cs, x, i) && RefFree(m) && y in Iter(s, m, back, cc, rep, x)
    ensures AtChar(s, cs, y, k) && Allowed(rep, count) && RelChain(cs, s.multiline, m, back, count, i, k)
    decreases m, 1, RepMeasure(s, back, rep, x), if rep.Star? then 2 else 0, 0
  {
    hide Results, Iter, IterAll, Off, Text, CharsOf, RelChain, Rel;
    IterUnfold(s, m, back, cc, rep, x, y);
    if y == x && Allowed(rep, 0) {
      k, count := i, 0;
      RelNone(cs, s.multiline, m, back, i);
    } else {
      k, count := IterAllSound(s, cs, m, back, cc, Fewer(rep), x, i, Results(s, m, back, cc, x), y);
    }
  }

  lemma {:induction false} IterAllSound(s: Subject, cs: seq<nat>, m: Node, back: bool, cc: nat, rep: Rep, x: State, i: nat,
                                        ys: seq<State>, y: State) returns (k: nat, count: nat)
    requires AtChar(s, cs, x, i) && RefFree(m) && y in IterAll(s, m, back, cc, rep, x, ys)
    requires forall w | w in ys :: w in Results(s, m, back, cc, x)
    ensures AtChar(s, cs, y, k) && count > 0 && Allowed(rep, count - 1) && RelChain(cs, s.multiline, m, back, count, i, k)
    decreases m, 1, RepMeasure(s, back, rep, x), 1, |ys|
  {
    hide Results, Iter, Off, Text, CharsOf, RelChain, Rel;
    var w := ys[0];
    assert w in ys;
    var stays := rep.Star? && Remaining(s, back, w) >= Remaining(s, back, x);
    if y in if stays then [w] else Iter(s, m, back, cc, rep, w) {
      var h := SpanSound(s, cs, m, back, cc, x, i, w);
      var c: nat;
      if stays {
        k, c := h, 0;
        RelNone(cs, s.multiline, m, back, h);
      } else {
        k, c := IterSound(s, cs, m, back, cc, rep, w, h, y);
      }
      RelCons(cs, s.multiline, m, back, c, i, h, k);
      count := c + 1;
    } else {
      k, count := IterAllSound(s, cs, m, back, cc, rep, x, i, ys[1..], y);
    }
  }

  /** Every match is the end of some result. */
  lemma {:induction false} SpanComplete(s: Subject, cs: seq<nat>, n: Node, back: bool, cc: nat, x: State, i: nat, k: nat) returns (y: State)
    requires AtChar(s, cs, x, i) && RefFree(n) && Rel(cs, s.multiline, n, back, i, k)
    ensures AtChar(s, cs, y, k) && y in Results(s, n, back, cc, x)
    decreases n, 0, 0, 0, 0
  {
    hide Results, ResultsAll, SetAll, Iter, IterEach, Compile, NodeOk, Off, Text, Spans, Rel, QuantCode, CharsOf, NumCaps, CheckAdvance, SelfRefers;
    RelInside(cs, s.multiline, n, back, i, k);
    match n
    case Cat(l, r) =>
      CatUnfold(s, l, r, back, cc, x);
      if back {
        var h := RelUncat(cs, s.multiline, l, r, back, i, k);
        RelInside(cs, s.multiline, r, back, i, h);
        var w := SpanComplete(s, cs, r, back, cc + NumCaps(l), x, i, h);
        y := SpanComplete(s, cs, l, back, cc, w, h, k);
        IntoAll(s, l, back, cc, Results(s, r, back, cc + NumCaps(l), x), w, y);
      } else {
        var h := RelUncat(cs, s.multiline, l, r, back, i, k);
        RelInside(cs, s.multiline, l, back, i, h);
        var w := SpanComplete(s, cs, l, back, cc, x, i, h);
        y := SpanComplete(s, cs, r, back, cc + NumCaps(l), w, h, k);
        IntoAll(s, r, back, cc + NumCaps(l), Results(s, l, back, cc, x), w, y);
      }
    case Alt(l, r) =>
      AltUnfold(s, l, r, back, cc, x);
      RelAltGroup(cs, s.multiline, l, r, back, i, k);
      if Rel(cs, s.multiline, l, back, i, k) {
        y := SpanComplete(s, cs, l, back, cc, x, i, k);
      } else {
        y := SpanComplete(s, cs, r, back, cc + NumCaps(l), x, i, k);
      }
    case Group(m) =>
      GroupUnfold(s, m, back, cc, x);
      var (a, b) := if back then (2 * cc + 1, 2 * cc) else (2 * cc, 2 * cc + 1);
      RelAltGroup(cs, s.multiline, m, m, back, i, k);
      var w := SpanComplete(s, cs, m, back, cc + 1, SetCap(x, a), i, k);
      IntoSet(Results(s, m, back, cc + 1, SetCap(x, a)), b, w);
      y := SetCap(w, b);
    case Look(neg, b, m) =>
      LookUnfold(s, neg, b, m, back, cc, x);
      LookSound(s, cs, neg, b, m, back, cc, x, i);
      LookStays(cs, s.multiline, neg, b, m, back, i, k);
      y := if neg then x else x.(caps := Results(s, m, b, cc, x)[0].caps);
    case Quant(m, min, max, greedy) =>
      QuantUnfold(s, n, back, cc, x);
      y := QuantComplete(s, cs, m, back, cc, min, max, greedy, x, i, k);
    case BackReference(_) =>
      assert false;
    case _ =>
      y := LeafComplete(s, cs, n, back, cc, x, i, k);
  }

  lemma {:induction false} QuantComplete(s: Subject, cs: seq<nat>, m: Node, back: bool, cc: nat, min: nat, max: Option<nat>, greedy: bool,
                                         x: State, i: nat, k: nat) returns (y: State)
    requires AtChar(s, cs, x, i) && RefFree(m) && Rel(cs, s.multiline, Quant(m, min, max, greedy), back, i, k)
    ensures AtChar(s, cs, y, k) && (max.Some? ==> min <= max.value)
    ensures y in IterEach(s, m, back, cc, if max.Some? then UpTo(max.value - min, greedy) else Star(greedy),
                          Iter(s, m, back, cc, Times(min), ResetAtom(m, min, cc, x)))
    decreases m, 2, 0, 0, 0
  {
    hide Iter, IterEach, Off, Text, CharsOf, RelChain, Rel, NumCaps;
    var count := RelUnquant(cs, s.multiline, m, back, min, max, greedy, i, k);
    var rep := if max.Some? then UpTo(max.value - min, greedy) else Star(greedy);
    var x0 := ResetAtom(m, min, cc, x);
    var h := RelSplit(cs, s.multiline, m, back, min, count - min, i, k);
    var w := IterComplete(s, cs, m, back, cc, Times(min), x0, i, min, h);
    y := IterComplete(s, cs, m, back, cc, rep, w, h, count - min, k);
    IntoEach(s, m, back, cc, rep, Iter(s, m, back, cc, Times(min), x0), w, y);
  }

  lemma {:induction false} RelUnquant(cs: seq<nat>, multiline: bool, m: Node, back: bool, min: nat, max: Option<nat>, greedy: bool, i: nat, k: nat)
      returns (count: nat)
    requires Rel(cs, multiline, Quant(m, min, max, greedy), back, i, k)
    ensures RelChain(cs, multiline, m, back, count, i, k) && min <= count && (max.Some? ==> count <= max.value)
  {
    hide Chain;
    var (a, b) := if back then (k, i) else (i, k);
    assert Spans(cs, multiline, Quant(m, min, max, greedy), a, b);
    count :| min <= count && (max.Some? ==> count <= max.value) && Chain(cs, multiline, m, count, a, b);
  }

  /** Every allowed number of repetitions is among the results of a loop. */
  lemma {:induction false} IterComplete(s: Subject, cs: seq<nat>, m: Node, back: bool, cc: nat, rep: Rep, x: State, i: nat, count: nat, k: nat)
      returns (y: State)
    requires AtChar(s, cs, x, i) && RefFree(m) && Allowed(rep, count) && RelChain(cs, s.multiline, m, back, count, i, k)
    ensures AtChar(s, cs, y, k) && y in Iter(s, m, back, cc, rep, x)
    decreases m, 1, count, 0, 0
  {
    hide Results, Iter, IterAll, Off, Text, CharsOf, RelChain, Rel, Remaining;
    if count == 0 {
      NoneIs(cs, s.multiline, m, back, i, k);
      y := x;
      IterUnfold(s, m, back, cc, rep, x, y);
    } else {
      var h := RelUncons(cs, s.multiline, m, back, count, i, k);
      var w := SpanComplete(s, cs, m, back, cc, x, i, h);
      if rep.Star? && Remaining(s, back, w) >= Remaining(s, back, x) {
        Stays(s, cs, m, back, x, i, w, h);
        y := IterComplete(s, cs, m, back, cc, rep, x, i, count - 1, k);
      } else {
        y := IterComplete(s, cs, m, back, cc, Fewer(rep), w, h, count - 1, k);
        IntoIterAll(s, m, back, cc, Fewer(rep), x, Results(s, m, back, cc, x), w, y);
        IterUnfold(s, m, back, cc, rep, x, y);
      }
    }
  }

  lemma {:induction false} NoneIs(cs: seq<nat>, multiline: bool, m: Node, back: bool, i: nat, k: nat)
    requires RelChain(cs, multiline, m, back, 0, i, k)
    ensures i == k
  {
  }

  /** An iteration after which no less remains leads back to where it began. */
  lemma {:induction false} Stays(s: Subject, cs: seq<nat>, m: Node, back: bool, x: State, i: nat, w: State, h: nat)
    requires AtChar(s, cs, x, i) && AtChar(s, cs, w, h) && Rel(cs, s.multiline, m, back, i, h)
    requires Remaining(s, back, w) >= Remaining(s, back, x)
    ensures h == i
  {
    hide Off, Text, Spans;
    OffOrder(cs, h, i);
    OffOrder(cs, i, h);
    if back {
      SpanOrder(cs, s.multiline, m, h, i);
    } else {
      SpanOrder(cs, s.multiline, m, i, h);
    }
  }

  lemma {:induction false} IntoIterAll(s: Subject, m: Node, back: bool, cc: nat, rep: Rep, x: State, ys: seq<State>, w: State, y: State)
    requires w in ys && y in Iter(s, m, back, cc, rep, w) && !(rep.Star? && Remaining(s, back, w) >= Remaining(s, back, x))
    ensures y in IterAll(s, m, back, cc, rep, x, ys)
    decreases |ys|
  {
    hide Iter, Remaining;
    if w != ys[0] {
      IntoIterAll(s, m, back, cc, rep, x, ys[1..], w, y);
    }
  }

  /** The ends of the results are the ends of the matches, in either direction. */
  lemma {:induction false} EndsAreSpans(s: Subject, cs: seq<nat>, n: Node, back: bool, cc: nat, x: State, i: nat, k: nat)
    requires AtChar(s, cs, x, i) && RefFree(n) && k <= |cs|
    ensures (exists y :: y in Results(s, n, back, cc, x) && y.pos == Off(cs, k)) <==>
            if back then Spans(cs, s.multiline, n, k, i) else Spans(cs, s.multiline, n, i, k)
  {
    hide Results, Spans, Off, CharsOf, Text;
    if y :| y in Results(s, n, back, cc, x) && y.pos == Off(cs, k) {
      var k' := SpanSound(s, cs, n, back, cc, x, i, y);
      OffOrder(cs, k, k');
    } else if Rel(cs, s.multiline, n, back, i, k) {
      var y := SpanComplete(s, cs, n, back, cc, x, i, k);
      assert false;
    }
  }

  /** Some match begins at i. */
  ghost predicate Begins(cs: seq<nat>, multiline: bool, n: Node, i: nat) {
    exists k: nat :: k <= |cs| && Spans(cs, multiline, n, i, k)
  }

  /** No match begins at one of the characters from i0 up to i. */
  ghost predicate NoSpan(cs: seq<nat>, multiline: bool, n: Node, i0: nat, i: nat) {
    forall h: nat :: i0 <= h < i ==> !Begins(cs, multiline, n, h)
  }

  /** The units from `start` to `end` are a match, and none begins further left from character i0 on. */
  ghost predicate Leftmost(cs: seq<nat>, multiline: bool, n: Node, i0: nat, start: nat, end: nat) {
    exists i: nat, j: nat ::
      i0 <= i <= j <= |cs| && start == Off(cs, i) && end == Off(cs, j) && Spans(cs, multiline, n, i, j) && NoSpan(cs, multiline, n, i0, i)
  }

  /** The whole pattern as group 0, tried at character i. */
  lemma {:induction false} GroupAt(s: Subject, cs: seq<nat>, n: Node, x: State, i: nat) returns (j: nat)
    requires AtChar(s, cs, x, i) && RefFree(n) && |x.caps| >= 2
    ensures var rs := Results(s, Group(n), false, 0, x);
            (rs == [] <==> !Begins(cs, s.multiline, n, i)) &&
            (rs != [] ==> j <= |cs| && Spans(cs, s.multiline, n, i, j) &&
                          |rs[0].caps| == |x.caps| && rs[0].caps[0] == Some(Off(cs, i)) && rs[0].caps[1] == Some(Off(cs, j)))
  {
    hide Results, Off, Text, CharsOf, Spans;
    var rs := Results(s, Group(n), false, 0, x);
    j := 0;
    if rs != [] {
      GroupSpans(cs, s.multiline, n);
      j := SpanSound(s, cs, Group(n), false, 0, x, i, rs[0]);
      GroupRecords(s, n, false, 0, x, rs[0]);
    } else {
      if k: nat :| k <= |cs| && Spans(cs, s.multiline, n, i, k) {
        GroupSpans(cs, s.multiline, n);
        var y := SpanComplete(s, cs, Group(n), false, 0, x, i, k);
        assert false;
      }
    }
  }

  lemma {:induction false} GroupSpans(cs: seq<nat>, multiline: bool, n: Node)
    ensures forall i: nat, j: nat :: Spans(cs, multiline, Group(n), i, j) == Spans(cs, multiline, n, i, j)
  {
  }

  lemma {:induction false} AfterIsOff(s: Subject, cs: seq<nat>, i: nat, p: nat) returns (k: nat)
    requires CharsOf(s, cs) && i <= |cs| && Off(cs, i) <= |s.input| && CharAfter(s, Off(cs, i), p)
    ensures i <= k <= |cs| && p == Off(cs, k)
    decreases |cs| - i
  {
    hide Off, Text, NextPos, CharsOf;
    k := i;
    if p != Off(cs, i) {
      EndIs(s, cs);
      assert i < |cs|;
      ReadsText(s, cs, i);
      k := AfterIsOff(s, cs, i + 1, p);
    }
  }

  lemma {:induction false} EndIs(s: Subject, cs: seq<nat>)
    requires CharsOf(s, cs)
    ensures Off(cs, |cs|) == |s.input|
  {
    OffEnds(cs);
  }

  lemma {:induction false} OffIsAfter(s: Subject, cs: seq<nat>, i: nat, k: nat)
    requires CharsOf(s, cs) && i <= k <= |cs|
    ensures CharAfter(s, Off(cs, i), Off(cs, k))
    decreases k - i
  {
    hide Off, Text, NextPos, CharsOf;
    if i < k {
      ReadsText(s, cs, i);
      OffIsAfter(s, cs, i + 1, k);
    }
  }

  /**
  A whole program on a text, from character i0: it fails if and only if no match begins at or after i0,
  and else it records a match with the leftmost beginning.
  */
  lemma {:induction false} WholeMeans(s: Subject, cs: seq<nat>, n: Node, sticky: bool, i0: nat) returns (i: nat, j: nat)
    requires CharsOf(s, cs) && RefFree(n) && i0 <= |cs|
    ensures var rs := Results(s, Whole(n, sticky), false, 0, Start(n, Off(cs, i0)));
            (rs == [] <==> NoSpan(cs, s.multiline, n, i0, if sticky then i0 + 1 else |cs| + 1)) &&
            (rs != [] ==> i0 <= i <= j <= |cs| && (sticky ==> i == i0) && Spans(cs, s.multiline, n, i, j) && NoSpan(cs, s.multiline, n, i0, i) &&
                          |rs[0].caps| >= 2 && rs[0].caps[0] == Some(Off(cs, i)) && rs[0].caps[1] == Some(Off(cs, j)))
  {
    hide Results, Off, Text, CharsOf, Begins, Spans, Scan, NumCaps;
    var x := Start(n, Off(cs, i0));
    i, j := i0, i0;
    if sticky {
      j := GroupAt(s, cs, n, x, i0);
      OneBeginning(cs, s.multiline, n, i0);
    } else {
      InsideText(s, cs, i0);
      UnanchoredScans(s, n, x);
      var p := ScanLeftmost(s, n, x);
      if Scan(s, n, x) == [] {
        NoneFrom(s, cs, n, x, i0, |cs| + 1);
      } else {
        i := AfterIsOff(s, cs, i0, p);
        j := GroupAt(s, cs, n, x.(pos := p), i);
        forall h: nat | i0 <= h < i
          ensures Off(cs, h) < p
        {
          OffOrder(cs, h, i);
        }
        NoneFrom(s, cs, n, x, i0, i);
      }
    }
    if Results(s, Whole(n, sticky), false, 0, x) != [] {
      SpanOrder(cs, s.multiline, n, i, j);
    }
  }

  lemma {:induction false} OneBeginning(cs: seq<nat>, multiline: bool, n: Node, i: nat)
    ensures NoSpan(cs, multiline, n, i, i + 1) <==> !Begins(cs, multiline, n, i)
    ensures NoSpan(cs, multiline, n, i, i)
  {
    hide Begins;
  }

  lemma {:induction false} InsideText(s: Subject, cs: seq<nat>, i: nat)
    requires CharsOf(s, cs) && i <= |cs|
    ensures Off(cs, i) <= |s.input|
  {
    hide Off, Text;
    OffOrder(cs, i, i);
  }

  lemma {:induction false} NoneFrom(s: Subject, cs: seq<nat>, n: Node, x: State, i0: nat, i: nat)
    requires AtChar(s, cs, x, i0) && RefFree(n) && |x.caps| >= 2 && i <= |cs| + 1
    requires forall h: nat :: i0 <= h < i && CharAfter(s, x.pos, Off(cs, h)) ==> Results(s, Group(n), false, 0, x.(pos := Off(cs, h))) == []
    ensures NoSpan(cs, s.multiline, n, i0, i)
  {
    hide Results, Off, Text, CharsOf, Begins;
    forall h: nat | i0 <= h < i
      ensures !Begins(cs, s.multiline, n, h)
    {
      OffIsAfter(s, cs, i0, h);
      var j := GroupAt(s, cs, n, x.(pos := Off(cs, h)), h);
    }
  }
}
