/**
What a pattern matches: the list of end states reachable from a state, in order of
preference. Loops follow the compiled code, which leaves a loop after an empty iteration.
*/
module ReMatch {
  import opened ReCode
  import opened ReSyntax

  /** The subject as 8- or 16-bit units; surrogate pairs count as one character when `utf16`. */
  datatype Subject = Subject(input: seq<nat>, utf16: bool, multiline: bool)

  /** A position and the capture positions: start of group i at 2*i, end at 2*i + 1. */
  datatype State = State(pos: nat, caps: seq<Option<nat>>)

  predicate IsHigh(c: nat) { 0xd800 <= c < 0xdc00 }
  predicate IsLow(c: nat) { 0xdc00 <= c < 0xe000 }

  predicate PairAt(s: Subject, pos: nat) {
    s.utf16 && pos + 1 < |s.input| && IsHigh(s.input[pos]) && IsLow(s.input[pos + 1])
  }

  /** The character at a position, and the position after it. */
  function GetChar(s: Subject, pos: nat): nat
    requires pos < |s.input|
  {
    if PairAt(s, pos) then (s.input[pos] - 0xd800) * 0x400 + (s.input[pos + 1] - 0xdc00) + 0x1_0000
    else s.input[pos]
  }

  function NextPos(s: Subject, pos: nat): (p: nat)
    requires pos < |s.input|
    ensures pos < p <= |s.input|
  {
    if PairAt(s, pos) then pos + 2 else pos + 1
  }

  /** The position before the previous character. */
  function PrevPos(s: Subject, pos: nat): (p: nat)
    requires 0 < pos <= |s.input|
    ensures p < pos
  {
    if pos >= 2 && PairAt(s, pos - 2) then pos - 2 else pos - 1
  }

  /** The character before a position. */
  function PeekPrev(s: Subject, pos: nat): nat
    requires 0 < pos <= |s.input|
  {
    if pos >= 2 && PairAt(s, pos - 2) then GetChar(s, pos - 2) else s.input[pos - 1]
  }

  /** Not in the middle of a surrogate pair. */
  predicate Boundary(s: Subject, pos: nat) {
    pos <= |s.input| && !(pos >= 1 && PairAt(s, pos - 1))
  }

  predicate IsLineTerm(c: nat) {
    c == 10 || c == 13 || c == 0x2028 || c == 0x2029
  }

  predicate IsWordChar(c: nat) {
    48 <= c <= 57 || 97 <= c <= 122 || 65 <= c <= 90 || c == 95
  }

  predicate Accepts(t: Test, c: nat) {
    match t
    case OneChar(x) => c == x
    case NotLineTerm => !IsLineTerm(c)
    case Anything => true
    case InClass(p) => Member(p, c)
  }

  predicate AtLineStart(s: Subject, pos: nat)
    requires pos <= |s.input|
  {
    pos == 0 || (s.multiline && IsLineTerm(PeekPrev(s, pos)))
  }

  predicate AtLineEnd(s: Subject, pos: nat)
    requires pos <= |s.input|
  {
    pos == |s.input| || (s.multiline && IsLineTerm(GetChar(s, pos)))
  }

  predicate AtWordEdge(s: Subject, pos: nat)
    requires pos <= |s.input|
  {
    (pos > 0 && IsWordChar(PeekPrev(s, pos))) != (pos < |s.input| && IsWordChar(GetChar(s, pos)))
  }

  function SetCap(x: State, i: nat): State {
    if i < |x.caps| then x.(caps := x.caps[i := Some(x.pos)]) else x
  }

  /** The captures of groups first..last, forgotten. */
  function ResetCaps(x: State, first: nat, last: nat): State {
    x.(caps := seq(|x.caps|, i requires 0 <= i < |x.caps| =>
                             if 2 * first <= i <= 2 * last + 1 then None else x.caps[i]))
  }

  function ResetAtom(m: Node, min: nat, cc: nat, x: State): State {
    if min == 0 && NumCaps(m) > 0 then ResetCaps(x, cc, cc + NumCaps(m) - 1) else x
  }

  /** The captured text from p up to `end`, compared with the subject from q on: where the comparison ends. */
  function SameForward(s: Subject, p: nat, end: nat, q: nat): Option<nat>
    requires end <= |s.input|
    decreases |s.input| - q
  {
    if p >= end then Some(q)
    else if q >= |s.input| then None
    else
      var text := s.(input := s.input[..end]);
      if GetChar(text, p) != GetChar(s, q) then None else SameForward(s, NextPos(text, p), end, NextPos(s, q))
  }

  /** The character before p, in a text that begins at `start`, and the position before it. */
  function PrevFrom(s: Subject, start: nat, p: nat): (r: (nat, nat))
    requires start < p <= |s.input|
    ensures r.1 < p
  {
    if p >= start + 2 && PairAt(s, p - 2) then (GetChar(s, p - 2), p - 2) else (s.input[p - 1], p - 1)
  }

  /** The captured text from `start` to p, compared backwards with the subject before q. */
  function SameBackward(s: Subject, start: nat, p: nat, q: nat): Option<nat>
    requires p <= |s.input| && q <= |s.input|
    decreases p
  {
    if p <= start then Some(q)
    else if q == 0 then None
    else
      var (c1, p1) := PrevFrom(s, start, p);
      var (c2, q1) := PrevFrom(s, 0, q);
      if c1 != c2 then None else SameBackward(s, start, p1, q1)
  }

  /** Both ends of group g, if they are set. */
  function Captured(caps: seq<Option<nat>>, g: nat): Option<(nat, nat)> {
    if 2 * g + 1 < |caps| && caps[2 * g].Some? && caps[2 * g + 1].Some? then Some((caps[2 * g].value, caps[2 * g + 1].value))
    else None
  }

  /** Where a back reference to group g ends; a group that is not set matches the empty string. */
  function RefersTo(s: Subject, g: nat, back: bool, x: State): Option<nat> {
    if x.pos > |s.input| || 2 * g + 1 >= |x.caps| then None
    else
      match Captured(x.caps, g)
      case None => Some(x.pos)
      case Some((a, b)) =>
        if b > |s.input| then None
        else if back then SameBackward(s, a, b, x.pos) else SameForward(s, a, b, x.pos)
  }

  /** How many units are left in the direction of matching. */
  function Remaining(s: Subject, back: bool, x: State): nat {
    if back then x.pos else if x.pos <= |s.input| then |s.input| - x.pos else 0
  }

  /** How the atom of a loop is repeated. */
  datatype Rep = Times(k: nat) | UpTo(k: nat, greedy: bool) | Star(greedy: bool)

  function RepMeasure(s: Subject, back: bool, rep: Rep, x: State): nat {
    if rep.Star? then Remaining(s, back, x) else rep.k
  }

  /** All results of matching `n` from `x`, best first. */
  function Results(s: Subject, n: Node, back: bool, cc: nat, x: State): seq<State>
    decreases n, 0, 0, 0, 0
  {
    match n
    case Empty => [x]
    case Atom(t) =>
      if x.pos > |s.input| then []
      else if back then
        if x.pos > 0 && Accepts(t, GetChar(s, PrevPos(s, x.pos))) then [x.(pos := PrevPos(s, x.pos))] else []
      else if x.pos < |s.input| && Accepts(t, GetChar(s, x.pos)) then [x.(pos := NextPos(s, x.pos))] else []
    case BeginLine => if x.pos <= |s.input| && AtLineStart(s, x.pos) then [x] else []
    case EndLine => if x.pos <= |s.input| && AtLineEnd(s, x.pos) then [x] else []
    case WordEdge(neg) => if x.pos <= |s.input| && AtWordEdge(s, x.pos) != neg then [x] else []
    case BackReference(g) =>
      var p := RefersTo(s, g, back, x);
      if p.Some? then [x.(pos := p.value)] else []
    case Cat(l, r) =>
      if back then ResultsAll(s, l, back, cc, Results(s, r, back, cc + NumCaps(l), x))
      else ResultsAll(s, r, back, cc + NumCaps(l), Results(s, l, back, cc, x))
    case Alt(l, r) => Results(s, l, back, cc, x) + Results(s, r, back, cc + NumCaps(l), x)
    case Group(m) =>
      var (i, j) := if back then (2 * cc + 1, 2 * cc) else (2 * cc, 2 * cc + 1);
      SetAll(Results(s, m, back, cc + 1, SetCap(x, i)), j)
    case Look(neg, b, m) =>
      var rs := Results(s, m, b, cc, x);
      if neg then (if rs == [] then [x] else [])
      else if rs == [] then [] else [x.(caps := rs[0].caps)]
    case Quant(m, min, max, greedy) =>
      var x0 := ResetAtom(m, min, cc, x);
      var first := Iter(s, m, back, cc, Times(min), x0);
      if max == None then IterEach(s, m, back, cc, Star(greedy), first)
      else if max.value >= min then IterEach(s, m, back, cc, UpTo(max.value - min, greedy), first)
      else []
  }

  function ResultsAll(s: Subject, n: Node, back: bool, cc: nat, xs: seq<State>): seq<State>
    decreases n, 1, 0, 0, |xs|
  {
    if xs == [] then [] else Results(s, n, back, cc, xs[0]) + ResultsAll(s, n, back, cc, xs[1..])
  }

  function SetAll(xs: seq<State>, i: nat): (ys: seq<State>)
    ensures |ys| == |xs|
  {
    if xs == [] then [] else [SetCap(xs[0], i)] + SetAll(xs[1..], i)
  }

  /** Repetitions of the atom `m` from `x`. */
  function Iter(s: Subject, m: Node, back: bool, cc: nat, rep: Rep, x: State): seq<State>
    decreases m, 1, RepMeasure(s, back, rep, x), if rep.Star? then 2 else 0, 0
  {
    match rep
    case Times(k) =>
      if k == 0 then [x] else IterAll(s, m, back, cc, Times(k - 1), x, Results(s, m, back, cc, x))
    case UpTo(k, greedy) =>
      if k == 0 then [x]
      else
        var more := IterAll(s, m, back, cc, UpTo(k - 1, greedy), x, Results(s, m, back, cc, x));
        if greedy then more + [x] else [x] + more
    case Star(greedy) =>
      var more := IterAll(s, m, back, cc, rep, x, Results(s, m, back, cc, x));
      if greedy then more + [x] else [x] + more
  }

  /** The next repetition after one iteration from `x` to each of `ys`. */
  function IterAll(s: Subject, m: Node, back: bool, cc: nat, rep: Rep, x: State, ys: seq<State>): seq<State>
    decreases m, 1, RepMeasure(s, back, rep, x), 1, |ys|
  {
    if ys == [] then []
    else
      (if rep.Star? && Remaining(s, back, ys[0]) >= Remaining(s, back, x) then [ys[0]]
       else Iter(s, m, back, cc, rep, ys[0]))
      + IterAll(s, m, back, cc, rep, x, ys[1..])
  }

  function IterEach(s: Subject, m: Node, back: bool, cc: nat, rep: Rep, xs: seq<State>): seq<State>
    decreases m, 2, 0, 0, |xs|
  {
    if xs == [] then [] else Iter(s, m, back, cc, rep, xs[0]) + IterEach(s, m, back, cc, rep, xs[1..])
  }
}
