/**
Patterns and their code. `Compile` gives the instructions that the one-pass compiler leaves
for a pattern: jumps are relative, so a fragment can be moved, copied and rotated freely.
*/
module ReSyntax {
  import opened ReCode

  /** What a single character is tested for. Character classes are sorted boundary points. */
  datatype Test = OneChar(c: nat) | NotLineTerm | Anything | InClass(points: seq<nat>)

  datatype Node =
    | Empty
    | Atom(t: Test)
    | BeginLine
    | EndLine
    | WordEdge(neg: bool)
    | BackReference(group: nat)
    | Cat(l: Node, r: Node)
    | Alt(l: Node, r: Node)
    | Group(n: Node)
    | Look(neg: bool, back: bool, n: Node)
    | Quant(n: Node, min: nat, max: Option<nat>, greedy: bool)

  const INFINITE: nat := 0x7fff_ffff
  const UINT32_MAX: nat := 0xffff_ffff

  /** Membership of c in the union of the intervals [p[0], p[1]), [p[2], p[3]), ... */
  predicate Member(p: seq<nat>, c: nat) {
    |p| >= 2 && (p[0] <= c < p[1] || Member(p[2..], c))
  }

  predicate Increasing(p: seq<nat>) {
    forall i, j :: 0 <= i < j < |p| ==> p[i] < p[j]
  }

  /** A character class as the range operations leave it. */
  predicate ClassOk(p: seq<nat>) {
    |p| % 2 == 0 && |p| / 2 < 65535 && Increasing(p) && forall x | x in p :: x <= UINT32_MAX
  }

  /** The closed ranges emitted for a class: the upper bound of the last one may mean infinity. */
  function ClassPairs(p: seq<nat>, wide: bool): (ps: seq<(nat, nat)>)
    requires |p| % 2 == 0
    ensures |ps| == |p| / 2
  {
    if p == [] then []
    else
      var high := if p[1] == 0 then UINT32_MAX else p[1] - 1;
      [(p[0], if !wide && high == UINT32_MAX - 1 then 0xffff else high)] + ClassPairs(p[2..], wide)
  }

  /** The opcode for a class: 16-bit ranges when every bound fits, with 0xffff for infinity. */
  function ClassCode(p: seq<nat>): Instr
    requires |p| % 2 == 0
  {
    if |p| == 0 then Char32(UINT32_MAX)
    else
      var high := if p[|p| - 1] == UINT32_MAX then p[|p| - 2] else p[|p| - 1];
      if high <= 0xffff then Range(ClassPairs(p, false)) else Range32(ClassPairs(p, true))
  }

  function TestCode(t: Test): Instr {
    match t
    case OneChar(c) => if c <= 0xffff then Char(c) else Char32(c)
    case NotLineTerm => Dot
    case Anything => AnyChar
    case InClass(p) => if |p| % 2 == 0 then ClassCode(p) else Match
  }

  /** The number of capture groups in a pattern. */
  function NumCaps(n: Node): nat {
    match n
    case Cat(l, r) => NumCaps(l) + NumCaps(r)
    case Alt(l, r) => NumCaps(l) + NumCaps(r)
    case Group(m) => 1 + NumCaps(m)
    case Look(_, _, m) => NumCaps(m)
    case Quant(m, _, _, _) => NumCaps(m)
    case _ => 0
  }

  predicate IsCharOp(i: Instr) {
    i.Char? || i.Char32? || i.Dot? || i.AnyChar? || i.Range? || i.Range32?
  }

  predicate IsBackRef(i: Instr) {
    i.BackRef? || i.BackwardBackRef?
  }

  /** Instructions that re_check_advance skips. */
  predicate NoEffect(i: Instr) {
    i.LineStart? || i.LineEnd? || i.PushI32? || i.PushCharPos? || i.Drop? || i.WordBoundary? ||
    i.NotWordBoundary? || i.Prev? || i.SaveStart? || i.SaveEnd? || i.SaveReset? || IsBackRef(i)
  }

  /** The groups that an instruction writes, as re_check_advance records them: save_reset without its last group. */
  predicate Writes(i: Instr, g: nat) {
    match i
    case SaveStart(x) => x == g
    case SaveEnd(x) => x == g
    case SaveReset(first, last) => first <= g < last
    case _ => false
  }

  /** Code that refers back to a group that it writes itself: what it does depends on its previous execution. */
  predicate SelfRefers(code: seq<Instr>) {
    exists i, j :: 0 <= i < |code| && 0 <= j < |code| && IsBackRef(code[j]) && Writes(code[i], code[j].group)
  }

  /** re_check_advance returns 1, unless the code refers to itself: the first instruction that matters reads a character. */
  predicate CheckAdvance(code: seq<Instr>) {
    code != [] && (IsCharOp(code[0]) || (NoEffect(code[0]) && CheckAdvance(code[1..])))
  }

  /** re_is_simple_quantifier: the number of characters, if only characters and assertions occur. */
  function SimpleCount(code: seq<Instr>): Option<nat> {
    if code == [] then Some(0)
    else
      var rest := SimpleCount(code[1..]);
      if rest == None then None
      else if IsCharOp(code[0]) then Some(rest.value + 1)
      else if code[0].LineStart? || code[0].LineEnd? || code[0].WordBoundary? || code[0].NotWordBoundary? then rest
      else None
  }

  function Split(greedy: bool, off: int): Instr {
    if greedy then SplitNextFirst(off) else SplitGotoFirst(off)
  }

  /** Whether an empty iteration of the atom `a` is detected at run time: re_check_advance returns 0. */
  predicate NeedsCheck(a: seq<Instr>, greedy: bool) {
    greedy && !SelfRefers(a) && !CheckAdvance(a)
  }

  /** Code for any number of repetitions of `a`. */
  function StarCode(a: seq<Instr>, greedy: bool): seq<Instr> {
    var len := CodeSize(a);
    if NeedsCheck(a, greedy) then
      [Split(greedy, len + 6), PushCharPos] + a + [BneCharPos(-(len + 11))]
    else
      [Split(greedy, len + 5)] + a + [Goto(-(len + 10))]
  }

  /** Code for at most k repetitions of `a`. */
  function UpToCode(a: seq<Instr>, k: nat, greedy: bool): seq<Instr> {
    var len := CodeSize(a);
    [PushI32(k), Split(greedy, len + 5)] + a + [Loop(-(len + 10)), Drop]
  }

  /** Code for exactly k >= 1 repetitions of `a`. */
  function TimesCode(a: seq<Instr>, k: nat): seq<Instr> {
    if k == 1 then a else [PushI32(k)] + a + [Loop(-(CodeSize(a) + 5)), Drop]
  }

  function QuantCode(a: seq<Instr>, min: nat, max: Option<nat>, greedy: bool, reset: seq<Instr>): seq<Instr> {
    var len := CodeSize(a);
    var simple := SimpleCount(a);
    if greedy && max != Some(0) && simple.Some? && simple.value > 0 then
      [SimpleGreedy(len + 1, min, if max.Some? then max.value else INFINITE, simple.value)] + a + [Match]
    else if min == 0 then
      if max == Some(0) then reset
      else if max == Some(1) then reset + ([Split(greedy, len)] + a)
      else if max == None then reset + StarCode(a, greedy)
      else reset + UpToCode(a, max.value, greedy)
    else if min == 1 && max == None && !NeedsCheck(a, greedy) then
      a + [if greedy then SplitGotoFirst(-(len + 5)) else SplitNextFirst(-(len + 5))]
    else
      TimesCode(a, min) +
      (if max == None then StarCode(a, greedy)
       else if max.value > min then UpToCode(a, max.value - min, greedy)
       else [])
  }

  /** The code of a pattern, in the direction of matching, with `cc` the next capture index. */
  function Compile(n: Node, back: bool, cc: nat): seq<Instr> {
    match n
    case Empty => []
    case Atom(t) => if back then [Prev, TestCode(t), Prev] else [TestCode(t)]
    case BeginLine => [LineStart]
    case EndLine => [LineEnd]
    case WordEdge(neg) => [if neg then NotWordBoundary else WordBoundary]
    case BackReference(g) => [if back then BackwardBackRef(g) else BackRef(g)]
    case Cat(l, r) =>
      var cl, cr := Compile(l, back, cc), Compile(r, back, cc + NumCaps(l));
      if back then cr + cl else cl + cr
    case Alt(l, r) =>
      var cl, cr := Compile(l, back, cc), Compile(r, back, cc + NumCaps(l));
      [SplitNextFirst(CodeSize(cl) + 5)] + cl + [Goto(CodeSize(cr))] + cr
    case Group(m) =>
      if back then [SaveEnd(cc)] + Compile(m, back, cc + 1) + [SaveStart(cc)]
      else [SaveStart(cc)] + Compile(m, back, cc + 1) + [SaveEnd(cc)]
    case Look(neg, b, m) =>
      var a := Compile(m, b, cc);
      [if neg then NegLookahead(CodeSize(a) + 1) else Lookahead(CodeSize(a) + 1)] + a + [Match]
    case Quant(m, min, max, greedy) =>
      QuantCode(Compile(m, back, cc), min, max, greedy, ResetCode(m, min, cc))
  }

  /** Captures of an atom that may not be executed are reset once, before the loop. */
  function ResetCode(m: Node, min: nat, cc: nat): seq<Instr> {
    if min == 0 && NumCaps(m) > 0 then [SaveReset(cc, cc + NumCaps(m) - 1)] else []
  }

  /** The whole program: an unanchored pattern is preceded by a lazy loop over any character. */
  function Whole(n: Node, sticky: bool): Node {
    if sticky then Group(n) else Cat(Quant(Atom(Anything), 0, None, false), Group(n))
  }

  function Program(n: Node, sticky: bool): seq<Instr> {
    Compile(Whole(n, sticky), false, 0) + [Match]
  }

  /** Patterns that cannot match the empty string. */
  predicate NonEmpty(n: Node) {
    match n
    case Atom(_) => true
    case Cat(l, r) => NonEmpty(l) || NonEmpty(r)
    case Alt(l, r) => NonEmpty(l) && NonEmpty(r)
    case Group(m) => NonEmpty(m)
    case Quant(m, min, _, _) => min > 0 && NonEmpty(m)
    case _ => false
  }

  /** Every iteration of the atom m moves on. */
  predicate Progresses(m: Node, back: bool, cc: nat) {
    CheckAdvance(Compile(m, back, cc)) || NonEmpty(m)
  }

  /** Operands in range, as the parser leaves them. */
  predicate OperandsOk(n: Node) {
    match n
    case Atom(OneChar(c)) => c <= UINT32_MAX
    case Atom(InClass(p)) => ClassOk(p)
    case Cat(l, r) => OperandsOk(l) && OperandsOk(r)
    case Alt(l, r) => OperandsOk(l) && OperandsOk(r)
    case Group(m) => OperandsOk(m)
    case Look(_, _, m) => OperandsOk(m)
    case Quant(m, min, max, _) => OperandsOk(m) && min < INFINITE && (max.Some? ==> min <= max.value < INFINITE)
    case _ => true
  }

  /**
  Patterns with operands in range whose unbounded loops without a run-time check (the lazy ones,
  and those that refer back to their own groups) only have iterations that move on.
  */
  predicate NodeOk(n: Node, back: bool, cc: nat) {
    match n
    case Atom(OneChar(c)) => c <= UINT32_MAX
    case Atom(InClass(p)) => ClassOk(p)
    case Cat(l, r) => NodeOk(l, back, cc) && NodeOk(r, back, cc + NumCaps(l))
    case Alt(l, r) => NodeOk(l, back, cc) && NodeOk(r, back, cc + NumCaps(l))
    case Group(m) => NodeOk(m, back, cc + 1)
    case Look(_, b, m) => NodeOk(m, b, cc)
    case Quant(m, min, max, greedy) =>
      NodeOk(m, back, cc) && min < INFINITE && (max.Some? ==> min <= max.value < INFINITE)
      && (max == None && !NeedsCheck(Compile(m, back, cc), greedy) ==> Progresses(m, back, cc))
    case _ => true
  }
}
