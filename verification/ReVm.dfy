/** The backtracking virtual machine that runs the bytecode. */
module ReVm {
  import opened ReCode
  import opened ReSyntax
  import opened ReMatch

  datatype FrameKind = SplitFrame | LookFrame | NegLookFrame | GreedyFrame(count: nat)

  /** A saved state on the backtrack stack. */
  datatype Frame = Frame(kind: FrameKind, pc: nat, pos: nat, caps: seq<Option<nat>>, stack: seq<nat>)

  /**
  The machine: running, unwinding the backtrack stack after a failure or after a match,
  halted, or stuck (what the C code must never do: an invalid opcode, counter-stack under- or
  overflow, a capture index out of range, stepping back before the subject).
  */
  datatype Vm =
    | Run(pc: nat, pos: nat, caps: seq<Option<nat>>, stack: seq<nat>, bt: seq<Frame>)
    | Fail(bt: seq<Frame>)
    | Won(caps: seq<Option<nat>>, bt: seq<Frame>)
    | Halt(matched: bool, caps: seq<Option<nat>>)
    | Stuck

  /** Counters are machine words. */
  const WORD: nat := 0x1_0000_0000_0000_0000

  /** Code, subject and the size of the counter stack allocated from the header. */
  datatype Env = Env(code: seq<Byte>, s: Subject, maxStack: nat)

  function Fetch(code: seq<Byte>, pc: nat): Option<Instr> {
    if pc <= |code| then Decode(code[pc..]) else None
  }

  /** Binary search over the closed ranges lo..hi - 1. */
  predicate Search(pairs: seq<(nat, nat)>, c: nat, lo: nat, hi: nat)
    requires lo <= hi <= |pairs|
    decreases hi - lo
  {
    if lo == hi then false
    else
      var mid := (lo + (hi - 1)) / 2;
      if c < pairs[mid].0 then Search(pairs, c, lo, mid)
      else if c > pairs[mid].1 then Search(pairs, c, mid + 1, hi)
      else true
  }

  predicate RangeTest(pairs: seq<(nat, nat)>, c: nat, wide: bool) {
    |pairs| > 0 && pairs[0].0 <= c &&
    ((!wide && c >= 0xffff && pairs[|pairs| - 1].1 == 0xffff) ||
     (c <= pairs[|pairs| - 1].1 && Search(pairs, c, 0, |pairs|)))
  }

  /** Whether a character opcode accepts c. */
  predicate CharTest(i: Instr, c: nat)
    requires IsCharOp(i)
  {
    match i
    case Char(x) => c == x
    case Char32(x) => c == x
    case Dot => !IsLineTerm(c)
    case AnyChar => true
    case Range(ps) => RangeTest(ps, c, false)
    case Range32(ps) => RangeTest(ps, c, true)
  }

  predicate IsAssertOp(i: Instr) {
    i.LineStart? || i.LineEnd? || i.WordBoundary? || i.NotWordBoundary?
  }

  predicate AssertTest(i: Instr, s: Subject, pos: nat)
    requires IsAssertOp(i) && pos <= |s.input|
  {
    match i
    case LineStart => AtLineStart(s, pos)
    case LineEnd => AtLineEnd(s, pos)
    case WordBoundary => AtWordEdge(s, pos)
    case NotWordBoundary => !AtWordEdge(s, pos)
  }

  /** The non-recursive execution of a simple atom up to its `match`: the end position, if it matches. */
  function RunSimple(e: Env, pc: nat, pos: nat): Option<nat>
    requires pos <= |e.s.input|
    ensures RunSimple(e, pc, pos).Some? ==> RunSimple(e, pc, pos).value <= |e.s.input|
    decreases |e.code| - pc
  {
    var f := Fetch(e.code, pc);
    if f == None || pc >= |e.code| then None
    else
      var i := f.value;
      if i == Match then Some(pos)
      else if IsCharOp(i) then
        if pos < |e.s.input| && CharTest(i, GetChar(e.s, pos)) then RunSimple(e, pc + Size(i), NextPos(e.s, pos))
        else None
      else if IsAssertOp(i) then
        if AssertTest(i, e.s, pos) then RunSimple(e, pc + Size(i), pos) else None
      else None
  }

  /** Repeats the atom as often as possible, at most `max` times in all; q is the count so far. */
  function RunGreedy(e: Env, pc: nat, pos: nat, q: nat, max: nat): (r: (nat, nat))
    requires pos <= |e.s.input|
    ensures r.0 <= |e.s.input| && r.1 >= q
    decreases |e.s.input| - pos
  {
    var r := RunSimple(e, pc, pos);
    if r == None then (pos, q)
    else if q + 1 >= max && max != INFINITE then (r.value, q + 1)
    else if r.value <= pos then (r.value, q + 1)
    else RunGreedy(e, pc, r.value, q + 1, max)
  }

  /** Whether there are `count` characters before `pos`: the C code does not check. */
  predicate CanGoBack(s: Subject, pos: nat, count: nat)
    requires pos <= |s.input|
  {
    count == 0 || (pos > 0 && CanGoBack(s, PrevPos(s, pos), count - 1))
  }

  /** The position `count` characters before `pos`. */
  function GoBack(s: Subject, pos: nat, count: nat): (p: nat)
    requires pos <= |s.input|
    ensures p <= |s.input|
  {
    if count == 0 || pos == 0 then pos else GoBack(s, PrevPos(s, pos), count - 1)
  }

  function Jump(pc: nat, i: Instr, off: int): int {
    pc + Size(i) + off
  }

  function RunAt(pc: int, pos: nat, caps: seq<Option<nat>>, stack: seq<nat>, bt: seq<Frame>): Vm {
    if pc < 0 then Stuck else Run(pc, pos, caps, stack, bt)
  }

  /** One instruction. */
  function StepRun(e: Env, vm: Vm): Vm
    requires vm.Run?
  {
    var Run(pc, pos, caps, stack, bt) := vm;
    var f := Fetch(e.code, pc);
    if f == None || pos > |e.s.input| then Stuck
    else
      var i := f.value;
      var next := pc + Size(i);
      if IsCharOp(i) then
        if pos < |e.s.input| && CharTest(i, GetChar(e.s, pos)) then Run(next, NextPos(e.s, pos), caps, stack, bt)
        else Fail(bt)
      else if IsAssertOp(i) then
        if AssertTest(i, e.s, pos) then Run(next, pos, caps, stack, bt) else Fail(bt)
      else StepControl(e, vm, i)
  }

  /** A back reference: the captured text must lie in the subject. */
  function StepBackRef(e: Env, vm: Vm, g: nat, back: bool): Vm
    requires vm.Run? && vm.pos <= |e.s.input|
  {
    var text, p := Captured(vm.caps, g), RefersTo(e.s, g, back, State(vm.pos, vm.caps));
    if text.Some? && (text.value.0 > |e.s.input| || text.value.1 > |e.s.input|) then Stuck
    else if p == None then Fail(vm.bt)
    else vm.(pc := vm.pc + 2, pos := p.value)
  }

  /** Jumps, captures, counters and the greedy loop. */
  function StepControl(e: Env, vm: Vm, i: Instr): Vm
    requires vm.Run? && vm.pos <= |e.s.input|
  {
    var Run(pc, pos, caps, stack, bt) := vm;
    var next := pc + Size(i);
    match i
    case Match => Won(caps, bt)
    case Goto(o) => RunAt(Jump(pc, i, o), pos, caps, stack, bt)
    case SplitGotoFirst(o) =>
      RunAt(Jump(pc, i, o), pos, caps, stack, [Frame(SplitFrame, next, pos, caps, stack)] + bt)
    case SplitNextFirst(o) =>
      if Jump(pc, i, o) < 0 then Stuck
      else Run(next, pos, caps, stack, [Frame(SplitFrame, Jump(pc, i, o), pos, caps, stack)] + bt)
    case Lookahead(o) =>
      if Jump(pc, i, o) < 0 then Stuck
      else Run(next, pos, caps, stack, [Frame(LookFrame, Jump(pc, i, o), pos, caps, stack)] + bt)
    case NegLookahead(o) =>
      if Jump(pc, i, o) < 0 then Stuck
      else Run(next, pos, caps, stack, [Frame(NegLookFrame, Jump(pc, i, o), pos, caps, stack)] + bt)
    case SaveStart(k) =>
      if 2 * k + 1 < |caps| then Run(next, pos, caps[2 * k := Some(pos)], stack, bt) else Stuck
    case SaveEnd(k) =>
      if 2 * k + 1 < |caps| then Run(next, pos, caps[2 * k + 1 := Some(pos)], stack, bt) else Stuck
    case SaveReset(a, b) =>
      if 2 * b + 1 < |caps| then Run(next, pos, ResetCaps(State(pos, caps), a, b).caps, stack, bt) else Stuck
    case PushI32(v) =>
      if |stack| < e.maxStack then Run(next, pos, caps, stack + [v], bt) else Stuck
    case PushCharPos =>
      if |stack| < e.maxStack then Run(next, pos, caps, stack + [pos], bt) else Stuck
    case Drop => if |stack| == 0 then Stuck else Run(next, pos, caps, stack[..|stack| - 1], bt)
    case Loop(o) =>
      if |stack| == 0 then Stuck
      else
        var top := stack[|stack| - 1];
        var k := if top == 0 then WORD - 1 else top - 1;
        RunAt(if k != 0 then Jump(pc, i, o) else next, pos, caps, stack[|stack| - 1 := k], bt)
    case BneCharPos(o) =>
      if |stack| == 0 then Stuck
      else
        RunAt(if stack[|stack| - 1] != pos then Jump(pc, i, o) else next, pos, caps, stack[..|stack| - 1], bt)
    case BackRef(g) => StepBackRef(e, vm, g, false)
    case BackwardBackRef(g) => StepBackRef(e, vm, g, true)
    case Prev => if pos == 0 then Fail(bt) else Run(next, PrevPos(e.s, pos), caps, stack, bt)
    case SimpleGreedy(o, min, max, _) =>
      var (p, q) := RunGreedy(e, next, pos, 0, max);
      if Jump(pc, i, o) < 0 then Stuck
      else if q < min then Fail(bt)
      else
        Run(Jump(pc, i, o), p, caps, stack,
            (if q > min then [Frame(GreedyFrame(q - min), pc, p, caps, stack)] else []) + bt)
    case _ => Stuck
  }

  /** Resuming a greedy loop with one iteration less. */
  function StepGreedy(e: Env, fr: Frame, rest: seq<Frame>): Vm
    requires fr.kind.GreedyFrame?
  {
    var f := Fetch(e.code, fr.pc);
    if f == None || !f.value.SimpleGreedy? || fr.kind.count == 0 ||
       fr.pos > |e.s.input| || !CanGoBack(e.s, fr.pos, f.value.count) then Stuck
    else
      var i := f.value;
      var p := GoBack(e.s, fr.pos, i.count);
      var bt := (if fr.kind.count == 1 then [] else [fr.(kind := GreedyFrame(fr.kind.count - 1), pos := p)]) + rest;
      RunAt(Jump(fr.pc, i, i.next), p, fr.caps, fr.stack, bt)
  }

  /** One step of the machine. */
  function Step(e: Env, vm: Vm): Vm {
    match vm
    case Run(_, _, _, _, _) => StepRun(e, vm)
    case Fail(bt) =>
      if bt == [] then Halt(false, [])
      else
        var fr, rest := bt[0], bt[1..];
        match fr.kind {
          case SplitFrame => Run(fr.pc, fr.pos, fr.caps, fr.stack, rest)
          case GreedyFrame(_) => StepGreedy(e, fr, rest)
          case LookFrame => Fail(rest)
          case NegLookFrame => Run(fr.pc, fr.pos, fr.caps, fr.stack, rest)
        }
    case Won(caps, bt) =>
      if bt == [] then Halt(true, caps)
      else
        var fr, rest := bt[0], bt[1..];
        match fr.kind {
          case LookFrame => Run(fr.pc, fr.pos, caps, fr.stack, rest)
          case NegLookFrame => Fail(rest)
          case _ => Won(caps, rest)
        }
    case Halt(_, _) => vm
    case Stuck => vm
  }

  function StepN(e: Env, vm: Vm, n: nat): Vm
    decreases n
  {
    if n == 0 then vm else StepN(e, Step(e, vm), n - 1)
  }
}
