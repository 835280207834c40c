/** The interpreter loop: registers, counter stack and backtrack stack updated in place. */
module ReExec {
  import opened ReCode
  import opened ReSyntax
  import opened ReMatch
  import opened ReVm
  import opened ReRun
  import opened ReCorrect
  import opened ReText
  import opened ReProgram

  /** Where the dispatch of an opcode goes. */
  datatype Status = Next | NoMatch | Matched

  /** Binary search between idx_min and idx_max; the first range is known not to lie above c. */
  method SearchRange(pairs: seq<(nat, nat)>, c: nat) returns (found: bool)
    requires |pairs| > 0 && pairs[0].0 <= c
    ensures found == Search(pairs, c, 0, |pairs|)
  {
    var idxMin, idxMax: nat := 0, |pairs| - 1;
    while idxMin <= idxMax
      invariant idxMin <= idxMax + 1 <= |pairs|
      invariant Search(pairs, c, 0, |pairs|) == Search(pairs, c, idxMin, idxMax + 1)
      decreases idxMax + 1 - idxMin
    {
      var idx := (idxMin + idxMax) / 2;
      if c < pairs[idx].0 {
        idxMax := idx - 1;
      } else if c > pairs[idx].1 {
        idxMin := idx + 1;
      } else {
        return true;
      }
    }
    return false;
  }

  /** Whether a character opcode accepts c. */
  method TestChar(i: Instr, c: nat) returns (ok: bool)
    requires IsCharOp(i)
    ensures ok == CharTest(i, c)
  {
    match i
    case Char(x) => ok := c == x;
    case Char32(x) => ok := c == x;
    case Dot => ok := !IsLineTerm(c);
    case AnyChar => ok := true;
    case Range(ps) =>
      if |ps| == 0 || c < ps[0].0 {
        ok := false;
      } else if c >= 0xffff && ps[|ps| - 1].1 == 0xffff {
        ok := true;
      } else if c > ps[|ps| - 1].1 {
        ok := false;
      } else {
        ok := SearchRange(ps, c);
      }
    case Range32(ps) =>
      if |ps| == 0 || c < ps[0].0 || c > ps[|ps| - 1].1 {
        ok := false;
      } else {
        ok := SearchRange(ps, c);
      }
  }

  /** The interpreter without backtracking, used for the body of a greedy loop. */
  method RunAtom(e: Env, pc0: nat, pos0: nat) returns (r: Option<nat>)
    requires pos0 <= |e.s.input|
    ensures r == RunSimple(e, pc0, pos0)
  {
    hide Fetch, CharTest, AssertTest, GetChar, Size;
    var pc: nat, pos: nat := pc0, pos0;
    while true
      invariant pos <= |e.s.input| && RunSimple(e, pc0, pos0) == RunSimple(e, pc, pos)
      decreases |e.code| - pc
    {
      var f := Fetch(e.code, pc);
      if f == None || pc >= |e.code| {
        return None;
      }
      var i := f.value;
      if i == Match {
        return Some(pos);
      } else if IsCharOp(i) {
        if pos >= |e.s.input| {
          return None;
        }
        var ok := TestChar(i, GetChar(e.s, pos));
        if !ok {
          return None;
        }
        pos := NextPos(e.s, pos);
      } else if IsAssertOp(i) {
        if !AssertTest(i, e.s, pos) {
          return None;
        }
      } else {
        return None;
      }
      pc := pc + Size(i);
    }
  }

  /** As many iterations as possible, at most max. */
  method RunLoop(e: Env, pc: nat, pos0: nat, max: nat) returns (pos: nat, q: nat)
    requires pos0 <= |e.s.input|
    ensures (pos, q) == RunGreedy(e, pc, pos0, 0, max)
  {
    pos, q := pos0, 0;
    while true
      invariant pos <= |e.s.input| && RunGreedy(e, pc, pos0, 0, max) == RunGreedy(e, pc, pos, q, max)
      decreases |e.s.input| - pos
    {
      var r := RunAtom(e, pc, pos);
      if r == None {
        return;
      }
      var before := pos;
      pos, q := r.value, q + 1;
      if (q >= max && max != INFINITE) || pos <= before {
        return;
      }
    }
  }

  /** Steps back over `count` characters. */
  method StepBack(s: Subject, pos0: nat, count: nat) returns (pos: nat)
    requires pos0 <= |s.input| && CanGoBack(s, pos0, count)
    ensures pos == GoBack(s, pos0, count)
  {
    pos := pos0;
    var i := 0;
    while i < count
      invariant i <= count && pos <= |s.input| && CanGoBack(s, pos, count - i)
      invariant GoBack(s, pos0, count) == GoBack(s, pos, count - i)
    {
      pos := PrevPos(s, pos);
      i := i + 1;
    }
  }

  /** Compares the captured text with what follows: the end of the comparison, if it succeeds. */
  method CompareForward(s: Subject, start: nat, end: nat, pos: nat) returns (r: Option<nat>)
    requires end <= |s.input|
    ensures r == SameForward(s, start, end, pos)
    ensures SubjectOk(s) && start <= end && Boundary(s, start) && Boundary(s, end) && Boundary(s, pos) ==>
              forall q: nat :: r == Some(q) <==> q == pos + (end - start) && Boundary(s, q) && s.input[start..end] == s.input[pos..q]
  {
    ForwardLaw(s, start, end, pos);
    var p: nat, q: nat := start, pos;
    var text := s.(input := s.input[..end]);
    while p < end
      invariant SameForward(s, start, end, pos) == SameForward(s, p, end, q)
      decreases |s.input| - q
    {
      if q >= |s.input| {
        return None;
      }
      var c1, c2 := GetChar(text, p), GetChar(s, q);
      p, q := NextPos(text, p), NextPos(s, q);
      if c1 != c2 {
        return None;
      }
    }
    r := Some(q);
  }

  /** The same backwards, with what precedes. */
  method CompareBackward(s: Subject, start: nat, end: nat, pos: nat) returns (r: Option<nat>)
    requires end <= |s.input| && pos <= |s.input|
    ensures r == SameBackward(s, start, end, pos)
    ensures SubjectOk(s) && start <= end && Boundary(s, start) && Boundary(s, end) && Boundary(s, pos) ==>
              forall q: nat :: r == Some(q) <==> q + (end - start) == pos && Boundary(s, q) && s.input[start..end] == s.input[q..pos]
  {
    hide GetChar, SubjectOk;
    BackwardLaw(s, start, end, pos);
    var p: nat, q: nat := end, pos;
    while p > start
      invariant p <= |s.input| && q <= |s.input| && SameBackward(s, start, end, pos) == SameBackward(s, start, p, q)
      decreases p
    {
      if q == 0 {
        return None;
      }
      var (c1, p1) := PrevFrom(s, start, p);
      var (c2, q1) := PrevFrom(s, 0, q);
      p, q := p1, q1;
      if c1 != c2 {
        return None;
      }
    }
    r := Some(q);
  }

  lemma {:induction false} ForwardLaw(s: Subject, start: nat, end: nat, pos: nat)
    ensures SubjectOk(s) && start <= end && Boundary(s, start) && Boundary(s, end) && Boundary(s, pos) ==>
              forall q: nat :: SameForward(s, start, end, pos) == Some(q) <==>
                               q == pos + (end - start) && Boundary(s, q) && s.input[start..end] == s.input[pos..q]
  {
    hide SameForward;
    if SubjectOk(s) && start <= end && Boundary(s, start) && Boundary(s, end) && Boundary(s, pos) {
      forall q: nat
        ensures SameForward(s, start, end, pos) == Some(q) <==>
                q == pos + (end - start) && Boundary(s, q) && s.input[start..end] == s.input[pos..q]
      {
        ForwardMeans(s, start, end, pos, q);
      }
    }
  }

  lemma {:induction false} BackwardLaw(s: Subject, start: nat, end: nat, pos: nat)
    ensures SubjectOk(s) && start <= end && Boundary(s, start) && Boundary(s, end) && Boundary(s, pos) ==>
              forall q: nat :: SameBackward(s, start, end, pos) == Some(q) <==>
                               q + (end - start) == pos && Boundary(s, q) && s.input[start..end] == s.input[q..pos]
  {
    hide SameBackward;
    if SubjectOk(s) && start <= end && Boundary(s, start) && Boundary(s, end) && Boundary(s, pos) {
      forall q: nat
        ensures SameBackward(s, start, end, pos) == Some(q) <==>
                q + (end - start) == pos && Boundary(s, q) && s.input[start..end] == s.input[q..pos]
      {
        BackwardMeans(s, start, end, pos, q);
      }
    }
  }

  /** Forgets the captures of groups first..last. */
  method ResetRange(caps0: seq<Option<nat>>, pos: nat, first: nat, last: nat) returns (caps: seq<Option<nat>>)
    requires 2 * last + 1 < |caps0|
    ensures caps == ResetCaps(State(pos, caps0), first, last).caps
  {
    caps := caps0;
    var v := first;
    while v <= last
      invariant first <= v && (v <= last + 1 || v == first) && |caps| == |caps0|
      invariant forall i | 0 <= i < |caps0| :: caps[i] == if 2 * first <= i < 2 * v then None else caps0[i]
      decreases last + 1 - v
    {
      caps := caps[2 * v := None][2 * v + 1 := None];
      v := v + 1;
    }
  }

  class ExecContext {
    const e: Env
    var pc: nat
    var pos: nat
    var caps: seq<Option<nat>>
    var stack: seq<nat>
    var bt: seq<Frame>

    constructor (e: Env, start: State)
      ensures this.e == e && Now() == At(0, start, [], [])
    {
      this.e := e;
      pc, pos, caps, stack, bt := 0, start.pos, start.caps, [], [];
    }

    ghost function Now(): Vm
      reads this
    {
      Run(pc, pos, caps, stack, bt)
    }

    /** The machine state after a dispatch that ended with st. */
    ghost function Shown(st: Status): Vm
      reads this
    {
      match st
      case Next => Now()
      case NoMatch => Fail(bt)
      case Matched => Won(caps, bt)
    }

    method PushState(kind: FrameKind, pc1: nat, pos1: nat)
      modifies this`bt
      ensures bt == [Frame(kind, pc1, pos1, caps, stack)] + old(bt)
    {
      bt := [Frame(kind, pc1, pos1, caps, stack)] + bt;
    }

    /** Executes the instruction at pc. */
    method Dispatch() returns (st: Status)
      requires Step(e, Now()) != Stuck
      modifies this`pc, this`pos, this`caps, this`stack, this`bt
      ensures Step(e, old(Now())) == Shown(st)
    {
      var i := Fetch(e.code, pc).value;
      if IsCharOp(i) {
        if pos >= |e.s.input| {
          return NoMatch;
        }
        var ok := TestChar(i, GetChar(e.s, pos));
        if !ok {
          return NoMatch;
        }
        pos := NextPos(e.s, pos);
        pc := pc + Size(i);
        return Next;
      } else if IsAssertOp(i) {
        if !AssertTest(i, e.s, pos) {
          return NoMatch;
        }
        pc := pc + Size(i);
        return Next;
      } else if HasOffset(i) {
        st := DispatchJump(i);
      } else if i.SimpleGreedy? {
        st := DispatchGreedy(i);
      } else if IsBackRef(i) {
        st := DispatchBackRef(i);
      } else {
        st := DispatchData(i);
      }
    }

    /** Gotos, splits, lookaheads and loops. */
    method DispatchJump(i: Instr) returns (st: Status)
      requires HasOffset(i) && pos <= |e.s.input| && StepControl(e, Now(), i) != Stuck
      modifies this`pc, this`pos, this`caps, this`stack, this`bt
      ensures StepControl(e, old(Now()), i) == Shown(st)
    {
      var next := pc + Size(i);
      st := Next;
      match i
      case Goto(o) =>
        pc := next + o;
      case SplitGotoFirst(o) =>
        PushState(SplitFrame, next, pos);
        pc := next + o;
      case SplitNextFirst(o) =>
        PushState(SplitFrame, next + o, pos);
        pc := next;
      case Lookahead(o) =>
        PushState(LookFrame, next + o, pos);
        pc := next;
      case NegLookahead(o) =>
        PushState(NegLookFrame, next + o, pos);
        pc := next;
      case Loop(o) =>
        var top := stack[|stack| - 1];
        var k := if top == 0 then WORD - 1 else top - 1;
        stack := stack[|stack| - 1 := k];
        if k != 0 {
          pc := next + o;
        } else {
          pc := next;
        }
      case BneCharPos(o) =>
        var top := stack[|stack| - 1];
        stack := stack[..|stack| - 1];
        if top != pos {
          pc := next + o;
        } else {
          pc := next;
        }
    }

    /** Captures, counters, stepping back and success. */
    method DispatchData(i: Instr) returns (st: Status)
      requires !IsCharOp(i) && !IsAssertOp(i) && !HasOffset(i) && !i.SimpleGreedy? && !IsBackRef(i)
      requires pos <= |e.s.input| && StepControl(e, Now(), i) != Stuck
      modifies this`pc, this`pos, this`caps, this`stack, this`bt
      ensures StepControl(e, old(Now()), i) == Shown(st)
    {
      var next := pc + Size(i);
      match i {
      case Match =>
        return Matched;
      case SaveStart(k) =>
        caps := caps[2 * k := Some(pos)];
      case SaveEnd(k) =>
        caps := caps[2 * k + 1 := Some(pos)];
      case SaveReset(a, b) =>
        caps := ResetRange(caps, pos, a, b);
      case PushI32(v) =>
        stack := stack + [v];
      case PushCharPos =>
        stack := stack + [pos];
      case Drop =>
        stack := stack[..|stack| - 1];
      case Prev =>
        if pos == 0 {
          return NoMatch;
        }
        pos := PrevPos(e.s, pos);
      }
      pc := next;
      st := Next;
    }

    /** A back reference to a group that is not set goes on where it is. */
    method DispatchBackRef(i: Instr) returns (st: Status)
      requires IsBackRef(i) && pos <= |e.s.input| && StepControl(e, Now(), i) != Stuck
      modifies this`pc, this`pos
      ensures StepControl(e, old(Now()), i) == Shown(st)
    {
      hide SameForward, SameBackward, RunGreedy, ResetCaps;
      var g := i.group;
      if 2 * g + 1 >= |caps| {
        return NoMatch;
      }
      var start, end := caps[2 * g], caps[2 * g + 1];
      if start.Some? && end.Some? {
        var r: Option<nat>;
        if i.BackRef? {
          r := CompareForward(e.s, start.value, end.value, pos);
        } else {
          r := CompareBackward(e.s, start.value, end.value, pos);
        }
        if r == None {
          return NoMatch;
        }
        pos := r.value;
      }
      pc := pc + 2;
      st := Next;
    }

    method DispatchGreedy(i: Instr) returns (st: Status)
      requires i.SimpleGreedy? && pos <= |e.s.input| && StepControl(e, Now(), i) != Stuck
      modifies this`pc, this`pos, this`caps, this`stack, this`bt
      ensures StepControl(e, old(Now()), i) == Shown(st)
    {
      hide RunGreedy, ResetCaps;
      var next := pc + Size(i);
      var p, q := RunLoop(e, next, pos, i.max);
      if q < i.min {
        return NoMatch;
      }
      if q > i.min {
        PushState(GreedyFrame(q - i.min), pc, p);
      }
      pos := p;
      pc := next + i.next;
      st := Next;
    }

    /** Restores the state saved in a frame, except for the captures. */
    method Restore(fr: Frame)
      modifies this`pc, this`pos, this`stack
      ensures pc == fr.pc && pos == fr.pos && stack == fr.stack
    {
      pc, pos, stack := fr.pc, fr.pos, fr.stack;
    }

    /** Goes on after a greedy loop with one iteration less. */
    method ResumeGreedy(fr: Frame)
      requires bt != [] && fr == bt[0] && fr.kind.GreedyFrame? && StepGreedy(e, fr, bt[1..]) != Stuck
      modifies this`pc, this`pos, this`caps, this`stack, this`bt
      ensures StepGreedy(e, fr, old(bt[1..])) == Now()
    {
      hide Fetch, CanGoBack, GoBack;
      var i := Fetch(e.code, fr.pc).value;
      var p := StepBack(e.s, fr.pos, i.count);
      caps := fr.caps;
      Restore(fr);
      pos := p;
      pc := fr.pc + Size(i) + i.next;
      if fr.kind.count == 1 {
        bt := bt[1..];
        assert [] + bt == bt;
      } else {
        bt := [fr.(kind := GreedyFrame(fr.kind.count - 1), pos := p)] + bt[1..];
      }
    }

    /** One round of unwinding the backtrack stack after a success or a failure. */
    method Unwind(ret: Status) returns (st: Status)
      requires ret != Next && bt != [] && Step(e, Shown(ret)) != Stuck
      modifies this`pc, this`pos, this`caps, this`stack, this`bt
      ensures Step(e, old(Shown(ret))) == Shown(st)
    {
      hide StepRun, StepGreedy;
      var fr := bt[0];
      match fr.kind
      case SplitFrame =>
        bt := bt[1..];
        if ret == Matched {
          return Matched;
        }
        caps := fr.caps;
        Restore(fr);
        st := Next;
      case GreedyFrame(_) =>
        if ret == Matched {
          bt := bt[1..];
          return Matched;
        }
        ResumeGreedy(fr);
        st := Next;
      case LookFrame =>
        bt := bt[1..];
        if ret != Matched {
          return NoMatch;
        }
        Restore(fr);
        st := Next;
      case NegLookFrame =>
        bt := bt[1..];
        if ret == Matched {
          return NoMatch;
        }
        caps := fr.caps;
        Restore(fr);
        st := Next;
    }

    /** Runs until the backtrack stack is exhausted; `fuel` steps are known to be enough. */
    method Backtrack(ghost fuel: nat) returns (matched: bool)
      requires StepN(e, Now(), fuel).Halt?
      modifies this`pc, this`pos, this`caps, this`stack, this`bt
      ensures StepN(e, old(Now()), fuel) == Halt(matched, if matched then caps else [])
    {
      ghost var goal := StepN(e, Now(), fuel);
      hide Step;
      ghost var k: nat := fuel;
      while true
        invariant StepN(e, Now(), k) == goal && goal.Halt?
        decreases k
      {
        Unfinished(e, Now(), k);
        var st := Dispatch();
        k := k - 1;
        while st != Next
          invariant StepN(e, Shown(st), k) == goal
          invariant st != Next || k < fuel
          decreases k
        {
          Unfinished(e, Shown(st), k);
          if bt == [] {
            LastStep(e, caps);
            HaltStays(e, Step(e, Shown(st)), k - 1);
            return st == Matched;
          }
          st := Unwind(st);
          k := k - 1;
        }
      }
    }
  }

  lemma {:induction false} LastStep(e: Env, caps: seq<Option<nat>>)
    ensures Step(e, Fail([])) == Halt(false, []) && Step(e, Won(caps, [])) == Halt(true, caps)
  {
  }

  lemma {:induction false} HaltStays(e: Env, vm: Vm, k: nat)
    requires vm.Halt? || vm.Stuck?
    ensures StepN(e, vm, k) == vm
    decreases k
  {
    if k > 0 {
      HaltStays(e, vm, k - 1);
    }
  }

  /** A machine that will halt but has not has a next step, and is not stuck. */
  lemma {:induction false} Unfinished(e: Env, vm: Vm, k: nat)
    requires StepN(e, vm, k).Halt? && !vm.Halt?
    ensures k > 0 && Step(e, vm) != Stuck && StepN(e, vm, k) == StepN(e, Step(e, vm), k - 1)
  {
    hide Step;
    if k > 0 && Step(e, vm) == Stuck {
      HaltStays(e, Stuck, k - 1);
    }
  }

  /**
  Executes the code of a pattern from a character boundary: whether it matches, and the
  captures of its best match.
  */
  method Exec(ghost n: Node, ghost sticky: bool, e: Env, start: State) returns (matched: bool, caps: seq<Option<nat>>)
    requires Accepted(n) && AllEncodable(Program(n, sticky)) && SubjectOk(e.s) && Boundary(e.s, start.pos)
    requires e == Machine(n, sticky, e.s) && start == Start(n, start.pos)
    ensures var rs := Results(e.s, Whole(n, sticky), false, 0, start);
            matched == (rs != []) && (matched ==> caps == rs[0].caps)
  {
    hide Accepted, AllEncodable, Program, Results, EncodeAll, MaxDepth, Step, StepN, Boundary, Unset, Whole;
    ProgramCorrect(n, sticky, e.s, start.pos);
    ghost var goal := Answer(Results(e.s, Whole(n, sticky), false, 0, start));
    ghost var k: nat :| StepN(e, At(0, start, [], []), k) == goal;
    var c := new ExecContext(e, start);
    matched := c.Backtrack(k);
    caps := c.caps;
  }
}
