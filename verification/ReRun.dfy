/** Runs of the machine: code placed in memory, reachability, and enumeration of results by backtracking. */
module ReRun {
  import opened ReCode
  import opened ReSyntax
  import opened ReMatch
  import opened ReVm

  /** The effect of an instruction on the depth of the counter stack, as compute_stack_size counts it. */
  function Delta(i: Instr): int {
    if i.PushI32? || i.PushCharPos? then 1 else if i.Drop? || i.BneCharPos? then -1 else 0
  }

  function EndDepth(code: seq<Instr>, d: int): int {
    if code == [] then d else EndDepth(code[1..], d + Delta(code[0]))
  }

  /** compute_stack_size: the largest depth of a linear scan. */
  function MaxDepth(code: seq<Instr>, d: int): (m: int)
    ensures m >= d
  {
    if code == [] then d
    else
      var m := MaxDepth(code[1..], d + Delta(code[0]));
      if m >= d then m else d
  }

  lemma {:induction false} DepthAppend(a: seq<Instr>, b: seq<Instr>, d: int)
    ensures EndDepth(a + b, d) == EndDepth(b, EndDepth(a, d))
    ensures MaxDepth(a + b, d) >= MaxDepth(a, d) && MaxDepth(a + b, d) >= MaxDepth(b, EndDepth(a, d))
  {
    if a == [] {
      assert a + b == b;
    } else {
      assert (a + b)[1..] == a[1..] + b;
      DepthAppend(a[1..], b, d + Delta(a[0]));
    }
  }

  /** The bytes of `frag` are at pc, and a linear scan from depth d stays within the allocated stack. */
  ghost predicate Placed(e: Env, pc: nat, frag: seq<Instr>, d: int) {
    AllEncodable(frag) && pc + CodeSize(frag) <= |e.code| &&
    e.code[pc..pc + CodeSize(frag)] == EncodeAll(frag) && MaxDepth(frag, d) <= e.maxStack
  }

  lemma {:induction false} PlacedAppend(e: Env, pc: nat, a: seq<Instr>, b: seq<Instr>, d: int)
    requires Placed(e, pc, a + b, d)
    ensures CodeSize(a + b) == CodeSize(a) + CodeSize(b)
    ensures Placed(e, pc, a, d) && Placed(e, pc + CodeSize(a), b, EndDepth(a, d))
  {
    hide Size, EncodeAll, MaxDepth, EndDepth, CodeSize, Encodable;
    CodeSizeAppend(a, b);
    DepthAppend(a, b, d);
    assert forall i | i in a :: i in a + b;
    assert forall i | i in b :: i in a + b;
    EncodeAppend(a, b);
    var m, n := CodeSize(a), CodeSize(b);
    var w := e.code[pc..pc + (m + n)];
    assert w[..m] == EncodeAll(a) && w[m..] == EncodeAll(b);
    assert w[..m] == e.code[pc..pc + m] && w[m..] == e.code[pc + m..pc + m + n];
  }

  lemma {:induction false} PlacedHead(e: Env, pc: nat, frag: seq<Instr>, d: int)
    requires frag != [] && Placed(e, pc, frag, d)
    ensures Fetch(e.code, pc) == Some(frag[0])
    ensures Placed(e, pc + Size(frag[0]), frag[1..], d + Delta(frag[0]))
    ensures d + Delta(frag[0]) <= e.maxStack && d <= e.maxStack
    ensures CodeSize(frag) == Size(frag[0]) + CodeSize(frag[1..])
    ensures Encodable(frag[0])
  {
    hide Size, Encodable, Decode, Encode, Delta;
    var i, rest := frag[0], frag[1..];
    assert i in frag;
    assert frag == [i] + rest;
    PlacedAppend(e, pc, [i], rest, d);
    assert [i][1..] == [];
    var n := Size(i);
    assert e.code[pc..][..n] == e.code[pc..pc + n] == Encode(i);
    RoundTrip(i, e.code[pc..][n..]);
    assert e.code[pc..] == Encode(i) + e.code[pc..][n..];
  }

  /** b is reached from a in some number of steps. */
  ghost predicate Reaches(e: Env, a: Vm, b: Vm) {
    exists n: nat :: StepN(e, a, n) == b
  }

  lemma {:induction false} StepNAdd(e: Env, a: Vm, m: nat, n: nat)
    ensures StepN(e, a, m + n) == StepN(e, StepN(e, a, m), n)
    decreases m
  {
    if m > 0 {
      StepNAdd(e, Step(e, a), m - 1, n);
    }
  }

  lemma {:induction false} ReachRefl(e: Env, a: Vm)
    ensures Reaches(e, a, a)
  {
    assert StepN(e, a, 0) == a;
  }

  lemma {:induction false} ReachStep(e: Env, a: Vm, b: Vm)
    requires Reaches(e, Step(e, a), b)
    ensures Reaches(e, a, b)
  {
    hide Step;
    var n: nat :| StepN(e, Step(e, a), n) == b;
    assert StepN(e, a, n + 1) == b;
  }

  lemma {:induction false} ReachTrans(e: Env, a: Vm, b: Vm, c: Vm)
    requires Reaches(e, a, b) && Reaches(e, b, c)
    ensures Reaches(e, a, c)
  {
    hide Step;
    var m: nat :| StepN(e, a, m) == b;
    var n: nat :| StepN(e, b, n) == c;
    StepNAdd(e, a, m, n);
  }

  /** No lookahead is pending among these frames. */
  ghost predicate NoLook(bt: seq<Frame>) {
    forall f | f in bt :: f.kind.SplitFrame? || f.kind.GreedyFrame?
  }

  /** The machine continues at pc with result r. */
  ghost function At(pc: nat, r: State, st: seq<nat>, bt: seq<Frame>): Vm {
    Run(pc, r.pos, r.caps, st, bt)
  }

  /**
  From configuration c the machine offers exactly the results rs, in this order: it arrives
  at pc with the first one, and each time it is made to fail it arrives with the next, until
  it has used up everything above bt and fails into bt.
  */
  ghost predicate Offers(e: Env, c: Vm, rs: seq<State>, pc: nat, st: seq<nat>, bt: seq<Frame>)
    decreases |rs|
  {
    if rs == [] then Reaches(e, c, Fail(bt))
    else
      exists ext: seq<Frame> :: NoLook(ext) &&
        Reaches(e, c, At(pc, rs[0], st, ext + bt)) &&
        Offers(e, Fail(ext + bt), rs[1..], pc, st, bt)
  }

  lemma {:induction false} OffersOne(e: Env, c: Vm, r: State, pc: nat, st: seq<nat>, bt: seq<Frame>)
    requires Reaches(e, c, At(pc, r, st, bt))
    ensures Offers(e, c, [r], pc, st, bt)
  {
    hide Step, Reaches;
    var ext: seq<Frame> := [];
    assert NoLook(ext) && ext + bt == bt;
    ReachRefl(e, Fail(bt));
    assert [r][1..] == [];
    assert Offers(e, Fail(ext + bt), [r][1..], pc, st, bt);
  }

  lemma {:induction false} OffersNone(e: Env, c: Vm, pc: nat, st: seq<nat>, bt: seq<Frame>)
    requires Reaches(e, c, Fail(bt))
    ensures Offers(e, c, [], pc, st, bt)
  {
  }

  lemma {:induction false} OffersFrom(e: Env, c: Vm, c': Vm, rs: seq<State>, pc: nat, st: seq<nat>, bt: seq<Frame>)
    requires Reaches(e, c, c') && Offers(e, c', rs, pc, st, bt)
    ensures Offers(e, c, rs, pc, st, bt)
  {
    hide Step, Reaches;
    if rs == [] {
      ReachTrans(e, c, c', Fail(bt));
    } else {
      var ext: seq<Frame> :| NoLook(ext) && Reaches(e, c', At(pc, rs[0], st, ext + bt)) &&
                             Offers(e, Fail(ext + bt), rs[1..], pc, st, bt);
      ReachTrans(e, c, c', At(pc, rs[0], st, ext + bt));
    }
  }

  lemma {:induction false} OffersStep(e: Env, c: Vm, rs: seq<State>, pc: nat, st: seq<nat>, bt: seq<Frame>)
    requires Offers(e, Step(e, c), rs, pc, st, bt)
    ensures Offers(e, c, rs, pc, st, bt)
  {
    hide Step, Offers;
    ReachRefl(e, Step(e, c));
    ReachStep(e, c, Step(e, c));
    OffersFrom(e, c, Step(e, c), rs, pc, st, bt);
  }

  /** First everything that c offers above e1 + bt, then everything offered after that fails. */
  lemma {:induction false} OffersAppend(e: Env, c: Vm, xs: seq<State>, ys: seq<State>, pc: nat, st: seq<nat>,
                                        e1: seq<Frame>, bt: seq<Frame>)
    requires NoLook(e1) && Offers(e, c, xs, pc, st, e1 + bt) && Offers(e, Fail(e1 + bt), ys, pc, st, bt)
    ensures Offers(e, c, xs + ys, pc, st, bt)
    decreases |xs|
  {
    hide Step, Reaches;
    if xs == [] {
      assert xs + ys == ys;
      OffersFrom(e, c, Fail(e1 + bt), ys, pc, st, bt);
    } else {
      var ext: seq<Frame> :| NoLook(ext) && Reaches(e, c, At(pc, xs[0], st, ext + (e1 + bt))) &&
                             Offers(e, Fail(ext + (e1 + bt)), xs[1..], pc, st, e1 + bt);
      OffersAppend(e, Fail(ext + (e1 + bt)), xs[1..], ys, pc, st, e1, bt);
      assert ext + (e1 + bt) == (ext + e1) + bt;
      assert (xs + ys)[1..] == xs[1..] + ys && (xs + ys)[0] == xs[0];
      assert NoLook(ext + e1);
    }
  }
}
