/**
The one-pass compiler: it appends to a byte buffer, and inserts, patches, copies and rotates what
is already there. The buffer always ends up holding the encoding of the compiled code.
*/
module ReCompiler {
  import opened ReCode
  import opened ReSyntax
  import opened ReMatch
  import opened ReUnfold
  import opened ReVm
  import opened ReRun
  import opened ReCorrect
  import opened ReGreedy
  import opened ReQuant
  import opened ReProgram
  import opened ReExec
  import opened ReText
  import opened ReSpan

  const CAPTURE_COUNT_MAX: nat := 255
  const STACK_SIZE_MAX: nat := 255

  /** The length of the instruction at a byte position, from its opcode and, for ranges, their count. */
  function OpLen(bc: seq<Byte>, pos: nat): (n: nat)
    requires pos < |bc|
    ensures n >= 1
  {
    var op := bc[pos];
    if op == 21 && pos + 3 <= |bc| then 3 + 4 * GetU16(bc, pos + 1)
    else if op == 22 && pos + 3 <= |bc| then 3 + 8 * GetU16(bc, pos + 1)
    else if op == 1 || op == 13 || op == 21 || op == 22 then 3
    else if op == 2 || op == 7 || op == 8 || op == 9 || op == 14 || op == 15 || op == 23 || op == 24 || op == 26 then 5
    else if op == 11 || op == 12 || op == 19 || op == 20 then 2
    else if op == 28 then 17
    else 1
  }

  predicate CharOpcode(op: Byte) { op == 1 || op == 2 || op == 3 || op == 4 || op == 21 || op == 22 }

  predicate AssertOpcode(op: Byte) { op == 5 || op == 6 || op == 17 || op == 18 }

  predicate NoEffectOpcode(op: Byte) {
    AssertOpcode(op) || op == 15 || op == 25 || op == 16 || op == 27 || op == 11 || op == 12 || op == 13 || op == 19 || op == 20
  }

  /** Opcodes classify instructions. */
  lemma {:induction false} OpcodeKinds(i: Instr)
    ensures CharOpcode(Opcode(i)) <==> IsCharOp(i)
    ensures AssertOpcode(Opcode(i)) <==> IsAssertOp(i)
    ensures NoEffectOpcode(Opcode(i)) <==> NoEffect(i)
    ensures Opcode(i) == 11 || Opcode(i) == 12 <==> i.SaveStart? || i.SaveEnd?
    ensures Opcode(i) == 13 <==> i.SaveReset?
    ensures Opcode(i) == 19 || Opcode(i) == 20 <==> IsBackRef(i)
    ensures Opcode(i) == 15 || Opcode(i) == 25 <==> Delta(i) == 1
    ensures Opcode(i) == 16 || Opcode(i) == 26 <==> Delta(i) == -1
  {
  }

  /** The bytes of code start with the opcode and the length of its first instruction. */
  lemma {:induction false} HeadBytes(bc: seq<Byte>, pos: nat, code: seq<Instr>)
    requires AllEncodable(code) && code != [] && pos <= |bc| && bc[pos..] == EncodeAll(code)
    ensures pos < |bc| && bc[pos] == Opcode(code[0]) && OpLen(bc, pos) == Size(code[0])
    ensures pos + Size(code[0]) <= |bc| && AllEncodable(code[1..]) && bc[pos + Size(code[0])..] == EncodeAll(code[1..])
  {
    hide Opcode, Encodable, Operands;
    var i, n := code[0], Size(code[0]);
    assert i in code;
    assert bc[pos..] == Encode(i) + EncodeAll(code[1..]);
    assert bc[pos..][0] == Opcode(i);
    assert bc[pos + n..] == bc[pos..][n..] == EncodeAll(code[1..]);
    assert bc[pos..][..n] == Encode(i);
    LenAt(bc, pos, i);
  }

  lemma {:induction false} LenAt(bc: seq<Byte>, pos: nat, i: Instr)
    requires Encodable(i) && pos + Size(i) <= |bc| && bc[pos..][..Size(i)] == Encode(i)
    ensures OpLen(bc, pos) == Size(i)
  {
    var w := bc[pos..][..Size(i)];
    assert w[0] == bc[pos];
    if i.Range? || i.Range32? {
      PairCount(bc, pos, i);
    }
  }

  lemma {:induction false} PairCount(bc: seq<Byte>, pos: nat, i: Instr)
    requires i.Range? || i.Range32?
    requires Encodable(i) && pos + Size(i) <= |bc| && bc[pos..][..Size(i)] == Encode(i)
    ensures GetU16(bc, pos + 1) == |i.pairs|
  {
    hide PutPairs;
    var w := bc[pos..][..Size(i)];
    var t := PutPairs(i.pairs, i.Range32?);
    assert w == [Opcode(i)] + (PutU16(|i.pairs|) + t);
    assert w[1] == bc[pos + 1] && w[2] == bc[pos + 2];
    assert PutU16(|i.pairs|)[0] == w[1] && PutU16(|i.pairs|)[1] == w[2];
  }

  /** The groups that an instruction names have a place in the bitmap. */
  predicate GroupsIn(i: Instr) {
    (i.SaveStart? || i.SaveEnd? ==> i.idx < CAPTURE_COUNT_MAX) && (i.SaveReset? ==> i.last < CAPTURE_COUNT_MAX) &&
    (IsBackRef(i) ==> i.group < CAPTURE_COUNT_MAX)
  }

  ghost predicate GroupsBelow(code: seq<Instr>) {
    forall i | i in code :: GroupsIn(i)
  }

  /** What re_check_advance returns. */
  ghost function Advance(code: seq<Instr>): int {
    if SelfRefers(code) then -1 else if CheckAdvance(code) then 1 else 0
  }

  /** Bit 1 of the bitmap: groups that the code writes; bit 2: groups that it refers to. */
  ghost predicate BitmapOk(written: seq<bool>, read: seq<bool>, code: seq<Instr>) {
    |written| == |read| == CAPTURE_COUNT_MAX &&
    (forall g | 0 <= g < CAPTURE_COUNT_MAX :: written[g] <==> exists i :: 0 <= i < |code| && Writes(code[i], g)) &&
    (forall g | 0 <= g < CAPTURE_COUNT_MAX :: read[g] <==> exists i :: 0 <= i < |code| && Refers(code[i], g))
  }

  predicate Refers(i: Instr, g: nat) {
    IsBackRef(i) && i.group == g
  }

  /** The operands of the instructions that name groups. */
  lemma {:induction false} GroupBytes(bc: seq<Byte>, pos: nat, code: seq<Instr>)
    requires AllEncodable(code) && code != [] && pos <= |bc| && bc[pos..] == EncodeAll(code)
    ensures code[0].SaveStart? || code[0].SaveEnd? ==> pos + 1 < |bc| && bc[pos + 1] == code[0].idx
    ensures code[0].SaveReset? ==> pos + 2 < |bc| && bc[pos + 1] == code[0].first && bc[pos + 2] == code[0].last
    ensures IsBackRef(code[0]) ==> pos + 1 < |bc| && bc[pos + 1] == code[0].group
  {
    var i := code[0];
    assert i in code;
    if i.SaveStart? || i.SaveEnd? || i.SaveReset? || IsBackRef(i) {
      var w := bc[pos..];
      assert w == Encode(i) + EncodeAll(code[1..]);
      assert w[1] == bc[pos + 1] && w[1] == Operands(i)[0];
      if i.SaveReset? {
        assert w[2] == bc[pos + 2] && w[2] == Operands(i)[1];
      }
    }
  }

  /** Marks what one more instruction writes and refers to. */
  lemma {:induction false} BitmapSnoc(written: seq<bool>, read: seq<bool>, code: seq<Instr>, i: Instr, written': seq<bool>, read': seq<bool>)
    requires BitmapOk(written, read, code) && |written'| == |read'| == CAPTURE_COUNT_MAX
    requires forall g | 0 <= g < CAPTURE_COUNT_MAX :: written'[g] == (written[g] || Writes(i, g)) && read'[g] == (read[g] || Refers(i, g))
    ensures BitmapOk(written', read', code + [i])
  {
    hide Writes, Refers;
    var w := code + [i];
    assert w[|code|] == i && forall k | 0 <= k < |code| :: w[k] == code[k];
    forall g | 0 <= g < CAPTURE_COUNT_MAX
      ensures written'[g] <==> exists k :: 0 <= k < |w| && Writes(w[k], g)
      ensures read'[g] <==> exists k :: 0 <= k < |w| && Refers(w[k], g)
    {
      if written[g] {
        var k :| 0 <= k < |code| && Writes(code[k], g);
        assert Writes(w[k], g);
      }
      if read[g] {
        var k :| 0 <= k < |code| && Refers(code[k], g);
        assert Refers(w[k], g);
      }
      if Writes(i, g) {
        assert Writes(w[|code|], g);
      }
      if Refers(i, g) {
        assert Refers(w[|code|], g);
      }
    }
  }

  /** Records the instruction at pos in the bitmap. */
  method Mark(bc: seq<Byte>, pos: nat, written: array<bool>, read: array<bool>, ghost i: Instr, ghost done: seq<Instr>) returns (refers: bool)
    requires pos < |bc| && bc[pos] == Opcode(i) && GroupsIn(i) && written != read
    requires i.SaveStart? || i.SaveEnd? ==> pos + 1 < |bc| && bc[pos + 1] == i.idx
    requires i.SaveReset? ==> pos + 2 < |bc| && bc[pos + 1] == i.first && bc[pos + 2] == i.last
    requires IsBackRef(i) ==> pos + 1 < |bc| && bc[pos + 1] == i.group
    requires BitmapOk(written[..], read[..], done)
    modifies written, read
    ensures BitmapOk(written[..], read[..], done + [i]) && refers == IsBackRef(i)
  {
    hide BitmapOk, Opcode;
    OpcodeKinds(i);
    ghost var w, r := written[..], read[..];
    BitmapSize(w, r, done);
    var op := bc[pos];
    refers := false;
    if op == 11 || op == 12 {
      written[bc[pos + 1]] := true;
    } else if op == 13 {
      var val: nat := bc[pos + 1];
      while val < bc[pos + 2]
        invariant i.first <= val && (val <= i.last || val == i.first) && read[..] == r
        invariant forall g | 0 <= g < CAPTURE_COUNT_MAX :: written[g] == (w[g] || i.first <= g < val)
        decreases i.last - val
      {
        written[val] := true;
        val := val + 1;
      }
    } else if op == 19 || op == 20 {
      read[bc[pos + 1]] := true;
      refers := true;
    }
    BitmapSnoc(w, r, done, i, written[..], read[..]);
  }

  lemma {:induction false} BitmapSize(written: seq<bool>, read: seq<bool>, code: seq<Instr>)
    requires BitmapOk(written, read, code)
    ensures |written| == |read| == CAPTURE_COUNT_MAX
  {
  }

  lemma {:induction false} BitmapStart(written: seq<bool>, read: seq<bool>)
    requires |written| == |read| == CAPTURE_COUNT_MAX && forall g | 0 <= g < CAPTURE_COUNT_MAX :: !written[g] && !read[g]
    ensures BitmapOk(written, read, [])
  {
  }

  /** re_check_advance on bytes; -2 while not known. */
  method CheckAdvanceBytes(bc: seq<Byte>, ghost code: seq<Instr>) returns (ret: int)
    requires AllEncodable(code) && bc == EncodeAll(code) && GroupsBelow(code)
    ensures ret == Advance(code)
  {
    hide EncodeAll, Size, OpLen, AllEncodable, CharOpcode, NoEffectOpcode, IsCharOp, NoEffect, BitmapOk, GroupsIn, IsBackRef, SelfRefers;
    var written, read := new bool[CAPTURE_COUNT_MAX](_ => false), new bool[CAPTURE_COUNT_MAX](_ => false);
    BitmapStart(written[..], read[..]);
    var known, pos: nat, hasRef := -2, 0, false;
    ghost var done, rest := [], code;
    assert bc[0..] == bc;
    while pos < |bc|
      invariant pos <= |bc| && AllEncodable(rest) && bc[pos..] == EncodeAll(rest) && known in {-2, 0, 1} && code == done + rest
      invariant CheckAdvance(code) == if known == -2 then CheckAdvance(rest) else known == 1
      invariant BitmapOk(written[..], read[..], done) && (hasRef <==> exists i :: 0 <= i < |done| && IsBackRef(done[i]))
      decreases |bc| - pos
    {
      MoreCodeLeft(bc, pos, rest);
      HeadBytes(bc, pos, rest);
      GroupBytes(bc, pos, rest);
      OpcodeKinds(rest[0]);
      CharIsNoAssert(rest[0]);
      assert rest[0] in code;
      var refers := Mark(bc, pos, written, read, rest[0], done);
      hasRef := hasRef || refers;
      var op := bc[pos];
      if CharOpcode(op) {
        if known == -2 {
          known := 1;
        }
      } else if !NoEffectOpcode(op) {
        if known == -2 {
          known := 0;
        }
      }
      pos := pos + OpLen(bc, pos);
      RefsSnoc(done, rest[0]);
      done, rest := done + [rest[0]], rest[1..];
    }
    NoCodeLeft(bc, rest);
    assert done == code;
    if hasRef {
      for i := 0 to CAPTURE_COUNT_MAX
        invariant forall g | 0 <= g < i :: !(written[g] && read[g])
      {
        if written[i] && read[i] {
          SelfRefersIf(written[..], read[..], code, i);
          return -1;
        }
      }
    }
    SelfRefersOnly(written[..], read[..], code, hasRef);
    ret := if known == 1 then 1 else 0;
  }

  lemma {:induction false} RefsSnoc(done: seq<Instr>, i: Instr)
    ensures (exists k :: 0 <= k < |done + [i]| && IsBackRef((done + [i])[k])) <==> (exists k :: 0 <= k < |done| && IsBackRef(done[k])) || IsBackRef(i)
  {
    hide IsBackRef;
    var w := done + [i];
    if k :| 0 <= k < |done| && IsBackRef(done[k]) {
      assert IsBackRef(w[k]);
    }
    if IsBackRef(i) {
      assert IsBackRef(w[|done|]);
    }
  }

  lemma {:induction false} SelfRefersIf(written: seq<bool>, read: seq<bool>, code: seq<Instr>, g: nat)
    requires BitmapOk(written, read, code) && g < CAPTURE_COUNT_MAX && written[g] && read[g]
    ensures SelfRefers(code)
  {
    hide Writes;
    var i :| 0 <= i < |code| && Writes(code[i], g);
    var j :| 0 <= j < |code| && Refers(code[j], g);
    assert IsBackRef(code[j]) && Writes(code[i], code[j].group);
  }

  lemma {:induction false} SelfRefersOnly(written: seq<bool>, read: seq<bool>, code: seq<Instr>, hasRef: bool)
    requires BitmapOk(written, read, code) && GroupsBelow(code) && (hasRef <==> exists i :: 0 <= i < |code| && IsBackRef(code[i]))
    requires hasRef ==> forall g | 0 <= g < CAPTURE_COUNT_MAX :: !(written[g] && read[g])
    ensures !SelfRefers(code)
  {
    hide Writes;
    if SelfRefers(code) {
      var i, j :| 0 <= i < |code| && 0 <= j < |code| && IsBackRef(code[j]) && Writes(code[i], code[j].group);
      var g := code[j].group;
      assert code[j] in code;
      assert written[g] && read[g] by {
        assert Refers(code[j], g) && Writes(code[i], g);
      }
      assert false;
    }
  }

  lemma {:induction false} CharIsNoAssert(i: Instr)
    ensures !(IsCharOp(i) && IsAssertOp(i)) && !(IsCharOp(i) && NoEffect(i))
  {
  }

  lemma {:induction false} MoreCodeLeft(bc: seq<Byte>, pos: nat, rest: seq<Instr>)
    requires AllEncodable(rest) && pos < |bc| && bc[pos..] == EncodeAll(rest)
    ensures rest != []
  {
  }

  lemma {:induction false} NoCodeLeft(bc: seq<Byte>, rest: seq<Instr>)
    requires AllEncodable(rest) && bc[|bc|..] == EncodeAll(rest)
    ensures rest == []
  {
    hide Size;
  }

  /** re_is_simple_quantifier on bytes. */
  method CountSimple(bc: seq<Byte>, ghost code: seq<Instr>) returns (count: Option<nat>)
    requires AllEncodable(code) && bc == EncodeAll(code)
    ensures count == SimpleCount(code)
  {
    hide EncodeAll, Size, OpLen, AllEncodable, CharOpcode, AssertOpcode, IsCharOp;
    var n: nat, pos: nat := 0, 0;
    ghost var rest := code;
    assert bc[0..] == bc;
    while pos < |bc|
      invariant pos <= |bc| && AllEncodable(rest) && bc[pos..] == EncodeAll(rest)
      invariant SimpleCount(code) == if SimpleCount(rest).Some? then Some(n + SimpleCount(rest).value) else None
      decreases |bc| - pos
    {
      MoreCodeLeft(bc, pos, rest);
      HeadBytes(bc, pos, rest);
      OpcodeKinds(rest[0]);
      CharIsNoAssert(rest[0]);
      var op := bc[pos];
      if CharOpcode(op) {
        n := n + 1;
      } else if !AssertOpcode(op) {
        return None;
      }
      pos := pos + OpLen(bc, pos);
      rest := rest[1..];
    }
    NoCodeLeft(bc, rest);
    count := Some(n);
  }

  /** compute_stack_size: the largest depth, unless it is over the limit. */
  method ComputeStackSize(bc: seq<Byte>, ghost code: seq<Instr>) returns (size: Option<nat>)
    requires AllEncodable(code) && bc == EncodeAll(code)
    ensures var m := MaxDepth(code, 0); size == if m <= STACK_SIZE_MAX then Some(m) else None
  {
    hide EncodeAll, Size, OpLen, AllEncodable, Delta;
    var depth: int, max: nat, pos: nat := 0, 0, 0;
    ghost var rest := code;
    assert bc[0..] == bc;
    while pos < |bc|
      invariant pos <= |bc| && AllEncodable(rest) && bc[pos..] == EncodeAll(rest) && depth <= max <= STACK_SIZE_MAX
      invariant var m := MaxDepth(rest, depth); MaxDepth(code, 0) == if m >= max then m else max
      decreases |bc| - pos
    {
      MoreCodeLeft(bc, pos, rest);
      HeadBytes(bc, pos, rest);
      OpcodeKinds(rest[0]);
      DeltaKinds(rest[0]);
      var op := bc[pos];
      if op == 15 || op == 25 {
        depth := depth + 1;
        if depth > max {
          if depth > STACK_SIZE_MAX {
            return None;
          }
          max := depth;
        }
      } else if op == 16 || op == 26 {
        depth := depth - 1;
      }
      pos := pos + OpLen(bc, pos);
      rest := rest[1..];
    }
    NoCodeLeft(bc, rest);
    size := Some(max);
  }

  lemma {:induction false} DeltaKinds(i: Instr)
    ensures Delta(i) == 1 || Delta(i) == -1 || Delta(i) == 0
  {
  }

  /** Encoded code after a prefix of the buffer. */
  ghost predicate Holds(buf: seq<Byte>, base: seq<Byte>, code: seq<Instr>) {
    AllEncodable(code) && buf == base + EncodeAll(code)
  }

  lemma {:induction false} HoldsAppend(base: seq<Byte>, a: seq<Instr>, b: seq<Instr>)
    requires AllEncodable(a) && AllEncodable(b)
    ensures Holds(base + EncodeAll(a) + EncodeAll(b), base, a + b)
  {
    hide EncodeAll, Encodable;
    EncodeAppend(a, b);
    assert base + EncodeAll(a) + EncodeAll(b) == base + (EncodeAll(a) + EncodeAll(b));
  }

  lemma {:induction false} EncodeOne(i: Instr)
    requires Encodable(i)
    ensures AllEncodable([i]) && EncodeAll([i]) == Encode(i) && CodeSize([i]) == Size(i)
  {
    assert [i][1..] == [];
    assert Encode(i) + [] == Encode(i);
  }

  /** Parts of encodable code are encodable. */
  lemma {:induction false} Parts(a: seq<Instr>, b: seq<Instr>)
    requires AllEncodable(a + b)
    ensures AllEncodable(a) && AllEncodable(b)
  {
    hide Encodable;
    assert forall i | i in a :: i in a + b;
    assert forall i | i in b :: i in a + b;
  }

  /** The operands of a pattern and of all its parts fit their fields. */
  ghost predicate Fits(n: Node, back: bool, cc: nat) {
    AllEncodable(Compile(n, back, cc)) && GroupsBelow(Compile(n, back, cc)) &&
    match n
    case Cat(l, r) => Fits(l, back, cc) && Fits(r, back, cc + NumCaps(l))
    case Alt(l, r) => Fits(l, back, cc) && Fits(r, back, cc + NumCaps(l))
    case Group(m) => Fits(m, back, cc + 1)
    case Look(_, b, m) => Fits(m, b, cc)
    case Quant(m, _, _, _) => Fits(m, back, cc)
    case _ => true
  }

  lemma {:induction false} HoldsNothing(base: seq<Byte>)
    ensures Holds(base, base, [])
  {
    assert base + [] == base;
  }

  /** Code held after code that is held. */
  lemma {:induction false} HoldsMore(buf: seq<Byte>, base: seq<Byte>, mid: seq<Byte>, a: seq<Instr>, b: seq<Instr>)
    requires Holds(mid, base, a) && Holds(buf, mid, b)
    ensures Holds(buf, base, a + b)
  {
    hide EncodeAll, AllEncodable;
    HoldsAppend(base, a, b);
  }

  lemma {:induction false} HoldsSize(buf: seq<Byte>, base: seq<Byte>, a: seq<Instr>)
    requires Holds(buf, base, a)
    ensures |buf| == |base| + CodeSize(a) && buf[|base|..] == EncodeAll(a)
  {
    hide EncodeAll, CodeSize;
  }

  lemma {:induction false} Each(a: seq<Instr>, i: Instr)
    requires AllEncodable(a) && i in a
    ensures Encodable(i)
  {
  }

  class Compiler {
    var buf: seq<Byte>
    var captureCount: nat

    constructor ()
      ensures buf == [] && captureCount == 0
    {
      buf, captureCount := [], 0;
    }

    /** Appends an instruction. */
    method Emit(i: Instr, ghost base: seq<Byte>, ghost code: seq<Instr>)
      requires Encodable(i) && Holds(buf, base, code)
      modifies this`buf
      ensures Holds(buf, base, code + [i]) && |buf| == |old(buf)| + Size(i)
    {
      hide EncodeAll, Encodable, Encode, AllEncodable;
      EncodeOne(i);
      HoldsAppend(base, code, [i]);
      buf := buf + Encode(i);
    }

    /** Makes room at pos and fills it with an instruction. */
    method Insert(pos: nat, i: Instr, ghost base: seq<Byte>, ghost code: seq<Instr>)
      requires Encodable(i) && Holds(buf, base, code) && pos == |base|
      modifies this`buf
      ensures Holds(buf, base, [i] + code) && |buf| == |old(buf)| + Size(i)
    {
      hide EncodeAll, Encodable, Encode, AllEncodable;
      EncodeOne(i);
      HoldsAppend(base, [i], code);
      assert buf[..pos] == base && buf[pos..] == EncodeAll(code);
      buf := buf[..pos] + Encode(i) + buf[pos..];
    }

    /** Overwrites the instruction at pos, of the same size. */
    method Patch(pos: nat, i: Instr, ghost base: seq<Byte>, ghost a: seq<Instr>, ghost old_i: Instr, ghost b: seq<Instr>)
      requires Encodable(i) && Holds(buf, base, a + [old_i] + b) && pos == |base| + CodeSize(a) && Size(i) == Size(old_i)
      modifies this`buf
      ensures Holds(buf, base, a + [i] + b) && |buf| == |old(buf)|
    {
      hide EncodeAll, Encodable, Encode, AllEncodable, Size, CodeSize;
      Parts(a + [old_i], b);
      Parts(a, [old_i]);
      OldOne(old_i);
      EncodeAppend(a + [old_i], b);
      EncodeAppend(a, [old_i]);
      EncodeOne(i);
      ghost var x, y, z := EncodeAll(a), Encode(old_i), EncodeAll(b);
      EncodeOne(old_i);
      assert buf == base + x + y + z;
      assert buf[..pos] == base + x && buf[pos + Size(i)..] == z;
      EncodeAppend(a, [i]);
      EncodeAppend(a + [i], b);
      assert base + x + Encode(i) + z == base + (x + Encode(i) + z);
      buf := buf[..pos] + Encode(i) + buf[pos + Size(i)..];
    }

    /** Appends a copy of the bytes from start to end. */
    method PutSelf(start: nat, end: nat, ghost base: seq<Byte>, ghost a: seq<Instr>, ghost b: seq<Instr>, ghost c: seq<Instr>)
      requires Holds(buf, base, a + b + c) && start == |base| + CodeSize(a) && end == start + CodeSize(b) <= |buf|
      modifies this`buf
      ensures Holds(buf, base, a + b + c + b)
    {
      hide EncodeAll, Encodable, Encode, AllEncodable, CodeSize;
      Parts(a + b, c);
      Parts(a, b);
      EncodeAppend(a + b, c);
      EncodeAppend(a, b);
      assert buf == base + EncodeAll(a) + EncodeAll(b) + EncodeAll(c);
      assert buf[start..end] == EncodeAll(b);
      HoldsAppend(base, a + b + c, b);
      buf := buf + buf[start..end];
    }

    /** Moves the bytes after mid in front of those from start to mid. */
    method Rotate(start: nat, mid: nat, ghost base: seq<Byte>, ghost a: seq<Instr>, ghost b: seq<Instr>)
      requires Holds(buf, base, a + b) && start == |base| && mid == start + CodeSize(a) <= |buf|
      modifies this`buf
      ensures Holds(buf, base, b + a)
    {
      hide EncodeAll, Encodable, Encode, AllEncodable, CodeSize;
      Parts(a, b);
      EncodeAppend(a, b);
      assert buf == base + EncodeAll(a) + EncodeAll(b);
      assert buf[start..mid] == EncodeAll(a) && buf[mid..] == EncodeAll(b) && buf[..start] == base;
      HoldsAppend(base, b, a);
      buf := buf[..start] + buf[mid..] + buf[start..mid];
    }

    /** Code for a pattern, appended to the buffer. */
    method Term(n: Node, back: bool)
      requires Fits(n, back, captureCount)
      modifies this
      ensures Holds(buf, old(buf), Compile(n, back, old(captureCount)))
      ensures captureCount == old(captureCount) + NumCaps(n)
      decreases n, 1
    {
      hide Compile, Holds, AllEncodable, TestCode;
      ghost var s, x := Subject([], false, false), State(0, []);
      ghost var base := buf;
      HoldsNothing(buf);
      match n
      case Empty =>
        EmptyUnfold(s, back, captureCount, x);
      case Atom(t) =>
        AtomUnfold(s, t, back, captureCount, x);
        EmitAtom(t, back, base);
      case Cat(_, _) =>
        TermCat(n, back);
      case Alt(_, _) =>
        TermAlt(n, back);
      case Group(_) =>
        TermGroup(n, back);
      case Look(_, _, _) =>
        TermLook(n, back);
      case Quant(_, _, _, _) =>
        TermQuant(n, back);
      case BeginLine =>
        EmitAssertion(n, back, LineStart);
      case EndLine =>
        EmitAssertion(n, back, LineEnd);
      case WordEdge(neg) =>
        EmitAssertion(n, back, if neg then NotWordBoundary else WordBoundary);
      case BackReference(g) =>
        BackUnfold(s, g, back, captureCount, x);
        var i := if back then BackwardBackRef(g) else BackRef(g);
        OldOne(i);
        Emit(i, base, []);
        assert [] + [i] == [i];
    }

    method EmitAssertion(n: Node, back: bool, i: Instr)
      requires IsAssertion(n) && i == AssertOp(n)
      modifies this`buf
      ensures Holds(buf, old(buf), Compile(n, back, captureCount)) && NumCaps(n) == 0
    {
      hide Compile, Holds;
      AssertUnfold(Subject([], false, false), n, back, captureCount, State(0, []));
      ghost var base := buf;
      HoldsNothing(buf);
      Emit(i, base, []);
      assert [] + [i] == [i];
    }

    method EmitAtom(t: Test, back: bool, ghost base: seq<Byte>)
      requires Holds(buf, base, []) && AllEncodable(if back then [Prev, TestCode(t), Prev] else [TestCode(t)])
      modifies this`buf
      ensures Holds(buf, base, if back then [Prev, TestCode(t), Prev] else [TestCode(t)])
    {
      hide Holds, TestCode;
      var code := if back then [Prev, TestCode(t), Prev] else [TestCode(t)];
      EmitAll(code, base, []);
      assert [] + code == code;
    }

    /** Two terms; in the backward direction the second one is moved in front. */
    method TermCat(n: Node, back: bool)
      requires n.Cat? && Fits(n, back, captureCount)
      modifies this
      ensures Holds(buf, old(buf), Compile(n, back, old(captureCount)))
      ensures captureCount == old(captureCount) + NumCaps(n)
      decreases n, 0
    {
      hide Compile, Holds, AllEncodable, CodeSize;
      var Cat(l, r) := n;
      ghost var base, cc := buf, captureCount;
      CatUnfold(Subject([], false, false), l, r, back, cc, State(0, []));
      ghost var a, b := Compile(l, back, cc), Compile(r, back, cc + NumCaps(l));
      var start := |buf|;
      Term(l, back);
      HoldsSize(buf, base, a);
      ghost var mid := buf;
      var termStart := |buf|;
      Term(r, back);
      HoldsMore(buf, base, mid, a, b);
      HoldsSize(buf, mid, b);
      if back {
        Rotate(start, termStart, base, a, b);
      }
    }

    /** A split inserted before the first alternative, and a goto patched after the second. */
    method TermAlt(n: Node, back: bool)
      requires n.Alt? && Fits(n, back, captureCount)
      modifies this
      ensures Holds(buf, old(buf), Compile(n, back, old(captureCount)))
      ensures captureCount == old(captureCount) + NumCaps(n)
      decreases n, 0
    {
      hide Compile, Holds, AllEncodable, CodeSize, Encodable;
      var Alt(l, r) := n;
      ghost var base, cc := buf, captureCount;
      AltUnfold(Subject([], false, false), l, r, back, cc, State(0, []));
      ghost var a, b := Compile(l, back, cc), Compile(r, back, cc + NumCaps(l));
      AltFits(a, b);
      var start := |buf|;
      Term(l, back);
      HoldsSize(buf, base, a);
      var len := |buf| - start;
      Insert(start, SplitNextFirst(len + 5), base, a);
      SecondAlternative(r, back, base, [SplitNextFirst(len + 5)] + a);
    }

    /** The goto over the second alternative is patched once its length is known. */
    method SecondAlternative(r: Node, back: bool, ghost base: seq<Byte>, ghost pre: seq<Instr>)
      requires Holds(buf, base, pre) && Fits(r, back, captureCount) && Encodable(Goto(CodeSize(Compile(r, back, captureCount))))
      modifies this
      ensures var b := Compile(r, back, old(captureCount)); Holds(buf, base, pre + [Goto(CodeSize(b))] + b)
      ensures captureCount == old(captureCount) + NumCaps(r)
      decreases r, 2
    {
      hide Compile, Holds, AllEncodable, CodeSize, Encodable, Fits;
      ghost var b := Compile(r, back, captureCount);
      var pos := |buf|;
      HoldsSize(buf, base, pre);
      GotoFits();
      Emit(Goto(0), base, pre);
      ghost var mid := buf;
      Term(r, back);
      HoldsMore(buf, base, mid, pre + [Goto(0)], b);
      HoldsSize(buf, mid, b);
      Patch(pos, Goto(|buf| - (pos + 5)), base, pre, Goto(0), b);
    }

    method TermGroup(n: Node, back: bool)
      requires n.Group? && Fits(n, back, captureCount)
      modifies this
      ensures Holds(buf, old(buf), Compile(n, back, old(captureCount)))
      ensures captureCount == old(captureCount) + NumCaps(n)
      decreases n, 0
    {
      hide Compile, Holds, AllEncodable, Encodable;
      ghost var base, cc := buf, captureCount;
      GroupUnfold(Subject([], false, false), n.n, back, cc, State(0, []));
      ghost var a := Compile(n.n, back, cc + 1);
      var index := captureCount;
      captureCount := captureCount + 1;
      var i, j := if back then SaveEnd(index) else SaveStart(index), if back then SaveStart(index) else SaveEnd(index);
      Each(Compile(n, back, cc), i);
      Each(Compile(n, back, cc), j);
      HoldsNothing(buf);
      Emit(i, base, []);
      assert [] + [i] == [i];
      ghost var mid := buf;
      Term(n.n, back);
      HoldsMore(buf, base, mid, [i], a);
      Emit(j, base, [i] + a);
    }

    /** The jump over a lookahead is patched once its code is known. */
    method TermLook(n: Node, back: bool)
      requires n.Look? && Fits(n, back, captureCount)
      modifies this
      ensures Holds(buf, old(buf), Compile(n, back, old(captureCount)))
      ensures captureCount == old(captureCount) + NumCaps(n)
      decreases n, 0
    {
      hide Compile, Holds, AllEncodable, Encodable, CodeSize;
      var Look(neg, b, m) := n;
      ghost var base, cc := buf, captureCount;
      LookUnfold(Subject([], false, false), neg, b, m, back, cc, State(0, []));
      ghost var a := Compile(m, b, cc);
      LookFits(neg, a);
      var i := if neg then NegLookahead(0) else Lookahead(0);
      GotoFits();
      var pos := |buf|;
      HoldsNothing(buf);
      Emit(i, base, []);
      assert [] + [i] == [i];
      ghost var mid := buf;
      Term(m, b);
      HoldsSize(buf, mid, a);
      HoldsMore(buf, base, mid, [i], a);
      PatchLook(pos, neg, i, base, a);
    }

    method PatchLook(pos: nat, neg: bool, i: Instr, ghost base: seq<Byte>, ghost a: seq<Instr>)
      requires i == (if neg then NegLookahead(0) else Lookahead(0)) && Holds(buf, base, [i] + a) && pos == |base|
      requires Encodable(if neg then NegLookahead(CodeSize(a) + 1) else Lookahead(CodeSize(a) + 1)) && Encodable(Match)
      modifies this`buf
      ensures Holds(buf, base, [if neg then NegLookahead(CodeSize(a) + 1) else Lookahead(CodeSize(a) + 1)] + a + [Match])
    {
      hide Holds, AllEncodable, Encodable, CodeSize;
      HoldsSize(buf, base, [i] + a);
      CodeSizeAppend([i], a);
      OneBytes(i);
      Emit(Match, base, [i] + a);
      LookParts(i, a);
      NoBytes();
      var k := if neg then NegLookahead(|buf| - (pos + 5)) else Lookahead(|buf| - (pos + 5));
      Patch(pos, k, base, [], i, a + [Match]);
      LookParts(k, a);
    }

    method TermQuant(n: Node, back: bool)
      requires n.Quant? && Fits(n, back, captureCount)
      modifies this
      ensures Holds(buf, old(buf), Compile(n, back, old(captureCount)))
      ensures captureCount == old(captureCount) + NumCaps(n)
      decreases n, 0
    {
      hide Compile, Holds, AllEncodable, QuantCode;
      var Quant(m, min, max, greedy) := n;
      ghost var base, cc := buf, captureCount;
      QuantUnfold(Subject([], false, false), n, back, cc, State(0, []));
      var start, first := |buf|, captureCount;
      Term(m, back);
      Quantify(start, first, min, max, greedy, base, Compile(m, back, cc), ResetCode(m, min, cc));
    }

    /** Wraps the atom that starts at `start` into the code of its quantifier. */
    method Quantify(start: nat, first: nat, min: nat, max: Option<nat>, greedy: bool,
                    ghost base: seq<Byte>, ghost a: seq<Instr>, ghost reset: seq<Instr>)
      requires Holds(buf, base, a) && start == |base| && first <= captureCount && GroupsBelow(a)
      requires AllEncodable(QuantCode(a, min, max, greedy, reset))
      requires reset == if min == 0 && first != captureCount then [SaveReset(first, captureCount - 1)] else []
      modifies this`buf
      ensures Holds(buf, base, QuantCode(a, min, max, greedy, reset))
    {
      hide Holds, AllEncodable, QuantCode, Encodable, CodeSize, SimpleCount, TimesCode, MoreCode, OptionalCode, CheckAdvance, SelfRefers,
           EncodeAll, GroupsBelow;
      MatchFits();
      ghost var code := QuantCode(a, min, max, greedy, reset);
      QuantShape(a, min, max, greedy, reset);
      HoldsSize(buf, base, a);
      HoldsFits(buf, base, a);
      var len: int := |buf| - start;
      var check := false;
      if greedy {
        if max != Some(0) {
          var count := CountSimple(buf[start..], a);
          if count.Some? && count.value > 0 {
            var i := SimpleGreedy(len + 1, min, if max.Some? then max.value else INFINITE, count.value);
            LookParts(i, a);
            Pick([], i, a + [Match]);
            Emit(Match, base, a);
            Insert(start, i, base, a + [Match]);
            return;
          }
        }
        var advance := CheckAdvanceBytes(buf[start..], a);
        check := advance == 0;
      }
      if min == 0 {
        Optionally(start, first, max, greedy, check, base, a, reset);
      } else if min == 1 && max == None && !check {
        var i := if greedy then SplitGotoFirst(-(len + 5)) else SplitNextFirst(-(len + 5));
        Parts(a, [i]);
        OldOne(i);
        Emit(i, base, a);
      } else {
        Repeatedly(start, min, max, greedy, check, base, a);
      }
    }

    /** No mandatory iteration: everything is inserted before the atom or appended. */
    method Optionally(start: nat, first: nat, max: Option<nat>, greedy: bool, check: bool,
                      ghost base: seq<Byte>, ghost a: seq<Instr>, ghost reset: seq<Instr>)
      requires Holds(buf, base, a) && start == |base| && first <= captureCount && check == NeedsCheck(a, greedy)
      requires AllEncodable(reset + OptionalCode(a, max, greedy))
      requires reset == if first != captureCount then [SaveReset(first, captureCount - 1)] else []
      modifies this`buf
      ensures Holds(buf, base, reset + OptionalCode(a, max, greedy))
    {
      hide Holds, AllEncodable, Encodable, CodeSize, OptionalCode;
      Parts(reset, OptionalCode(a, max, greedy));
      HoldsSize(buf, base, a);
      var start', len: int := start, |buf| - start;
      ghost var base' := base;
      if first != captureCount {
        Each(reset, SaveReset(first, captureCount - 1));
        Insert(start, SaveReset(first, captureCount - 1), base, a);
        start' := start + 3;
        base' := HoldsSplit(buf, base, reset, a);
        OneBytes(SaveReset(first, captureCount - 1));
      } else {
        HoldsNothing(base);
        NoBytes();
      }
      HoldsSize(base', base, reset);
      if max == Some(0) {
        assert OptionalCode(a, max, greedy) == [] by { OptionalShapes(a, max, greedy); }
        assert reset + [] == reset;
        HoldsSize(buf, base', a);
        HoldsPrefix(buf, base', a);
        buf := buf[..start'];
      } else {
        Loop(start', len, max, greedy, check, base', a);
        HoldsMore(buf, base, base', reset, OptionalCode(a, max, greedy));
      }
    }

    /** The loop around the atom at start. */
    method Loop(start: nat, len: int, max: Option<nat>, greedy: bool, check: bool, ghost base: seq<Byte>, ghost a: seq<Instr>)
      requires Holds(buf, base, a) && start == |base| && len == CodeSize(a) && check == NeedsCheck(a, greedy) && max != Some(0)
      requires AllEncodable(OptionalCode(a, max, greedy))
      modifies this`buf
      ensures Holds(buf, base, OptionalCode(a, max, greedy))
    {
      hide Holds, AllEncodable, Encodable, CodeSize, OptionalCode, NeedsCheck;
      OptionalShapes(a, max, greedy);
      if max == Some(1) {
        assert [Split(greedy, len)] + a + [] == [Split(greedy, len)] + a;
        Around(start, [Split(greedy, len)], [], base, a);
      } else if max.Some? {
        Around(start, [PushI32(max.value), Split(greedy, len + 5)], [ReCode.Loop(-(len + 10)), Drop], base, a);
      } else if check {
        Around(start, [Split(greedy, len + 6), PushCharPos], [BneCharPos(-(len + 11))], base, a);
      } else {
        Around(start, [Split(greedy, len + 5)], [Goto(-(len + 10))], base, a);
      }
    }

    /** Inserts `pre` before the code that starts at start, and appends `post`. */
    method Around(start: nat, pre: seq<Instr>, post: seq<Instr>, ghost base: seq<Byte>, ghost a: seq<Instr>)
      requires Holds(buf, base, a) && start == |base| && AllEncodable(pre + a + post)
      modifies this`buf
      ensures Holds(buf, base, pre + a + post)
    {
      hide Holds, AllEncodable, Encodable;
      Parts(pre + a, post);
      Parts(pre, a);
      assert pre[|pre|..] + a == a;
      for k := |pre| downto 0
        invariant Holds(buf, base, pre[k..] + a)
      {
        Each(pre, pre[k]);
        Insert(start, pre[k], base, pre[k + 1..] + a);
        assert [pre[k]] + (pre[k + 1..] + a) == pre[k..] + a;
      }
      assert pre[0..] == pre;
      EmitAll(post, base, pre + a);
    }

    /** Mandatory iterations, then a copy of the atom for the optional ones. */
    method Repeatedly(start: nat, min: nat, max: Option<nat>, greedy: bool, check: bool, ghost base: seq<Byte>, ghost a: seq<Instr>)
      requires Holds(buf, base, a) && start == |base| && check == NeedsCheck(a, greedy) && min > 0
      requires AllEncodable(TimesCode(a, min) + MoreCode(a, min, max, greedy))
      modifies this`buf
      ensures Holds(buf, base, TimesCode(a, min) + MoreCode(a, min, max, greedy))
    {
      hide Holds, AllEncodable, Encodable, CodeSize, MoreCode, NeedsCheck;
      ghost var times, more := TimesCode(a, min), MoreCode(a, min, max, greedy);
      Parts(times, more);
      HoldsSize(buf, base, a);
      var start', len: int := start, |buf| - start;
      ghost var p: seq<Instr>, q: seq<Instr> := [], [];
      NoBytes();
      assert a == [] + a + [];
      if min != 1 {
        p, q := [PushI32(min)], [ReCode.Loop(-(len + 5)), Drop];
        Around(start, [PushI32(min)], [ReCode.Loop(-(len + 5)), Drop], base, a);
        start' := start + 5;
        OneBytes(PushI32(min));
      }
      MoreShapes(a, min, max, greedy);
      if max == None {
        if check {
          Copying(start', len, [Split(greedy, len + 6), PushCharPos], [BneCharPos(-(len + 11))], base, p, a, q);
        } else {
          Copying(start', len, [Split(greedy, len + 5)], [Goto(-(len + 10))], base, p, a, q);
        }
      } else if max.value > min {
        Copying(start', len, [PushI32(max.value - min), Split(greedy, len + 5)], [ReCode.Loop(-(len + 10)), Drop], base, p, a, q);
      } else {
        assert times + [] == times;
      }
    }

    /** Appends `pre`, a copy of the atom and `post`. */
    method Copying(start: nat, len: int, pre: seq<Instr>, post: seq<Instr>,
                   ghost base: seq<Byte>, ghost p: seq<Instr>, ghost a: seq<Instr>, ghost q: seq<Instr>)
      requires Holds(buf, base, p + a + q) && start == |base| + CodeSize(p) && len == CodeSize(a)
      requires AllEncodable(pre + a + post)
      modifies this`buf
      ensures Holds(buf, base, p + a + q + (pre + a + post))
    {
      hide Holds, AllEncodable, Encodable, CodeSize;
      Parts(pre + a, post);
      Parts(pre, a);
      EmitAll(pre, base, p + a + q);
      CopyParts(p, a, q, pre, post);
      HoldsSize(buf, base, p + a + (q + pre));
      CodeSizeAppend(p + a, q + pre);
      CodeSizeAppend(p, a);
      PutSelf(start, start + len, base, p, a, q + pre);
      EmitAll(post, base, p + a + (q + pre) + a);
    }

    method EmitAll(ops: seq<Instr>, ghost base: seq<Byte>, ghost code: seq<Instr>)
      requires Holds(buf, base, code) && AllEncodable(ops)
      modifies this`buf
      ensures Holds(buf, base, code + ops)
    {
      hide Holds, AllEncodable, Encodable;
      assert code + [] == code;
      for k := 0 to |ops|
        invariant Holds(buf, base, code + ops[..k])
      {
        Each(ops, ops[k]);
        Emit(ops[k], base, code + ops[..k]);
        assert code + ops[..k] + [ops[k]] == code + ops[..k + 1];
      }
      assert ops[..|ops|] == ops;
    }
  }

  lemma {:induction false} Pick(p: seq<Instr>, i: Instr, q: seq<Instr>)
    requires AllEncodable(p + [i] + q)
    ensures Encodable(i)
  {
    assert (p + [i] + q)[|p|] == i;
  }

  lemma {:induction false} AltFits(a: seq<Instr>, b: seq<Instr>)
    requires AllEncodable([SplitNextFirst(CodeSize(a) + 5)] + a + [Goto(CodeSize(b))] + b)
    ensures Encodable(SplitNextFirst(CodeSize(a) + 5)) && Encodable(Goto(CodeSize(b)))
  {
    hide CodeSize, Encodable, AllEncodable;
    var s, g := SplitNextFirst(CodeSize(a) + 5), Goto(CodeSize(b));
    assert [s] + a + [g] + b == [] + [s] + (a + [g] + b);
    Pick([], s, a + [g] + b);
    Pick([s] + a, g, b);
  }

  lemma {:induction false} LookFits(neg: bool, a: seq<Instr>)
    requires AllEncodable([if neg then NegLookahead(CodeSize(a) + 1) else Lookahead(CodeSize(a) + 1)] + a + [Match])
    ensures Encodable(if neg then NegLookahead(CodeSize(a) + 1) else Lookahead(CodeSize(a) + 1)) && Encodable(Match)
  {
    hide CodeSize, Encodable, AllEncodable;
    var i := if neg then NegLookahead(CodeSize(a) + 1) else Lookahead(CodeSize(a) + 1);
    assert [i] + a + [Match] == [] + [i] + (a + [Match]);
    Pick([], i, a + [Match]);
    assert [i] + a + [Match] == [i] + a + [Match] + [];
    Pick([i] + a, Match, []);
  }

  lemma {:induction false} LookParts(i: Instr, a: seq<Instr>)
    ensures [i] + a + [Match] == [] + [i] + (a + [Match]) == [i] + (a + [Match])
  {
  }

  lemma {:induction false} CopyParts(p: seq<Instr>, a: seq<Instr>, q: seq<Instr>, pre: seq<Instr>, post: seq<Instr>)
    ensures p + a + q + pre == p + a + (q + pre)
    ensures p + a + (q + pre) + a + post == p + a + q + (pre + a + post)
  {
  }

  lemma {:induction false} MatchFits()
    ensures Encodable(Match)
  {
  }

  lemma {:induction false} GotoFits()
    ensures Encodable(Goto(0)) && Encodable(Lookahead(0)) && Encodable(NegLookahead(0))
  {
  }

  lemma {:induction false} NoBytes()
    ensures CodeSize([]) == 0
  {
  }

  lemma {:induction false} OneBytes(i: Instr)
    ensures CodeSize([i]) == Size(i)
  {
    assert [i][1..] == [];
  }

  lemma {:induction false} HoldsFits(buf: seq<Byte>, base: seq<Byte>, a: seq<Instr>)
    requires Holds(buf, base, a)
    ensures AllEncodable(a)
  {
  }

  lemma {:induction false} HoldsPrefix(buf: seq<Byte>, base: seq<Byte>, a: seq<Instr>)
    requires Holds(buf, base, a)
    ensures |buf| >= |base| && buf[..|base|] == base
  {
  }

  lemma {:induction false} HoldsSplit(buf: seq<Byte>, base: seq<Byte>, a: seq<Instr>, b: seq<Instr>) returns (mid: seq<Byte>)
    requires Holds(buf, base, a + b)
    ensures Holds(mid, base, a) && Holds(buf, mid, b)
  {
    hide EncodeAll, AllEncodable, CodeSize;
    Parts(a, b);
    EncodeAppend(a, b);
    mid := base + EncodeAll(a);
    assert base + (EncodeAll(a) + EncodeAll(b)) == mid + EncodeAll(b);
  }

  lemma {:induction false} OptionalShapes(a: seq<Instr>, max: Option<nat>, greedy: bool)
    ensures var len: int := CodeSize(a); var code := OptionalCode(a, max, greedy);
            if max == Some(0) then code == []
            else if max == Some(1) then code == [Split(greedy, len)] + a
            else if max.Some? then code == [PushI32(max.value), Split(greedy, len + 5)] + a + [ReCode.Loop(-(len + 10)), Drop]
            else if NeedsCheck(a, greedy) then code == [Split(greedy, len + 6), PushCharPos] + a + [BneCharPos(-(len + 11))]
            else code == [Split(greedy, len + 5)] + a + [Goto(-(len + 10))]
  {
    hide CodeSize, NeedsCheck;
  }

  lemma {:induction false} MoreShapes(a: seq<Instr>, min: nat, max: Option<nat>, greedy: bool)
    ensures var len: int := CodeSize(a); var code := MoreCode(a, min, max, greedy);
            if max.Some? then
              (if max.value > min
               then code == [PushI32(max.value - min), Split(greedy, len + 5)] + a + [ReCode.Loop(-(len + 10)), Drop]
               else code == [])
            else if NeedsCheck(a, greedy) then code == [Split(greedy, len + 6), PushCharPos] + a + [BneCharPos(-(len + 11))]
            else code == [Split(greedy, len + 5)] + a + [Goto(-(len + 10))]
  {
    hide CodeSize, NeedsCheck;
  }

  lemma {:induction false} OldOne(i: Instr)
    requires AllEncodable([i])
    ensures Encodable(i)
  {
    assert i in [i];
  }

  /** The code in front of a pattern that may match anywhere. */
  const AnyPrefix: seq<Instr> := [SplitGotoFirst(1 + 5), AnyChar, Goto(-(5 + 1 + 5))]

  lemma {:induction false} PrefixCode()
    ensures Compile(Quant(Atom(Anything), 0, None, false), false, 0) == AnyPrefix && NumCaps(Quant(Atom(Anything), 0, None, false)) == 0
  {
    hide Compile;
    var s, x, any := Subject([], false, false), State(0, []), Atom(Anything);
    AtomUnfold(s, Anything, false, 0, x);
    QuantUnfold(s, Quant(any, 0, None, false), false, 0, x);
    var a := [AnyChar];
    OneBytes(AnyChar);
    assert StarCode(a, false) == AnyPrefix;
    assert QuantCode(a, 0, None, false, []) == [] + StarCode(a, false);
  }

  /** A program, from its parts. */
  lemma {:induction false} ProgramCode(n: Node, sticky: bool)
    ensures var pre := if sticky then [] else AnyPrefix;
            Program(n, sticky) == pre + [SaveStart(0)] + Compile(n, false, 1) + [SaveEnd(0)] + [Match]
  {
    hide Compile, AnyPrefix, Results, ResultsAll, SetAll, NodeOk, QuantCode, CodeSize, NumCaps;
    var s, x := Subject([], false, false), State(0, []);
    PrefixCode();
    GroupUnfold(s, n, false, 0, x);
    CatUnfold(s, Quant(Atom(Anything), 0, None, false), Group(n), false, 0, x);
    var c := Compile(n, false, 1);
    assert [] + [SaveStart(0)] + c + [SaveEnd(0)] + [Match] == [SaveStart(0)] + c + [SaveEnd(0)] + [Match];
    assert AnyPrefix + ([SaveStart(0)] + c + [SaveEnd(0)]) + [Match] == AnyPrefix + [SaveStart(0)] + c + [SaveEnd(0)] + [Match];
  }

  /**
  Compiles a pattern to its bytes and the stack size they need, or fails with too many groups
  or too deeply nested counters.
  */
  method CompilePattern(n: Node, sticky: bool) returns (r: Option<(seq<Byte>, nat)>)
    requires 1 + NumCaps(n) <= CAPTURE_COUNT_MAX ==> Fits(n, false, 1) && AllEncodable(Program(n, sticky))
    ensures r.Some? <==> 1 + NumCaps(n) <= 255 && MaxDepth(Program(n, sticky), 0) <= 255
    ensures r.Some? ==> r.value.0 == EncodeAll(Program(n, sticky)) && r.value.1 == MaxDepth(Program(n, sticky), 0)
  {
    hide Compile, Holds, AllEncodable, Encodable, Program, Fits, MaxDepth, EncodeAll;
    if 1 + NumCaps(n) > CAPTURE_COUNT_MAX {
      return None;
    }
    ProgramCode(n, sticky);
    ghost var pre := if sticky then [] else AnyPrefix;
    ghost var c := Compile(n, false, 1);
    Parts(pre + [SaveStart(0)] + c + [SaveEnd(0)], [Match]);
    Parts(pre + [SaveStart(0)] + c, [SaveEnd(0)]);
    Parts(pre + [SaveStart(0)], c);
    Parts(pre, [SaveStart(0)]);
    OldOne(Match);
    OldOne(SaveStart(0));
    OldOne(SaveEnd(0));
    var p := new Compiler();
    p.captureCount := 1;
    HoldsNothing([]);
    if !sticky {
      p.EmitAll(AnyPrefix, [], []);
      assert [] + AnyPrefix == AnyPrefix;
    }
    p.Emit(SaveStart(0), [], pre);
    ghost var mid := p.buf;
    p.Term(n, false);
    HoldsMore(p.buf, [], mid, pre + [SaveStart(0)], c);
    p.Emit(SaveEnd(0), [], pre + [SaveStart(0)] + c);
    p.Emit(Match, [], pre + [SaveStart(0)] + c + [SaveEnd(0)]);
    HoldsSize(p.buf, [], Program(n, sticky));
    assert p.buf[0..] == p.buf;
    var size := ComputeStackSize(p.buf, Program(n, sticky));
    if size == None {
      return None;
    }
    r := Some((p.buf, size.value));
  }

  /**
  Compiles a pattern and runs it from a character boundary: character i0 of the text cs. The answer is
  the first result of the pattern; without back references, it is found if and only if the pattern has a
  match at or after i0 (at i0 only if sticky), and its beginning is the leftmost one.
  */
  method MatchPattern(n: Node, sticky: bool, s: Subject, pos: nat)
      returns (ok: bool, matched: bool, caps: seq<Option<nat>>, ghost cs: seq<nat>, ghost i0: nat)
    requires 1 + NumCaps(n) <= CAPTURE_COUNT_MAX ==> Fits(n, false, 1) && AllEncodable(Program(n, sticky))
    requires Accepted(n) && SubjectOk(s) && Boundary(s, pos)
    ensures ok <==> 1 + NumCaps(n) <= 255 && MaxDepth(Program(n, sticky), 0) <= 255
    ensures var rs := Results(s, Whole(n, sticky), false, 0, State(pos, seq(2 + 2 * NumCaps(n), i => None)));
            ok ==> matched == (rs != []) && (matched ==> caps == rs[0].caps)
    ensures CharsOf(s, cs) && i0 <= |cs| && pos == Off(cs, i0)
    ensures ok && RefFree(n) ==>
              (matched <==> exists i :: i0 <= i <= (if sticky then i0 else |cs|) && Begins(cs, s.multiline, n, i))
    ensures ok && RefFree(n) && matched ==>
              |caps| >= 2 && caps[0].Some? && caps[1].Some? && Leftmost(cs, s.multiline, n, i0, caps[0].value, caps[1].value)
  {
    hide Fits, AllEncodable, Program, MaxDepth, EncodeAll, Accepted, Results, Whole, Boundary, Unset, NumCaps, CharsOf, Off, Spans, SubjectOk, Begins;
    cs := HasChars(s);
    i0 := BoundaryIsOff(s, cs, pos);
    var r := CompilePattern(n, sticky);
    ok, matched, caps := r.Some?, false, [];
    StartIs(n, pos);
    if ok {
      matched, caps := Exec(n, sticky, Env(r.value.0, s, r.value.1), Start(n, pos));
      if RefFree(n) {
        var i, j := WholeMeans(s, cs, n, sticky, i0);
      }
    }
  }

  lemma {:induction false} StartIs(n: Node, pos: nat)
    ensures Start(n, pos) == State(pos, seq(2 + 2 * NumCaps(n), i => None))
  {
    hide NumCaps;
    assert Start(n, pos).caps == seq(2 + 2 * NumCaps(n), i => None);
  }
}
