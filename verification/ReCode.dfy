/**
Regular-expression bytecode: the opcodes with their operands, and their byte encoding with
relative, little-endian, signed jump offsets.
*/
module ReCode {

  type Byte = b: nat | b < 256 witness 0

  datatype Option<T> = None | Some(value: T)

  /** One instruction. Offsets are relative to the end of the instruction. */
  datatype Instr =
    | Char(c: nat)
    | Char32(c: nat)
    | Dot
    | AnyChar
    | LineStart
    | LineEnd
    | Goto(off: int)
    | SplitGotoFirst(off: int)
    | SplitNextFirst(off: int)
    | Match
    | SaveStart(idx: nat)
    | SaveEnd(idx: nat)
    | SaveReset(first: nat, last: nat)
    | Loop(off: int)
    | PushI32(val: nat)
    | Drop
    | WordBoundary
    | NotWordBoundary
    | BackRef(group: nat)
    | BackwardBackRef(group: nat)
    | Range(pairs: seq<(nat, nat)>)
    | Range32(pairs: seq<(nat, nat)>)
    | Lookahead(off: int)
    | NegLookahead(off: int)
    | PushCharPos
    | BneCharPos(off: int)
    | Prev
    | SimpleGreedy(next: int, min: nat, max: nat, count: nat)

  const U16: nat := 0x1_0000
  const U32: nat := 0x1_0000_0000

  predicate IsOffset(o: int) {
    -0x8000_0000 <= o < 0x8000_0000
  }

  predicate PairsBelow(pairs: seq<(nat, nat)>, m: nat) {
    |pairs| < U16 && forall p | p in pairs :: p.0 < m && p.1 < m
  }

  /** The operands fit their fields. */
  predicate Encodable(i: Instr) {
    match i
    case Char(c) => c < U16
    case Char32(c) => c < U32
    case Goto(o) => IsOffset(o)
    case SplitGotoFirst(o) => IsOffset(o)
    case SplitNextFirst(o) => IsOffset(o)
    case Loop(o) => IsOffset(o)
    case Lookahead(o) => IsOffset(o)
    case NegLookahead(o) => IsOffset(o)
    case BneCharPos(o) => IsOffset(o)
    case SaveStart(x) => x < 256
    case SaveEnd(x) => x < 256
    case SaveReset(x, y) => x < 256 && y < 256
    case BackRef(g) => g < 256
    case BackwardBackRef(g) => g < 256
    case PushI32(v) => v < U32
    case Range(ps) => PairsBelow(ps, U16)
    case Range32(ps) => PairsBelow(ps, U32)
    case SimpleGreedy(o, a, b, c) => IsOffset(o) && a < U32 && b < U32 && c < U32
    case _ => true
  }

  function PutU16(x: nat): (s: seq<Byte>)
    requires x < U16
    ensures |s| == 2
  {
    [x % 256, x / 256]
  }

  function GetU16(s: seq<Byte>, pos: nat): nat
    requires pos + 2 <= |s|
  {
    var lo: nat, hi: nat := s[pos], s[pos + 1];
    lo + 256 * hi
  }

  function PutU32(x: nat): (s: seq<Byte>)
    requires x < U32
    ensures |s| == 4
  {
    PutU16(x % U16) + PutU16(x / U16)
  }

  function GetU32(s: seq<Byte>, pos: nat): nat
    requires pos + 4 <= |s|
  {
    GetU16(s, pos) + U16 * GetU16(s, pos + 2)
  }

  function PutI32(o: int): (s: seq<Byte>)
    requires IsOffset(o)
    ensures |s| == 4
  {
    PutU32(if o >= 0 then o else o + U32)
  }

  function GetI32(s: seq<Byte>, pos: nat): int
    requires pos + 4 <= |s|
  {
    var x := GetU32(s, pos);
    if x < 0x8000_0000 then x else x - U32
  }

  lemma {:induction false} U16RoundTrip(x: nat, rest: seq<Byte>)
    requires x < U16
    ensures GetU16(PutU16(x) + rest, 0) == x
  {
  }

  /** Reading at an offset is reading the suffix. */
  lemma {:induction false} Shift(s: seq<Byte>, t: seq<Byte>, pos: nat)
    ensures pos + 2 <= |t| ==> GetU16(s + t, |s| + pos) == GetU16(t, pos)
    ensures pos + 4 <= |t| ==> GetU32(s + t, |s| + pos) == GetU32(t, pos)
  {
    if pos + 2 <= |t| {
      assert (s + t)[|s| + pos] == t[pos] && (s + t)[|s| + (pos + 1)] == t[pos + 1];
    }
    if pos + 4 <= |t| {
      assert (s + t)[|s| + (pos + 2)] == t[pos + 2] && (s + t)[|s| + (pos + 3)] == t[pos + 3];
    }
  }

  lemma {:induction false} U32RoundTrip(x: nat, rest: seq<Byte>)
    requires x < U32
    ensures GetU32(PutU32(x) + rest, 0) == x
  {
    var lo, hi := PutU16(x % U16), PutU16(x / U16);
    assert PutU32(x) + rest == lo + (hi + rest);
    U16RoundTrip(x % U16, hi + rest);
    U16RoundTrip(x / U16, rest);
    Shift(lo, hi + rest, 0);
  }

  lemma {:induction false} I32RoundTrip(o: int, rest: seq<Byte>)
    requires IsOffset(o)
    ensures GetI32(PutI32(o) + rest, 0) == o
  {
    U32RoundTrip(if o >= 0 then o else o + U32, rest);
  }

  function PutPairs(pairs: seq<(nat, nat)>, wide: bool): (s: seq<Byte>)
    requires PairsBelow(pairs, if wide then U32 else U16)
    ensures |s| == |pairs| * (if wide then 8 else 4)
  {
    if pairs == [] then []
    else
      assert pairs[0] in pairs;
      (if wide then PutU32(pairs[0].0) + PutU32(pairs[0].1) else PutU16(pairs[0].0) + PutU16(pairs[0].1))
      + PutPairs(pairs[1..], wide)
  }

  function GetPairs(s: seq<Byte>, n: nat, wide: bool): (ps: seq<(nat, nat)>)
    requires n * (if wide then 8 else 4) <= |s|
    ensures |ps| == n
  {
    if n == 0 then []
    else if wide then [(GetU32(s, 0), GetU32(s, 4))] + GetPairs(s[8..], n - 1, wide)
    else [(GetU16(s, 0), GetU16(s, 2))] + GetPairs(s[4..], n - 1, wide)
  }

  lemma {:induction false} WideFirst(x: nat, y: nat, t: seq<Byte>)
    requires x < U32 && y < U32
    ensures var s := PutU32(x) + PutU32(y) + t; GetU32(s, 0) == x && GetU32(s, 4) == y && s[8..] == t
  {
    hide GetU32, PutU32;
    var a, b := PutU32(x), PutU32(y);
    assert a + b + t == a + (b + t);
    U32RoundTrip(x, b + t);
    U32RoundTrip(y, t);
    Shift(a, b + t, 0);
  }

  lemma {:induction false} NarrowFirst(x: nat, y: nat, t: seq<Byte>)
    requires x < U16 && y < U16
    ensures var s := PutU16(x) + PutU16(y) + t; GetU16(s, 0) == x && GetU16(s, 2) == y && s[4..] == t
  {
    hide GetU16, PutU16;
    var a, b := PutU16(x), PutU16(y);
    assert a + b + t == a + (b + t);
    U16RoundTrip(x, b + t);
    U16RoundTrip(y, t);
    Shift(a, b + t, 0);
  }

  lemma {:induction false} PairsRoundTrip(pairs: seq<(nat, nat)>, wide: bool, rest: seq<Byte>)
    requires PairsBelow(pairs, if wide then U32 else U16)
    ensures GetPairs(PutPairs(pairs, wide) + rest, |pairs|, wide) == pairs
  {
    hide GetU16, PutU16, GetU32, PutU32;
    if pairs != [] {
      assert pairs[0] in pairs;
      var (x, y) := pairs[0];
      var more := PutPairs(pairs[1..], wide);
      PairsRoundTrip(pairs[1..], wide, rest);
      if wide {
        WideFirst(x, y, more + rest);
        assert PutPairs(pairs, wide) + rest == PutU32(x) + PutU32(y) + (more + rest);
      } else {
        NarrowFirst(x, y, more + rest);
        assert PutPairs(pairs, wide) + rest == PutU16(x) + PutU16(y) + (more + rest);
      }
    }
  }

  function Opcode(i: Instr): Byte {
    match i
    case Char(_) => 1
    case Char32(_) => 2
    case Dot => 3
    case AnyChar => 4
    case LineStart => 5
    case LineEnd => 6
    case Goto(_) => 7
    case SplitGotoFirst(_) => 8
    case SplitNextFirst(_) => 9
    case Match => 10
    case SaveStart(_) => 11
    case SaveEnd(_) => 12
    case SaveReset(_, _) => 13
    case Loop(_) => 14
    case PushI32(_) => 15
    case Drop => 16
    case WordBoundary => 17
    case NotWordBoundary => 18
    case BackRef(_) => 19
    case BackwardBackRef(_) => 20
    case Range(_) => 21
    case Range32(_) => 22
    case Lookahead(_) => 23
    case NegLookahead(_) => 24
    case PushCharPos => 25
    case BneCharPos(_) => 26
    case Prev => 27
    case SimpleGreedy(_, _, _, _) => 28
  }

  function Operands(i: Instr): (s: seq<Byte>)
    requires Encodable(i)
  {
    match i
    case Char(c) => PutU16(c)
    case Char32(c) => PutU32(c)
    case Goto(o) => PutI32(o)
    case SplitGotoFirst(o) => PutI32(o)
    case SplitNextFirst(o) => PutI32(o)
    case Loop(o) => PutI32(o)
    case Lookahead(o) => PutI32(o)
    case NegLookahead(o) => PutI32(o)
    case BneCharPos(o) => PutI32(o)
    case SaveStart(x) => [x]
    case SaveEnd(x) => [x]
    case SaveReset(x, y) => [x, y]
    case BackRef(g) => [g]
    case BackwardBackRef(g) => [g]
    case PushI32(v) => PutU32(v)
    case Range(ps) => PutU16(|ps|) + PutPairs(ps, false)
    case Range32(ps) => PutU16(|ps|) + PutPairs(ps, true)
    case SimpleGreedy(o, a, b, c) => PutI32(o) + PutU32(a) + PutU32(b) + PutU32(c)
    case _ => []
  }

  /** The bytes of an instruction. */
  function Encode(i: Instr): (s: seq<Byte>)
    requires Encodable(i)
    ensures |s| >= 1
  {
    [Opcode(i)] + Operands(i)
  }

  /** The instruction at the start of a byte sequence, if there is one. */
  function Decode(s: seq<Byte>): Option<Instr> {
    if |s| == 0 then None
    else
      var op, t := s[0], s[1..];
      if op == 3 then Some(Dot)
      else if op == 4 then Some(AnyChar)
      else if op == 5 then Some(LineStart)
      else if op == 6 then Some(LineEnd)
      else if op == 10 then Some(Match)
      else if op == 16 then Some(Drop)
      else if op == 17 then Some(WordBoundary)
      else if op == 18 then Some(NotWordBoundary)
      else if op == 25 then Some(PushCharPos)
      else if op == 27 then Some(Prev)
      else if op == 11 && |t| >= 1 then Some(SaveStart(t[0]))
      else if op == 12 && |t| >= 1 then Some(SaveEnd(t[0]))
      else if op == 19 && |t| >= 1 then Some(BackRef(t[0]))
      else if op == 20 && |t| >= 1 then Some(BackwardBackRef(t[0]))
      else if op == 13 && |t| >= 2 then Some(SaveReset(t[0], t[1]))
      else if op == 1 && |t| >= 2 then Some(Char(GetU16(t, 0)))
      else if op == 21 && |t| >= 2 && |t| >= 2 + 4 * GetU16(t, 0) then
        Some(Range(GetPairs(t[2..], GetU16(t, 0), false)))
      else if op == 22 && |t| >= 2 && |t| >= 2 + 8 * GetU16(t, 0) then
        Some(Range32(GetPairs(t[2..], GetU16(t, 0), true)))
      else if |t| < 4 then None
      else if op == 2 then Some(Char32(GetU32(t, 0)))
      else if op == 7 then Some(Goto(GetI32(t, 0)))
      else if op == 8 then Some(SplitGotoFirst(GetI32(t, 0)))
      else if op == 9 then Some(SplitNextFirst(GetI32(t, 0)))
      else if op == 14 then Some(Loop(GetI32(t, 0)))
      else if op == 15 then Some(PushI32(GetU32(t, 0)))
      else if op == 23 then Some(Lookahead(GetI32(t, 0)))
      else if op == 24 then Some(NegLookahead(GetI32(t, 0)))
      else if op == 26 then Some(BneCharPos(GetI32(t, 0)))
      else if op == 28 && |t| >= 16 then
        Some(SimpleGreedy(GetI32(t, 0), GetU32(t, 4), GetU32(t, 8), GetU32(t, 12)))
      else None
  }

  predicate HasOffset(i: Instr) {
    i.Goto? || i.SplitGotoFirst? || i.SplitNextFirst? || i.Loop? || i.Lookahead? || i.NegLookahead? || i.BneCharPos?
  }

  /** Decoding undoes encoding, whatever follows. */
  lemma {:induction false} RoundTrip(i: Instr, rest: seq<Byte>)
    requires Encodable(i)
    ensures Decode(Encode(i) + rest) == Some(i)
  {
    if HasOffset(i) {
      OffsetRoundTrip(i, rest);
    } else {
      OtherRoundTrip(i, rest);
    }
  }

  lemma {:induction false} OffsetRoundTrip(i: Instr, rest: seq<Byte>)
    requires Encodable(i) && HasOffset(i)
    ensures Decode(Encode(i) + rest) == Some(i)
  {
    hide GetU16, GetU32, PutU16, PutU32, GetI32, PutI32, GetPairs, PutPairs;
    I32RoundTrip(i.off, rest);
    var s, t := Encode(i) + rest, PutI32(i.off) + rest;
    assert Operands(i) == PutI32(i.off);
    assert s[0] == Opcode(i) && s[1..] == t;
    assert GetI32(t, 0) == i.off && |t| >= 4;
  }

  lemma {:induction false} OtherRoundTrip(i: Instr, rest: seq<Byte>)
    requires Encodable(i) && !HasOffset(i)
    ensures Decode(Encode(i) + rest) == Some(i)
  {
    hide GetU16, GetU32, PutU16, PutU32, GetI32, PutI32, GetPairs, PutPairs;
    assert (Encode(i) + rest)[1..] == Operands(i) + rest;
    match i
    case Char(c) => U16RoundTrip(c, rest);
    case Char32(c) => U32RoundTrip(c, rest);
    case PushI32(v) => U32RoundTrip(v, rest);
    case Range(ps) => RangeRoundTrip(ps, false, rest);
    case Range32(ps) => RangeRoundTrip(ps, true, rest);
    case SimpleGreedy(o, a, b, c) => GreedyRoundTrip(o, a, b, c, rest);
    case _ =>
  }

  lemma {:induction false} RangeRoundTrip(ps: seq<(nat, nat)>, wide: bool, rest: seq<Byte>)
    requires PairsBelow(ps, if wide then U32 else U16)
    ensures var t := PutU16(|ps|) + PutPairs(ps, wide) + rest;
            GetU16(t, 0) == |ps| && |t| >= 2 + (if wide then 8 else 4) * |ps| && GetPairs(t[2..], |ps|, wide) == ps
  {
    var n, m := PutU16(|ps|), PutPairs(ps, wide);
    assert n + m + rest == n + (m + rest) && (n + m + rest)[2..] == m + rest;
    U16RoundTrip(|ps|, m + rest);
    PairsRoundTrip(ps, wide, rest);
  }

  lemma {:induction false} GreedyRoundTrip(o: int, a: nat, b: nat, c: nat, rest: seq<Byte>)
    requires IsOffset(o) && a < U32 && b < U32 && c < U32
    ensures var t := PutI32(o) + PutU32(a) + PutU32(b) + PutU32(c) + rest;
            GetI32(t, 0) == o && GetU32(t, 4) == a && GetU32(t, 8) == b && GetU32(t, 12) == c
  {
    hide GetU16, GetU32, PutU16, PutU32, PutI32;
    var w, x, y, z := PutI32(o), PutU32(a), PutU32(b), PutU32(c);
    var t := w + x + y + z + rest;
    I32RoundTrip(o, x + (y + (z + rest)));
    assert t == w + (x + (y + (z + rest)));
    U32RoundTrip(a, y + (z + rest));
    Shift(w, x + (y + (z + rest)), 0);
    U32RoundTrip(b, z + rest);
    assert t == (w + x) + (y + (z + rest));
    Shift(w + x, y + (z + rest), 0);
    U32RoundTrip(c, rest);
    assert t == (w + x + y) + (z + rest);
    Shift(w + x + y, z + rest, 0);
  }

  /** All instructions of a program, encodable. */
  ghost predicate AllEncodable(code: seq<Instr>) {
    forall i | i in code :: Encodable(i)
  }

  /** The number of bytes of an instruction, and of a program. */
  function Size(i: Instr): (n: nat)
    ensures n >= 1
    ensures Encodable(i) ==> n == |Encode(i)|
  {
    hide PutU16, PutU32, PutI32, PutPairs;
    match i
    case Char(_) => 3
    case Char32(_) => 5
    case Goto(_) => 5
    case SplitGotoFirst(_) => 5
    case SplitNextFirst(_) => 5
    case Loop(_) => 5
    case Lookahead(_) => 5
    case NegLookahead(_) => 5
    case BneCharPos(_) => 5
    case PushI32(_) => 5
    case SaveStart(_) => 2
    case SaveEnd(_) => 2
    case SaveReset(_, _) => 3
    case BackRef(_) => 2
    case BackwardBackRef(_) => 2
    case Range(ps) => 3 + 4 * |ps|
    case Range32(ps) => 3 + 8 * |ps|
    case SimpleGreedy(_, _, _, _) => 17
    case _ => 1
  }

  function CodeSize(code: seq<Instr>): nat {
    if code == [] then 0 else Size(code[0]) + CodeSize(code[1..])
  }

  /** The bytes of a program. */
  ghost function EncodeAll(code: seq<Instr>): (s: seq<Byte>)
    requires AllEncodable(code)
    ensures |s| == CodeSize(code)
  {
    if code == [] then []
    else
      assert code[0] in code;
      Encode(code[0]) + EncodeAll(code[1..])
  }

  lemma {:induction false} CodeSizeAppend(a: seq<Instr>, b: seq<Instr>)
    ensures CodeSize(a + b) == CodeSize(a) + CodeSize(b)
  {
    if a == [] {
      assert a + b == b;
    } else {
      assert (a + b)[1..] == a[1..] + b;
      CodeSizeAppend(a[1..], b);
    }
  }

  lemma {:induction false} EncodeAppend(a: seq<Instr>, b: seq<Instr>)
    requires AllEncodable(a) && AllEncodable(b)
    ensures AllEncodable(a + b) && EncodeAll(a + b) == EncodeAll(a) + EncodeAll(b)
  {
    if a == [] {
      assert a + b == b;
    } else {
      assert (a + b)[1..] == a[1..] + b;
      EncodeAppend(a[1..], b);
      assert a[0] in a;
    }
  }
}
