/** Bitwise operations on signed integers of any size, limb by limb in a truncated window. */
module BitwiseLogic {
  import opened Arith
  import opened Limbs
  import opened RoundSpec
  import opened LimbBits
  import opened BigFloats
  import opened FloatAddition

  datatype LogicOp = Or | Xor | And

  function Apply(op: LogicOp, x: bool, y: bool): bool {
    match op
    case Or => x || y
    case Xor => x != y
    case And => x && y
  }

  /** Bit i of a natural number. */
  predicate Bit(x: nat, i: nat) {
    Quo(x, i) % 2 == 1
  }

  /** Bit i of the infinite two's-complement expansion: of a, or the complement of bit i of -a - 1. */
  predicate BitZ(a: int, i: nat) {
    if a >= 0 then Bit(a, i) else !Bit(-(a + 1), i)
  }

  /** The magnitude that is read: of a, or of a + 1 if a is negative. */
  function Magn(a: int): nat {
    if a < 0 then -(a + 1) else a
  }

  /** The integer with this sign and this magnitude, read in the same way. */
  function WithSign(neg: bool, v: nat): int {
    if neg then -(v as int) - 1 else v
  }

  /** That is the parity of a / 2^i, rounded down. */
  lemma {:induction false} BitIsFloor(a: int, i: nat)
    ensures BitZ(a, i) <==> (a / Pow2(i)) % 2 == 1
  {
    hide Pow2;
    var w: int := Pow2(i);
    if a >= 0 {
      SplitAt(a, i);
      FloorIs(a, w, Quo(a, i), Rem(a, i));
    } else {
      var x: nat := -(a + 1);
      hide Quo, Rem;
      SplitAt(x, i);
      var q: int, r: int := Quo(x, i), Rem(x, i);
      MulDist(-q, 1, w);
      assert -q * w == -(q * w) by { MulDist(0, q, w); }
      FloorIs(a, w, -q - 1, w - 1 - r);
    }
  }

  lemma {:induction false} FloorIs(a: int, w: int, q: int, r: int)
    requires w >= 1 && a == q * w + r && 0 <= r < w
    ensures a / w == q
  {
    DivUnique(a / w, a % w, q, r, w);
  }

  /** x op y on words of n bits. */
  function LogicWord(op: LogicOp, x: nat, y: nat, n: nat): (z: nat)
    ensures z < Pow2(n)
    decreases n
  {
    if n == 0 then 0
    else 2 * LogicWord(op, x / 2, y / 2, n - 1) + if Apply(op, x % 2 == 1, y % 2 == 1) then 1 else 0
  }

  lemma {:induction false} BitSucc(x: nat, i: nat)
    ensures Bit(x, i + 1) == Bit(x / 2, i) && Bit(x, 0) == (x % 2 == 1)
  {
    hide Quo, Rem, Pow2;
    QuoOne(x);
    QuoQuo(x, 1, i);
    TwoIsPow();
    SplitIs(x, 1, x / 2, x % 2);
  }

  lemma {:induction false} LogicBits(op: LogicOp, x: nat, y: nat, n: nat, t: nat)
    requires t < n
    ensures Bit(LogicWord(op, x, y, n), t) == Apply(op, Bit(x, t), Bit(y, t))
    decreases t
  {
    hide Quo, Bit;
    var z := LogicWord(op, x, y, n);
    BitSucc(x, if t == 0 then 0 else t - 1);
    BitSucc(y, if t == 0 then 0 else t - 1);
    BitSucc(z, if t == 0 then 0 else t - 1);
    if t > 0 {
      LogicBits(op, x / 2, y / 2, n - 1, t - 1);
      assert z / 2 == LogicWord(op, x / 2, y / 2, n - 1);
    }
  }

  /** x ^ mask, for a mask of zeros or ones. */
  function MaskLimb(x: Limb, neg: bool): Limb {
    if neg then B - 1 - x else x
  }

  lemma {:induction false} MaskBits(x: Limb, neg: bool, lb: nat, t: nat)
    requires Binary(lb) && t < lb
    ensures Bit(MaskLimb(x, neg), t) == (Bit(x, t) != neg)
  {
    hide Quo, Rem, Pow2;
    if neg {
      BitInLimb(lb, t);
      SplitAt(x, t);
      var w, q, r := Pow2(t), Quo(x, t), Rem(x, t);
      var c := Pow2(lb - t);
      QuoBelow(x, t, c);
      MulDist(c - 1, q, w);
      MulDist(c, 1, w);
      SplitIs(B - 1 - x, t, c - 1 - q, w - 1 - r);
      Parity(c, q);
    }
  }

  lemma {:induction false} Parity(c: nat, q: nat)
    requires c % 2 == 0 && q < c
    ensures ((c - 1 - q) % 2 == 1) == (q % 2 == 0)
  {
  }

  /** Bits of a vector are bits of its limbs. */
  lemma {:induction false} BitOfLimb(s: seq<Limb>, lb: nat, j: nat, t: nat)
    requires Binary(lb) && j < |s| && t < lb
    ensures Bit(Val(s), j * lb + t) == Bit(s[j], t)
  {
    hide Val, Pow, Pow2, Quo;
    CutAt(s, lb, j, t);
    BitInLimb(lb, t);
    EvenAdd(Quo(s[j], t), Pow2(lb - t - 1), Val(s[j + 1..]));
  }

  /** Bits of a number are bits of its digits. */
  lemma {:induction false} BitOfDigit(x: nat, lb: nat, j: nat, t: nat)
    requires t < lb
    ensures Bit(Digit(x, lb, j), t) == Bit(x, j * lb + t)
  {
    hide Quo, Rem, Pow2;
    var y := Quo(x, j * lb);
    QuoQuo(x, j * lb, t);
    SplitAt(y, lb);
    var d, h := Rem(y, lb), Quo(y, lb);
    SplitAt(d, t);
    Pow2Add(lb - t, t);
    MulAssoc(h, Pow2(lb - t), Pow2(t));
    MulDist(h * Pow2(lb - t), Quo(d, t), Pow2(t));
    SplitIs(y, t, h * Pow2(lb - t) + Quo(d, t), Rem(d, t));
    EvenPow(lb - t);
    EvenTimesAny(h, Pow2(lb - t), Quo(d, t));
  }

  lemma {:induction false} EvenPow(k: nat)
    requires k >= 1
    ensures Pow2(k) % 2 == 0
  {
  }

  lemma {:induction false} EvenTimesAny(h: nat, w: nat, q: nat)
    requires w % 2 == 0
    ensures (h * w + q) % 2 == q % 2
  {
    assert h * w == h * (w / 2) * 2 by { MulAssoc(h, w / 2, 2); }
  }

  lemma {:induction false} NoBitsAbove(x: nat, n: nat, i: nat)
    requires x < Pow2(n) && n <= i
    ensures !Bit(x, i)
  {
    hide Quo, Rem, Pow2;
    Pow2Mono(n, i);
    SplitIs(x, i, 0, x);
  }

  /** How many bits the result needs: enough for both operands, or for the shorter one of an `and` of non-negatives. */
  function Window(op: LogicOp, la: int, lbb: int, aNeg: bool, bNeg: bool): int {
    if op == And && !(aNeg && bNeg) then
      (if !aNeg && !bNeg then (if la <= lbb then la else lbb) else if !aNeg then la else lbb)
    else if la >= lbb then la else lbb
  }

  /** An exponent as a number of bits; that of zero is far below. */
  function Bits(expn: int): nat {
    if expn >= 0 then expn else 0
  }

  /** Above the window the bits of the result are its sign. */
  lemma {:induction false} AboveWindow(op: LogicOp, a: int, b: int, la: int, lbb: int, i: nat)
    requires Magn(a) < Pow2(Bits(la)) && Magn(b) < Pow2(Bits(lbb))
    requires i >= Window(op, la, lbb, a < 0, b < 0)
    ensures Apply(op, BitZ(a, i), BitZ(b, i)) == Apply(op, a < 0, b < 0)
  {
    hide Bit, Pow2;
    if i >= la {
      NoBitsAbove(Magn(a), Bits(la), i);
    }
    if i >= lbb {
      NoBitsAbove(Magn(b), Bits(lbb), i);
    }
  }

  /** f holds the natural number m: the exponent is its number of bits, and the limbs are its bits from the top. */
  ghost predicate Holds(f: BigFloat, m: nat, lb: nat)
    reads f, f.tab
  {
    f.Valid() &&
    if m == 0 then f.len == 0 && f.expn == EXP_ZERO
    else
      var off := f.len * lb - f.expn;
      f.expn >= 1 && Pow2(f.expn - 1) <= m < Pow2(f.expn) &&
      if off >= 0 then f.Mant() == m * Pow2(off) else m == f.Mant() * Pow2(-off)
  }

  /** The value of such a number. */
  lemma {:induction false} HeldValue(f: BigFloat, m: nat, lb: nat)
    requires Holds(f, m, lb)
    ensures f.Magnitude(lb) == m as real
  {
    hide Pow2, P2;
    FloatWhole(m);
    if m == 0 {
      assert f.tab[..0] == [];
    } else {
      var off := f.len * lb - f.expn;
      if off >= 0 {
        FloatShift(m, -off, off);
      } else {
        FloatShift(f.Mant(), 0, -off);
      }
    }
  }

  lemma {:induction false} FloatWhole(m: nat)
    ensures Float(m, 0) == m as real
  {
  }

  /** The limbs read at the bit offset of an operand are the digits of its number. */
  lemma {:induction false} OperandDigit(f: BigFloat, m: nat, lb: nat, i: nat)
    requires Holds(f, m, lb)
    ensures BitsAt(f.Mant(), lb, f.len * lb - f.expn + i * lb) == Digit(m, lb, i)
  {
    hide Quo, Rem, Pow2;
    var off := f.len * lb - f.expn;
    if m == 0 {
      assert f.tab[..0] == [];
      NoBits(lb, off + i * lb, i);
    } else if off >= 0 {
      SplitIs(f.Mant(), off, m, 0);
      QuoQuo(f.Mant(), off, i * lb);
    } else {
      DigitOfShifted(f.Mant(), -off, lb, i);
    }
  }

  lemma {:induction false} NoBits(lb: nat, pos: int, i: nat)
    ensures BitsAt(0, lb, pos) == 0 == Digit(0, lb, i)
  {
    hide Quo, Rem, Pow2;
    SplitIs(0, lb, 0, 0);
    SplitIs(0, i * lb, 0, 0);
    if pos >= 0 {
      SplitIs(0, pos, 0, 0);
    }
  }

  lemma {:induction false} HeldBits(f: BigFloat, m: nat, lb: nat)
    requires Holds(f, m, lb)
    ensures m < Pow2(Bits(f.expn))
  {
    hide Pow2;
    if m == 0 {
      OneIsPow();
    }
  }

  /** One limb of the result. */
  function LogicLimb(op: LogicOp, x: nat, y: nat, lb: nat, j: nat, aNeg: bool, bNeg: bool): (z: Limb)
    requires Binary(lb)
  {
    MaskLimb(LogicWord(op, MaskLimb(DigitOf(x, lb, j), aNeg), MaskLimb(DigitOf(y, lb, j), bNeg), lb), Apply(op, aNeg, bNeg))
  }

  function DigitOf(x: nat, lb: nat, j: nat): (d: Limb)
    requires Binary(lb)
    ensures d == Digit(x, lb, j)
  {
    hide Quo, Rem, Pow2;
    SplitAt(Quo(x, j * lb), lb);
    Digit(x, lb, j)
  }

  lemma {:induction false} LogicLimbBits(op: LogicOp, a: int, b: int, lb: nat, j: nat, t: nat)
    requires Binary(lb) && t < lb
    ensures Bit(LogicLimb(op, Magn(a), Magn(b), lb, j, a < 0, b < 0), t) ==
            (Apply(op, BitZ(a, j * lb + t), BitZ(b, j * lb + t)) != Apply(op, a < 0, b < 0))
  {
    hide Bit, Digit, LogicWord, MaskLimb, Pow2;
    var x, y := Magn(a), Magn(b);
    var u, v := MaskLimb(DigitOf(x, lb, j), a < 0), MaskLimb(DigitOf(y, lb, j), b < 0);
    BitOfDigit(x, lb, j, t);
    BitOfDigit(y, lb, j, t);
    MaskBits(DigitOf(x, lb, j), a < 0, lb, t);
    MaskBits(DigitOf(y, lb, j), b < 0, lb, t);
    LogicBits(op, u, v, lb, t);
    MaskBits(LogicWord(op, u, v, lb), Apply(op, a < 0, b < 0), lb, t);
  }

  /**
  bf_logic_op: on sign and magnitude, where x and y hold the magnitudes of a and b, or of a + 1 and
  b + 1 if these are negative.
  */
  method LogicOperation(op: LogicOp, x: BigFloat, aNeg: bool, y: BigFloat, bNeg: bool, lb: nat, ghost a: int, ghost b: int)
      returns (r: int, ghost tab: seq<Limb>)
    requires Binary(lb) && lb >= 1 && aNeg == (a < 0) && bNeg == (b < 0) && Holds(x, Magn(a), lb) && Holds(y, Magn(b), lb)
    ensures op == Or ==> forall i: nat :: BitZ(r, i) == (BitZ(a, i) || BitZ(b, i))
    ensures op == Xor ==> forall i: nat :: BitZ(r, i) == (BitZ(a, i) != BitZ(b, i))
    ensures op == And ==> forall i: nat :: BitZ(r, i) == (BitZ(a, i) && BitZ(b, i))
  {
    hide Val, Pow, Pow2, BitZ, Digit, LogicWord, MaskLimb, LogicLimb, BitsAt, Holds;
    HeldBits(x, Magn(a), lb);
    HeldBits(y, Magn(b), lb);
    HeldValid(x, Magn(a), lb);
    HeldValid(y, Magn(b), lb);
    var rNeg := Apply(op, aNeg, bNeg);
    var w := Window(op, x.expn, y.expn, aNeg, bNeg);
    var l, _ := CeilDiv(if w >= 1 then w else 1, lb);
    var out := new Limb[l];
    for i := 0 to l
      invariant forall j :: 0 <= j < i ==> out[j] == LogicLimb(op, Magn(a), Magn(b), lb, j, aNeg, bNeg)
    {
      var v1 := GetBits(x.tab, x.len, lb, x.len * lb - x.expn + i * lb);
      var v2 := GetBits(y.tab, y.len, lb, y.len * lb - y.expn + i * lb);
      OperandDigit(x, Magn(a), lb, i);
      OperandDigit(y, Magn(b), lb, i);
      LogicLimbIs(op, Magn(a), Magn(b), lb, i, aNeg, bNeg, v1, v2);
      out[i] := MaskLimb(LogicWord(op, MaskLimb(v1, aNeg), MaskLimb(v2, bNeg), lb), rNeg);
    }
    tab := out[..];
    var v := Assemble(out, lb);
    r := WithSign(rNeg, v);
    forall i: nat
      ensures BitZ(r, i) == Apply(op, BitZ(a, i), BitZ(b, i))
    {
      ResultBit(op, a, b, lb, x.expn, y.expn, tab, v, i);
    }
  }

  lemma {:induction false} HeldValid(f: BigFloat, m: nat, lb: nat)
    requires Holds(f, m, lb)
    ensures f.Valid()
  {
  }

  lemma {:induction false} LogicLimbIs(op: LogicOp, x: nat, y: nat, lb: nat, j: nat, aNeg: bool, bNeg: bool, v1: Limb, v2: Limb)
    requires Binary(lb) && v1 == Digit(x, lb, j) && v2 == Digit(y, lb, j)
    ensures LogicWord(op, MaskLimb(v1, aNeg), MaskLimb(v2, bNeg), lb) < B
    ensures LogicLimb(op, x, y, lb, j, aNeg, bNeg) == MaskLimb(LogicWord(op, MaskLimb(v1, aNeg), MaskLimb(v2, bNeg), lb), Apply(op, aNeg, bNeg))
  {
    hide LogicWord, MaskLimb, Digit, Pow2;
  }

  /** The integer with these limbs: normalization at infinite precision keeps the value. */
  method Assemble(out: array<Limb>, lb: nat) returns (v: nat)
    ensures v == Val(out[..])
  {
    hide Val, Pow;
    v := 0;
    var i := out.Length;
    assert out[i..] == [];
    ValZeros(out[i..]);
    while i > 0
      invariant 0 <= i <= out.Length && v == Val(out[i..])
    {
      i := i - 1;
      assert out[i..] == [out[i]] + out[i + 1..];
      ValCons(out[i], out[i + 1..]);
      v := out[i] + B * v;
    }
    assert out[0..] == out[..];
  }

  lemma {:induction false} ResultBit(op: LogicOp, a: int, b: int, lb: nat, la: int, lbb: int, tab: seq<Limb>, v: nat, i: nat)
    requires Binary(lb) && lb >= 1 && v == Val(tab) && |tab| * lb >= Window(op, la, lbb, a < 0, b < 0)
    requires Magn(a) < Pow2(Bits(la)) && Magn(b) < Pow2(Bits(lbb))
    requires forall j :: 0 <= j < |tab| ==> tab[j] == LogicLimb(op, Magn(a), Magn(b), lb, j, a < 0, b < 0)
    ensures BitZ(WithSign(Apply(op, a < 0, b < 0), v), i) == Apply(op, BitZ(a, i), BitZ(b, i))
  {
    hide Val, Pow, Pow2, Bit, LogicLimb;
    var j, t := DivMod(i, lb);
    if j < |tab| {
      BitOfLimb(tab, lb, j, t);
      LogicLimbBits(op, a, b, lb, j, t);
    } else {
      MulMono(|tab|, j, lb);
      BoundV(tab, lb);
      NoBitsAbove(v, |tab| * lb, i);
      AboveWindow(op, a, b, la, lbb, i);
    }
  }
}
