/** Integer square root with remainder of one machine word: a table and two doubling steps. */
module WordSqrt {
  import opened Arith
  import opened LimbOps

  /** s is the integer square root of a and r the remainder. */
  ghost predicate IsSqrtRem(a: int, s: int, r: int) {
    0 <= s && a == s * s + r && 0 <= r <= 2 * s
  }

  /** The square root of a number, if it has one of this form, is unique. */
  lemma SqrtUnique(a: int, s: int, r: int, t: int, v: int)
    requires IsSqrtRem(a, s, r) && IsSqrtRem(a, t, v)
    ensures s == t && r == v
  {
    if s < t {
      SquareMono(s + 1, t);
      SquareNext(s);
    } else if t < s {
      SquareMono(t + 1, s);
      SquareNext(t);
    }
  }

  lemma SquareMono(x: int, y: int)
    requires 0 <= x <= y
    ensures x * x <= y * y
  {
    MulMono(x, y, x);
    MulMono(x, y, y);
  }

  lemma SquareNext(s: int)
    ensures (s + 1) * (s + 1) == s * s + 2 * s + 1
  {
    MulDist(s, 1, s + 1);
    MulDist(s, 1, s);
  }

  /**
  Zimmermann's doubling step. From the root s1 and remainder r1 of the high half a1, dividing
  r1*m + c1 by 2*s1 gives a root of a1*m^2 + c1*m + c0 that is right or one too large.
  */
  lemma {:induction false} SqrtStep(a1: nat, s1: nat, r1: nat, c1: nat, c0: nat, m: nat, q: nat, u: nat)
    requires IsSqrtRem(a1, s1, r1) && m <= 2 * s1 && 0 < m && c1 < m && c0 < m
    requires r1 * m + c1 == q * (2 * s1) + u && u < 2 * s1
    ensures q <= m
    ensures var s, r, a := s1 * m + q, u * m + c0 - q * q, (a1 * m + c1) * m + c0;
            (r >= 0 ==> IsSqrtRem(a, s, r)) && (r < 0 ==> IsSqrtRem(a, s - 1, r + 2 * s - 1))
  {
    var s, r, a := s1 * m + q, u * m + c0 - q * q, (a1 * m + c1) * m + c0;
    StepQuotient(s1, r1, c1, m, q, u);
    StepIdentity(a1, s1, r1, c1, c0, m, q, u);
    StepBounds(s1, c0, m, q, u);
    MulDist(s - 1, 1, s - 1);
    SquareNext(s - 1);
  }

  lemma StepQuotient(s1: nat, r1: nat, c1: nat, m: nat, q: nat, u: nat)
    requires r1 <= 2 * s1 && m <= 2 * s1 && c1 < m && r1 * m + c1 == q * (2 * s1) + u
    ensures q <= m
  {
    if q > m {
      MulMono(m + 1, q, 2 * s1);
      MulMono(r1, 2 * s1, m);
      MulDist(m, 1, 2 * s1);
    }
  }

  lemma StepIdentity(a1: int, s1: int, r1: int, c1: int, c0: int, m: int, q: int, u: int)
    requires a1 == s1 * s1 + r1 && r1 * m + c1 == q * (2 * s1) + u
    ensures (a1 * m + c1) * m + c0 == (s1 * m + q) * (s1 * m + q) + (u * m + c0 - q * q)
  {
    var x := s1 * m;
    assert (x + q) * (x + q) == x * x + 2 * (q * x) + q * q by {
      MulDist(x, q, x + q);
      MulDist(x, q, x);
      MulDist(x, q, q);
    }
    assert a1 * m + c1 == s1 * x + (q * (2 * s1) + u) by {
      MulDist(s1 * s1, r1, m);
      MulAssoc(s1, s1, m);
    }
    assert (s1 * x + (q * (2 * s1) + u)) * m == x * x + 2 * (q * x) + u * m by {
      MulDist(s1 * x, q * (2 * s1) + u, m);
      MulDist(q * (2 * s1), u, m);
      MulAssoc(x, s1, m);
      MulAssoc(q, 2 * s1, m);
      MulAssoc(2, s1, m);
      MulAssoc(q, 2, x);
    }
  }

  lemma StepBounds(s1: nat, c0: nat, m: nat, q: nat, u: nat)
    requires q <= m <= 2 * s1 && u < 2 * s1 && c0 < m
    ensures u * m + c0 - q * q <= 2 * (s1 * m + q)
    ensures u * m + c0 - q * q + 2 * (s1 * m + q) - 1 >= 0
    ensures s1 * m + q >= 1
  {
    MulMono(u + 1, 2 * s1, m);
    MulDist(u, 1, m);
    MulAssoc(2, s1, m);
    MulMono(0, q, q);
    MulMono(m, 2 * s1, m);
    MulMono(0, u, m);
    if q >= 1 {
      SquareMono(q - 1, m);
      SquareNext(q - 1);
    }
  }

  /** The table of 8-bit roots, sixteen entries a row. */
  const SQRT_ROW0: seq<nat> := [128, 128, 129, 130, 131, 132, 133, 134, 135, 136, 137, 138, 139, 140, 141, 142]
  const SQRT_ROW1: seq<nat> := [143, 144, 144, 145, 146, 147, 148, 149, 150, 150, 151, 152, 153, 154, 155, 155]
  const SQRT_ROW2: seq<nat> := [156, 157, 158, 159, 160, 160, 161, 162, 163, 163, 164, 165, 166, 167, 167, 168]
  const SQRT_ROW3: seq<nat> := [169, 170, 170, 171, 172, 173, 173, 174, 175, 176, 176, 177, 178, 178, 179, 180]
  const SQRT_ROW4: seq<nat> := [181, 181, 182, 183, 183, 184, 185, 185, 186, 187, 187, 188, 189, 189, 190, 191]
  const SQRT_ROW5: seq<nat> := [192, 192, 193, 193, 194, 195, 195, 196, 197, 197, 198, 199, 199, 200, 201, 201]
  const SQRT_ROW6: seq<nat> := [202, 203, 203, 204, 204, 205, 206, 206, 207, 208, 208, 209, 209, 210, 211, 211]
  const SQRT_ROW7: seq<nat> := [212, 212, 213, 214, 214, 215, 215, 216, 217, 217, 218, 218, 219, 219, 220, 221]
  const SQRT_ROW8: seq<nat> := [221, 222, 222, 223, 224, 224, 225, 225, 226, 226, 227, 227, 228, 229, 229, 230]
  const SQRT_ROW9: seq<nat> := [230, 231, 231, 232, 232, 233, 234, 234, 235, 235, 236, 236, 237, 237, 238, 238]
  const SQRT_ROW10: seq<nat> := [239, 240, 240, 241, 241, 242, 242, 243, 243, 244, 244, 245, 245, 246, 246, 247]
  const SQRT_ROW11: seq<nat> := [247, 248, 248, 249, 249, 250, 250, 251, 251, 252, 252, 253, 253, 254, 254, 255]

  function SqrtRow(k: nat): (row: seq<nat>)
    requires k < 12
    ensures |row| == 16
  {
    match k
    case 0 => SQRT_ROW0
    case 1 => SQRT_ROW1
    case 2 => SQRT_ROW2
    case 3 => SQRT_ROW3
    case 4 => SQRT_ROW4
    case 5 => SQRT_ROW5
    case 6 => SQRT_ROW6
    case 7 => SQRT_ROW7
    case 8 => SQRT_ROW8
    case 9 => SQRT_ROW9
    case 10 => SQRT_ROW10
    case _ => SQRT_ROW11
  }

  /** The table of 8-bit roots. */
  function SqrtTable(i: nat): nat
    requires i < 192
  {
    SqrtRow(i / 16)[i % 16]
  }

  /** One doubling step on machine words. */
  method DoubleRoot(ghost a1: nat, s1: nat, r1: nat, c1: nat, c0: nat, m: nat) returns (s: nat, r: nat)
    requires IsSqrtRem(a1, s1, r1) && m <= 2 * s1 && 0 < m && c1 < m && c0 < m
    ensures IsSqrtRem((a1 * m + c1) * m + c0, s, r)
  {
    hide IsSqrtRem;
    var q, u := DivRem(r1 * m + c1, 2 * s1);
    SqrtStep(a1, s1, r1, c1, c0, m, q, u);
    s := s1 * m + q;
    var d := u * m + c0 - q * q;
    if d < 0 {
      s := s - 1;
      d := d + 2 * s + 1;
    }
    r := d;
  }

  /** t is a root of the top byte v, right or one too small for every 16-bit continuation. */
  predicate RootOk(t: nat, v: nat) {
    128 <= t <= 255 && t * t <= v * 256 && v * 256 + 255 < (t + 2) * (t + 2)
  }

  predicate RowRootsOk(row: seq<nat>, v: nat)
    requires |row| == 16
  {
    && RootOk(row[0], v + 0)
    && RootOk(row[1], v + 1)
    && RootOk(row[2], v + 2)
    && RootOk(row[3], v + 3)
    && RootOk(row[4], v + 4)
    && RootOk(row[5], v + 5)
    && RootOk(row[6], v + 6)
    && RootOk(row[7], v + 7)
    && RootOk(row[8], v + 8)
    && RootOk(row[9], v + 9)
    && RootOk(row[10], v + 10)
    && RootOk(row[11], v + 11)
    && RootOk(row[12], v + 12)
    && RootOk(row[13], v + 13)
    && RootOk(row[14], v + 14)
    && RootOk(row[15], v + 15)
  }

  lemma Rows0Ok()
    ensures RowRootsOk(SQRT_ROW0, 64)
    ensures RowRootsOk(SQRT_ROW1, 80)
  {
  }

  lemma Rows2Ok()
    ensures RowRootsOk(SQRT_ROW2, 96)
    ensures RowRootsOk(SQRT_ROW3, 112)
  {
  }

  lemma Rows4Ok()
    ensures RowRootsOk(SQRT_ROW4, 128)
    ensures RowRootsOk(SQRT_ROW5, 144)
  {
  }

  lemma Rows6Ok()
    ensures RowRootsOk(SQRT_ROW6, 160)
    ensures RowRootsOk(SQRT_ROW7, 176)
  {
  }

  lemma Rows8Ok()
    ensures RowRootsOk(SQRT_ROW8, 192)
    ensures RowRootsOk(SQRT_ROW9, 208)
  {
  }

  lemma Rows10Ok()
    ensures RowRootsOk(SQRT_ROW10, 224)
    ensures RowRootsOk(SQRT_ROW11, 240)
  {
  }

  lemma RowOk(k: nat)
    requires k < 12
    ensures RowRootsOk(SqrtRow(k), 64 + 16 * k)
  {
    hide RowRootsOk, RootOk;
    match k
    case 0 => Rows0Ok();
    case 1 => Rows0Ok();
    case 2 => Rows2Ok();
    case 3 => Rows2Ok();
    case 4 => Rows4Ok();
    case 5 => Rows4Ok();
    case 6 => Rows6Ok();
    case 7 => Rows6Ok();
    case 8 => Rows8Ok();
    case 9 => Rows8Ok();
    case 10 => Rows10Ok();
    case _ => Rows10Ok();
  }

  lemma TableEntry(i: nat)
    requires i < 192
    ensures RootOk(SqrtTable(i), i + 64)
  {
    hide RowRootsOk, RootOk, SqrtRow;
    var k, j := i / 16, i % 16;
    RowOk(k);
    RowEntry(SqrtRow(k), 64 + 16 * k, j);
  }

  lemma RowEntry(row: seq<nat>, v: nat, j: nat)
    requires |row| == 16 && RowRootsOk(row, v) && j < 16
    ensures RootOk(row[j], v + j)
  {
    hide RootOk;
  }

  /** The root of a 16-bit number with its top bits set: table, and one correction. */
  method Sqrt16(t: nat) returns (s: nat, r: nat)
    requires 0x4000 <= t < 0x1_0000
    ensures IsSqrtRem(t, s, r) && 128 <= s
  {
    var v := t / 256;
    TableEntry(v - 64);
    s := SqrtTable(v - 64);
    SquareNext(s);
    SquareNext(s + 1);
    var d := t - s * s;
    if d > 2 * s {
      d := d - (2 * s + 1);
      s := s + 1;
    }
    r := d;
  }

  /** The root of a 32-bit number with its top bits set. */
  method Sqrt32(a: nat) returns (s: nat, r: nat)
    requires 0x4000_0000 <= a < 0x1_0000_0000
    ensures IsSqrtRem(a, s, r) && 0x8000 <= s < 0x1_0000
  {
    var s1, r1 := Sqrt16(a / 0x1_0000);
    s, r := DoubleRoot(a / 0x1_0000, s1, r1, a / 0x100 % 0x100, a % 0x100, 0x100);
    RootRange(a, s, r, 0x8000, 0x1_0000);
  }

  /** The root of a 64-bit number with its top bits set. */
  method Sqrt64(a: nat) returns (s: nat, r: nat)
    requires 0x4000_0000_0000_0000 <= a < 0x1_0000_0000_0000_0000
    ensures IsSqrtRem(a, s, r) && 0x8000_0000 <= s < 0x1_0000_0000
  {
    var s1, r1 := Sqrt32(a / 0x1_0000_0000);
    s, r := DoubleRoot(a / 0x1_0000_0000, s1, r1, a / 0x1_0000 % 0x1_0000, a % 0x1_0000, 0x1_0000);
    RootRange(a, s, r, 0x8000_0000, 0x1_0000_0000);
  }

  /** Square roots are monotone. */
  lemma RootRange(a: nat, s: nat, r: nat, lo: nat, hi: nat)
    requires IsSqrtRem(a, s, r) && lo * lo <= a < hi * hi
    ensures lo <= s < hi
  {
    if s < lo {
      SquareMono(s + 1, lo);
      SquareNext(s);
    }
    if hi <= s {
      SquareMono(hi, s);
    }
  }
}
