/** Facts about products of integers, one step each, so that no larger proof needs to search for them. */
module Arith {

  lemma MulAssoc(x: int, y: int, z: int)
    ensures x * y * z == x * (y * z)
  {
  }

  lemma MulDist(x: int, y: int, z: int)
    ensures (x + y) * z == x * z + y * z
    ensures (x - y) * z == x * z - y * z
  {
  }

  lemma MulShift(p: int, v: int, x: int, q: int)
    ensures p * (v + x * q) == p * v + x * (p * q)
  {
  }

  lemma MulMono(x: int, y: int, z: int)
    requires x <= y && 0 <= z
    ensures x * z <= y * z
  {
  }

  lemma MulStrict(x: int, y: int, z: int)
    requires x < y && 0 < z
    ensures x * z < y * z
  {
  }

  lemma MulCancel(x: int, y: int, z: int)
    requires 0 < z && x * z < y * z
    ensures x < y
  {
    if y <= x {
      MulMono(y, x, z);
    }
  }

  /** Quotient and remainder are unique. */
  lemma DivUnique(q: int, r: nat, q': int, r': nat, m: nat)
    requires r < m && r' < m && r + q * m == r' + q' * m
    ensures q == q' && r == r'
  {
    MulDist(q, q', m);
    if q < q' {
      MulMono(q - q', -1, m);
    } else if q' < q {
      MulMono(1, q - q', m);
    }
  }
}
