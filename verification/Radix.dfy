/** Conversion of integers from and to vectors of digits in a large radix, by divide and conquer. */
module RadixConversion {
  import opened Arith
  import opened RoundSpec

  /** L^k */
  ghost function PowL(l: nat, k: nat): (p: nat)
    requires l >= 1
    ensures p >= 1
  {
    if k == 0 then 1 else PowL(l, k - 1) * l
  }

  /** The number with these little-endian digits. */
  ghost function Weigh(s: seq<nat>, l: nat): nat
    requires l >= 1
  {
    if s == [] then 0 else Weigh(s[..|s| - 1], l) + s[|s| - 1] * PowL(l, |s| - 1)
  }

  lemma {:induction false} PowLAdd(l: nat, i: nat, j: nat)
    requires l >= 1
    ensures PowL(l, i + j) == PowL(l, i) * PowL(l, j)
  {
    if j > 0 {
      PowLAdd(l, i, j - 1);
      MulAssoc(PowL(l, i), PowL(l, j - 1), l);
    }
  }

  lemma {:induction false} WeighConcat(s: seq<nat>, t: seq<nat>, l: nat)
    requires l >= 1
    ensures Weigh(s + t, l) == Weigh(s, l) + PowL(l, |s|) * Weigh(t, l)
  {
    if t == [] {
      assert s + t == s;
    } else {
      var u, x := t[..|t| - 1], t[|t| - 1];
      assert (s + t)[..|s + t| - 1] == s + u;
      WeighConcat(s, u, l);
      PowLAdd(l, |s|, |u|);
      MulShift(PowL(l, |s|), Weigh(u, l), x, PowL(l, |u|));
    }
  }

  lemma {:induction false} WeighOne(x: nat, l: nat)
    requires l >= 1
    ensures Weigh([x], l) == x && PowL(l, 0) == 1 && PowL(l, 1) == l
  {
    assert [x][..0] == [];
    assert PowL(l, 1) == PowL(l, 0) * l;
  }

  /** x >> k */
  function Shr(x: nat, k: nat): nat {
    if k == 0 then x else Shr(x / 2, k - 1)
  }

  lemma {:induction false} ShrSucc(x: nat, k: nat)
    ensures Shr(x, k + 1) == Shr(x, k) / 2
  {
    if k > 0 {
      ShrSucc(x / 2, k - 1);
    }
  }

  lemma {:induction false} ShrBound(x: nat, k: nat)
    ensures Shr(x, k) * Pow2(k) <= x
  {
    if k > 0 {
      ShrBound(x / 2, k - 1);
      MulAssoc(Shr(x, k), Pow2(k - 1), 2);
    }
  }

  /** The length of the lower part at a level of the recursion. */
  function LowerLength(n0: nat, level: nat): nat {
    (Shr(n0 * 2, level + 1) + 1) / 2
  }

  /** n is n0 / 2^level, rounded down or up. */
  ghost predicate Node(n: nat, n0: nat, level: nat) {
    var f := Shr(n0, level);
    n == f || (n == f + 1 && f * Pow2(level) != n0)
  }

  /** Both parts of a node are nodes of the next level, and neither is empty. */
  lemma {:induction false} Split(n: nat, n0: nat, level: nat)
    requires Node(n, n0, level) && n >= 2
    ensures var n2 := LowerLength(n0, level);
            1 <= n2 < n && Node(n2, n0, level + 1) && Node(n - n2, n0, level + 1)
  {
    var f, f' := Shr(n0, level), Shr(n0, level + 1);
    assert Shr(n0 * 2, level + 1) == f;
    ShrSucc(n0, level);
    ShrBound(n0, level);
    assert Pow2(level + 1) == 2 * Pow2(level);
    assert f' * Pow2(level + 1) == 2 * f' * Pow2(level) by { MulAssoc(f', 2, Pow2(level)); }
    if f % 2 == 1 {
      MulDist(f, 1, Pow2(level));
    }
  }

  /** A level at which a vector is split is below ceil_log2(n0). */
  lemma {:induction false} LevelBound(n: nat, n0: nat, level: nat)
    requires Node(n, n0, level) && n >= 2
    ensures Pow2(level) < n0
  {
    var f := Shr(n0, level);
    ShrBound(n0, level);
    if n == f {
      MulMono(2, f, Pow2(level));
    } else {
      MulMono(1, f, Pow2(level));
    }
  }

  method CeilLog2(n: nat) returns (k: nat)
    requires n >= 1
    ensures Pow2(k) >= n && (k > 0 ==> Pow2(k - 1) < n)
  {
    k := 0;
    while Pow2(k) < n
      invariant k > 0 ==> Pow2(k - 1) < n
      decreases n - Pow2(k)
    {
      k := k + 1;
    }
  }

  /** The memoized powers: zero, or the power for the level. */
  ghost predicate PowersOk(pow: seq<nat>, n0: nat, l: nat)
    requires l >= 1
  {
    forall i :: 0 <= i < |pow| ==> pow[i] == 0 || pow[i] == PowL(l, LowerLength(n0, i))
  }

  /** bf_pow_ui_ui: b by repeated squaring. */
  method PowUi(l: nat, b: nat) returns (r: nat)
    requires l >= 1
    ensures r == PowL(l, b)
  {
    if b == 0 {
      return 1;
    }
    r := PowUi(l, b / 2);
    PowLAdd(l, b / 2, b / 2);
    r := r * r;
    if b % 2 == 1 {
      r := r * l;
      assert PowL(l, b) == PowL(l, b - 1) * l;
    }
  }

  /** The power for a level, computed once. */
  method LevelPower(pow: array<nat>, n0: nat, level: nat, l: nat) returns (b: nat)
    requires l >= 1 && level < pow.Length && PowersOk(pow[..], n0, l)
    modifies pow
    ensures PowersOk(pow[..], n0, l) && b == PowL(l, LowerLength(n0, level))
  {
    assert pow[level] == pow[..][level];
    if pow[level] == 0 {
      var p := PowUi(l, LowerLength(n0, level));
      ghost var before := pow[..];
      pow[level] := p;
      assert pow[..] == before[level := p];
    }
    b := pow[level];
    assert b == pow[..][level];
  }

  /** The table of powers is long enough for every level that is used. */
  ghost predicate TableFits(pow: array<nat>, n0: nat) {
    exists k: nat :: k < pow.Length && Pow2(k) >= n0
  }

  lemma {:induction false} IndexFits(pow: array<nat>, n0: nat, level: nat)
    requires TableFits(pow, n0) && Pow2(level) < n0
    ensures level < pow.Length
  {
    var k: nat :| k < pow.Length && Pow2(k) >= n0;
    if k <= level {
      Pow2Mono(k, level);
    }
  }

  /** bf_integer_from_radix_rec: the number with the n digits at o. */
  method FromRadixRec(tab: array<nat>, o: nat, n: nat, level: nat, n0: nat, l: nat, pow: array<nat>) returns (r: nat)
    requires l >= 1 && n >= 1 && o + n <= tab.Length && pow != tab && Node(n, n0, level) && PowersOk(pow[..], n0, l) && TableFits(pow, n0)
    modifies pow
    ensures PowersOk(pow[..], n0, l) && r == Weigh(tab[o..o + n], l)
    decreases n
  {
    hide Weigh, Node, PowersOk, TableFits, LowerLength, PowL;
    ghost var s := tab[o..o + n];
    if n == 1 {
      assert s == [tab[o]];
      WeighOne(tab[o], l);
      return tab[o];
    }
    var n2 := LowerLength(n0, level);
    Split(n, n0, level);
    LevelBound(n, n0, level);
    IndexFits(pow, n0, level);
    var b := LevelPower(pow, n0, level, l);
    var hi := FromRadixRec(tab, o + n2, n - n2, level + 1, n0, l, pow);
    var lo := FromRadixRec(tab, o, n2, level + 1, n0, l, pow);
    assert s == tab[o..o + n2] + tab[o + n2..o + n];
    WeighConcat(tab[o..o + n2], tab[o + n2..o + n], l);
    r := hi * b + lo;
  }

  /** bf_integer_from_radix */
  method FromRadix(tab: array<nat>, n: nat, l: nat) returns (r: nat)
    requires l >= 1 && 1 <= n <= tab.Length
    ensures r == Weigh(tab[..n], l)
  {
    var k := CeilLog2(n);
    var pow := NewTable(k + 2);
    assert Node(n, n, 0);
    assert TableFits(pow, n);
    r := FromRadixRec(tab, 0, n, 0, n, l, pow);
    assert tab[0..0 + n] == tab[..n];
  }

  method NewTable(len: nat) returns (pow: array<nat>)
    ensures fresh(pow) && pow.Length == len && forall i :: 0 <= i < len ==> pow[i] == 0
  {
    pow := new nat[len];
    for i := 0 to len
      invariant forall j :: 0 <= j < i ==> pow[j] == 0
    {
      pow[i] := 0;
    }
  }

  /** Every digit is below the radix. */
  ghost predicate DigitsOk(s: seq<nat>, l: nat) {
    forall i :: 0 <= i < |s| ==> s[i] < l
  }

  /** Quotient and remainder from any estimate of the quotient, by corrections in one direction or the other. */
  method AdjustedDivision(a: nat, b: nat, estimate: nat) returns (q: nat, r: nat, qAdd: int)
    requires b >= 1
    ensures a == q * b + r && r < b && q == estimate + qAdd
  {
    var qq: int := estimate;
    var rr: int := a - qq * b;
    while rr < 0
      invariant a == qq * b + rr && (rr < 0 || rr < b || qq == estimate)
      decreases -rr
    {
      MulDist(qq, 1, b);
      rr := rr + b;
      qq := qq - 1;
    }
    while rr >= b
      invariant a == qq * b + rr && rr >= 0
      decreases rr
    {
      MulDist(qq, 1, b);
      rr := rr - b;
      qq := qq + 1;
    }
    if qq < 0 {
      MulMono(qq, -1, b);
      assert false;
    }
    q, r, qAdd := qq, rr, qq - estimate;
  }

  /** The quotient by L^n2 of a number of n digits has the other digits. */
  lemma {:induction false} QuotientDigits(a: nat, q: nat, r: nat, l: nat, n1: nat, n2: nat)
    requires l >= 1 && a < PowL(l, n1 + n2) && a == q * PowL(l, n2) + r
    ensures q < PowL(l, n1)
  {
    PowLAdd(l, n1, n2);
    if q >= PowL(l, n1) {
      MulMono(PowL(l, n1), q, PowL(l, n2));
    }
  }

  /** bf_integer_to_radix_rec: the n digits of a, at o; the quotient estimates are arbitrary. */
  method ToRadixRec(pow: array<nat>, out: array<nat>, o: nat, a: nat, n: nat, level: nat, n0: nat, l: nat)
    requires l >= 1 && n >= 1 && o + n <= out.Length && pow != out && a < PowL(l, n)
    requires Node(n, n0, level) && PowersOk(pow[..], n0, l) && TableFits(pow, n0)
    modifies pow, out
    ensures PowersOk(pow[..], n0, l) && DigitsOk(out[o..o + n], l) && Weigh(out[o..o + n], l) == a
    ensures forall j :: 0 <= j < out.Length && !(o <= j < o + n) ==> out[j] == old(out[j])
    decreases n
  {
    hide Weigh, Node, PowersOk, TableFits, LowerLength, PowL, DigitsOk;
    if n <= 2 {
      ToRadixSmall(out, o, a, n, l);
    } else {
      var n2 := LowerLength(n0, level);
      Split(n, n0, level);
      LevelBound(n, n0, level);
      IndexFits(pow, n0, level);
      var b := LevelPower(pow, n0, level, l);
      var estimate: nat := *;
      var q, r, _ := AdjustedDivision(a, b, estimate);
      QuotientDigits(a, q, r, l, n - n2, n2);
      ToRadixRec(pow, out, o + n2, q, n - n2, level + 1, n0, l);
      ghost var hi := out[o + n2..o + n];
      ToRadixRec(pow, out, o, r, n2, level + 1, n0, l);
      assert out[o + n2..o + n] == hi;
      Joined(out[o..o + n], out[o..o + n2], hi, l);
    }
  }

  /** One or two digits, by a machine division. */
  method ToRadixSmall(out: array<nat>, o: nat, a: nat, n: nat, l: nat)
    requires l >= 1 && 1 <= n <= 2 && o + n <= out.Length && a < PowL(l, n)
    modifies out
    ensures DigitsOk(out[o..o + n], l) && Weigh(out[o..o + n], l) == a
    ensures forall j :: 0 <= j < out.Length && !(o <= j < o + n) ==> out[j] == old(out[j])
  {
    hide Weigh, PowL, DigitsOk;
    if n == 1 {
      WeighOne(a, l);
      OneDigit(a, l);
      out[o] := a;
      assert out[o..o + 1] == [a];
    } else {
      TwoDigits(a, l);
      out[o] := a % l;
      out[o + 1] := a / l;
      assert out[o..o + 2] == [a % l, a / l];
    }
  }

  lemma {:induction false} OneDigit(a: nat, l: nat)
    requires a < l
    ensures DigitsOk([a], l)
  {
  }

  lemma {:induction false} Joined(s: seq<nat>, lo: seq<nat>, hi: seq<nat>, l: nat)
    requires l >= 1 && s == lo + hi && DigitsOk(lo, l) && DigitsOk(hi, l)
    ensures DigitsOk(s, l) && Weigh(s, l) == Weigh(lo, l) + PowL(l, |lo|) * Weigh(hi, l)
  {
    WeighConcat(lo, hi, l);
  }

  lemma {:induction false} TwoDigits(a: nat, l: nat)
    requires l >= 1 && a < PowL(l, 2)
    ensures a / l < l && DigitsOk([a % l, a / l], l) && Weigh([a % l, a / l], l) == a
  {
    WeighOne(a % l, l);
    assert [a % l, a / l][..1] == [a % l];
    assert PowL(l, 2) == PowL(l, 1) * l;
    if a / l >= l {
      MulMono(l, a / l, l);
    }
  }

  /** bf_integer_to_radix */
  method ToRadix(a: nat, n: nat, l: nat) returns (out: array<nat>)
    requires l >= 1 && n >= 1 && a < PowL(l, n)
    ensures fresh(out) && out.Length == n && DigitsOk(out[..], l) && Weigh(out[..], l) == a
  {
    var k := CeilLog2(n);
    var pow := NewTable(k + 2);
    out := NewTable(n);
    assert Node(n, n, 0);
    assert TableFits(pow, n);
    ToRadixRec(pow, out, 0, a, n, 0, n, l);
    assert out[0..0 + n] == out[..];
  }

  /** Converting to a radix and back gives the number. */
  method RoundTrip(a: nat, n: nat, l: nat) returns (b: nat)
    requires l >= 1 && n >= 1 && a < PowL(l, n)
    ensures b == a
  {
    var out := ToRadix(a, n, l);
    assert out[..n] == out[..];
    b := FromRadix(out, n, l);
  }

  lemma {:induction false} WeighBound(s: seq<nat>, l: nat)
    requires l >= 1 && DigitsOk(s, l)
    ensures Weigh(s, l) < PowL(l, |s|)
  {
    if s != [] {
      var n := |s| - 1;
      WeighBound(s[..n], l);
      MulMono(s[n], l - 1, PowL(l, n));
      MulDist(l, 1, PowL(l, n));
    }
  }

  /** A number has only one vector of n digits. */
  lemma {:induction false} DigitsUnique(s: seq<nat>, t: seq<nat>, l: nat)
    requires l >= 1 && |s| == |t| && DigitsOk(s, l) && DigitsOk(t, l) && Weigh(s, l) == Weigh(t, l)
    ensures s == t
  {
    if s != [] {
      var n := |s| - 1;
      WeighBound(s[..n], l);
      WeighBound(t[..n], l);
      DivUnique(s[n], Weigh(s[..n], l), t[n], Weigh(t[..n], l), PowL(l, n));
      DigitsUnique(s[..n], t[..n], l);
      assert s == s[..n] + [s[n]] && t == t[..n] + [t[n]];
    }
  }
}
