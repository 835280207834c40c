/**
Subjects as texts: what the character macros, the assertions and the back references mean for the
characters whose UTF-16 encoding a subject is.
*/
module ReText {
  import opened ReCode
  import opened ReSyntax
  import opened ReMatch
  import opened ReUnfold
  import opened ReLaws
  import opened ReCorrect

  /** The UTF-16 code units of a code point. */
  function Units(c: nat): (u: seq<nat>)
    ensures |u| == if c < 0x1_0000 then 1 else 2
  {
    if c < 0x1_0000 then [c] else [0xd800 + (c - 0x1_0000) / 0x400, 0xdc00 + (c - 0x1_0000) % 0x400]
  }

  ghost function Text(cs: seq<nat>): seq<nat> {
    if cs == [] then [] else Units(cs[0]) + Text(cs[1..])
  }

  /** The characters of a subject: code points, of which no two make a surrogate pair, or plain units. */
  ghost predicate CharsOf(s: Subject, cs: seq<nat>) {
    s.input == Text(cs) &&
    if s.utf16 then (forall k :: 0 <= k < |cs| ==> cs[k] <= 0x10_ffff) && NoPairs(cs)
    else forall k :: 0 <= k < |cs| ==> cs[k] < 0x1_0000
  }

  ghost predicate NoPairs(cs: seq<nat>) {
    forall i, j :: 0 <= i && j == i + 1 && j < |cs| && 0xd800 <= cs[i] < 0xdc00 ==> !(0xdc00 <= cs[j] < 0xe000)
  }

  /** Where character k starts. */
  ghost function Off(cs: seq<nat>, k: nat): nat
    requires k <= |cs|
  {
    |Text(cs[..k])|
  }

  lemma {:induction false} TextAppend(a: seq<nat>, b: seq<nat>)
    ensures Text(a + b) == Text(a) + Text(b)
  {
    hide Units;
    if a == [] {
      assert a + b == b;
    } else {
      assert (a + b)[1..] == a[1..] + b;
      TextAppend(a[1..], b);
    }
  }

  /** The units of character k, between those before it and those after it. */
  lemma {:induction false} TextAt(cs: seq<nat>, k: nat)
    requires k < |cs|
    ensures Text(cs) == Text(cs[..k]) + Units(cs[k]) + Text(cs[k + 1..])
    ensures Off(cs, k + 1) == Off(cs, k) + |Units(cs[k])| <= |Text(cs)|
  {
    hide Units;
    assert cs == cs[..k] + cs[k..] && cs[..k + 1] == cs[..k] + [cs[k]] && cs[k..][1..] == cs[k + 1..];
    TextAppend(cs[..k], cs[k..]);
    TextAppend(cs[..k], [cs[k]]);
    assert [cs[k]][1..] == [];
  }

  lemma {:induction false} OffEnds(cs: seq<nat>)
    ensures Off(cs, 0) == 0 && Off(cs, |cs|) == |Text(cs)|
  {
    assert cs[..|cs|] == cs && cs[..0] == [];
  }

  lemma {:induction false} OffMono(cs: seq<nat>, i: nat, j: nat)
    requires i < j <= |cs|
    ensures Off(cs, i) < Off(cs, j) <= |Text(cs)|
    decreases j
  {
    hide Text, Units;
    TextAt(cs, j - 1);
    if i < j - 1 {
      OffMono(cs, i, j - 1);
    }
  }

  lemma {:induction false} OffOrder(cs: seq<nat>, i: nat, j: nat)
    requires i <= |cs| && j <= |cs|
    ensures (i == j <==> Off(cs, i) == Off(cs, j)) && (i < j <==> Off(cs, i) < Off(cs, j)) && Off(cs, i) <= |Text(cs)|
  {
    hide Off, Text;
    if i < j {
      OffMono(cs, i, j);
    } else if j < i {
      OffMono(cs, j, i);
    }
    OffEnds(cs);
    if i < |cs| {
      OffMono(cs, i, |cs|);
    }
  }

  /** The first unit of a character, and the last one. */
  lemma {:induction false} UnitsAt(s: Subject, cs: seq<nat>, k: nat)
    requires k < |cs| && CharsOf(s, cs)
    ensures var p, q, c := Off(cs, k), Off(cs, k + 1), cs[k];
            p < q <= |s.input| &&
            if c < 0x1_0000 then q == p + 1 && s.input[p] == c
            else s.utf16 && q == p + 2 && s.input[p] == 0xd800 + (c - 0x1_0000) / 0x400 && s.input[p + 1] == 0xdc00 + (c - 0x1_0000) % 0x400
  {
    hide Text;
    TextAt(cs, k);
    var p := Off(cs, k);
    assert s.input[p] == Units(cs[k])[0];
    if cs[k] >= 0x1_0000 {
      assert s.input[p + 1] == Units(cs[k])[1];
    }
  }

  /** Between two characters there is no surrogate pair. */
  lemma {:induction false} NoPairBetween(s: Subject, cs: seq<nat>, k: nat)
    requires k <= |cs| && CharsOf(s, cs)
    ensures Off(cs, k) <= |s.input| && (Off(cs, k) >= 1 ==> !PairAt(s, Off(cs, k) - 1))
  {
    hide Text, Off;
    OffEnds(cs);
    if k > 0 {
      UnitsAt(s, cs, k - 1);
      if k < |cs| {
        UnitsAt(s, cs, k);
      }
    }
  }

  /** The macros read and step over exactly one character, in both directions. */
  lemma {:induction false} ReadsText(s: Subject, cs: seq<nat>, k: nat)
    requires k < |cs| && CharsOf(s, cs)
    ensures var p, q := Off(cs, k), Off(cs, k + 1);
            p < q <= |s.input| && GetChar(s, p) == cs[k] && NextPos(s, p) == q && PeekPrev(s, q) == cs[k] && PrevPos(s, q) == p
  {
    hide Text, Off;
    UnitsAt(s, cs, k);
    NoPairBetween(s, cs, k);
    NoPairBetween(s, cs, k + 1);
    if cs[k] >= 0x1_0000 {
      Split10(cs[k] - 0x1_0000);
    }
  }

  lemma {:induction false} Split10(x: nat)
    ensures x == (x / 0x400) * 0x400 + x % 0x400 && x % 0x400 < 0x400 && (x < 0x10_0000 ==> x / 0x400 < 0x400)
  {
  }

  /** The boundaries are the places where characters start or the subject ends. */
  lemma {:induction false} BoundaryIsOff(s: Subject, cs: seq<nat>, p: nat) returns (k: nat)
    requires CharsOf(s, cs) && Boundary(s, p)
    ensures k <= |cs| && p == Off(cs, k)
  {
    hide Text, Off;
    OffEnds(cs);
    k := 0;
    while k < |cs| && Off(cs, k) < p
      invariant k <= |cs| && Off(cs, k) <= p
    {
      UnitsAt(s, cs, k);
      if cs[k] >= 0x1_0000 {
        Split10(cs[k] - 0x1_0000);
      }
      k := k + 1;
    }
  }

  lemma {:induction false} OffIsBoundary(s: Subject, cs: seq<nat>, k: nat)
    requires k <= |cs| && CharsOf(s, cs)
    ensures Boundary(s, Off(cs, k))
  {
    hide Text, Off;
    NoPairBetween(s, cs, k);
  }

  /** Every subject of 16-bit units is the text of some characters. */
  lemma {:induction false} HasChars(s: Subject) returns (cs: seq<nat>)
    requires SubjectOk(s)
    ensures CharsOf(s, cs)
  {
    cs := CharsFrom(s, 0);
    assert s.input[0..] == s.input;
  }

  lemma {:induction false} CharsFrom(s: Subject, p: nat) returns (cs: seq<nat>)
    requires p <= |s.input| && SubjectOk(s)
    ensures CharsOf(s.(input := s.input[p..]), cs)
    ensures cs == [] <==> p == |s.input|
    ensures cs != [] ==> cs[0] == GetChar(s, p)
    decreases |s.input| - p
  {
    cs := [];
    if p < |s.input| {
      var rest := CharsFrom(s, NextPos(s, p));
      var c := GetChar(s, p);
      cs := [c] + rest;
      assert s.input[p] in s.input;
      assert PairAt(s, p) ==> s.input[p + 1] in s.input;
      EncodesBack(s, p);
      assert cs[1..] == rest;
      assert s.input[p..] == s.input[p..NextPos(s, p)] + s.input[NextPos(s, p)..];
      FirstOfPair(s, p, rest);
    }
  }

  lemma {:induction false} EncodesBack(s: Subject, p: nat)
    requires p < |s.input| && s.input[p] < 0x1_0000
    ensures Units(GetChar(s, p)) == s.input[p..NextPos(s, p)] && GetChar(s, p) <= 0x10_ffff && (!s.utf16 ==> GetChar(s, p) < 0x1_0000)
  {
    if PairAt(s, p) {
      Joined10(s.input[p] - 0xd800, s.input[p + 1] - 0xdc00);
    }
  }

  lemma {:induction false} Joined10(h: nat, l: nat)
    requires h < 0x400 && l < 0x400
    ensures (h * 0x400 + l) / 0x400 == h && (h * 0x400 + l) % 0x400 == l
  {
  }

  lemma {:induction false} FirstOfPair(s: Subject, p: nat, rest: seq<nat>)
    requires p < |s.input| && (rest == [] <==> NextPos(s, p) == |s.input|)
    requires rest != [] ==> rest[0] == GetChar(s, NextPos(s, p))
    requires s.utf16 ==> NoPairs(rest)
    ensures s.utf16 ==> NoPairs([GetChar(s, p)] + rest)
  {
  }

  const LINE_TERMINATORS: set<nat> := {0x0a, 0x0d, 0x2028, 0x2029}

  /** The letters, digits and underscore. */
  predicate IsWord(c: nat) {
    'a' as int <= c <= 'z' as int || 'A' as int <= c <= 'Z' as int || '0' as int <= c <= '9' as int || c == '_' as int
  }

  /** The assertions, by the neighbouring characters. */
  lemma {:induction false} AssertionsMean(s: Subject, cs: seq<nat>, k: nat)
    requires k <= |cs| && CharsOf(s, cs)
    ensures var p := Off(cs, k);
            p <= |s.input| &&
            (AtLineStart(s, p) <==> k == 0 || (s.multiline && cs[k - 1] in LINE_TERMINATORS)) &&
            (AtLineEnd(s, p) <==> k == |cs| || (s.multiline && cs[k] in LINE_TERMINATORS)) &&
            (AtWordEdge(s, p) <==> (k > 0 && IsWord(cs[k - 1])) != (k < |cs| && IsWord(cs[k])))
  {
    hide Text, Off, GetChar, PeekPrev;
    OffEnds(cs);
    OffOrder(cs, 0, k);
    OffOrder(cs, k, |cs|);
    if k > 0 {
      ReadsText(s, cs, k - 1);
    }
    if k < |cs| {
      ReadsText(s, cs, k);
    }
  }

  /** A character before a boundary does not reach over it. */
  lemma {:induction false} StepInside(s: Subject, p: nat, end: nat)
    requires Boundary(s, p) && Boundary(s, end) && p < end
    ensures var text := s.(input := s.input[..end]);
            p < NextPos(s, p) <= end && Boundary(s, NextPos(s, p)) && GetChar(text, p) == GetChar(s, p) && NextPos(text, p) == NextPos(s, p)
  {
  }

  /** Characters are equal if their units are. */
  lemma {:induction false} SameUnits(s: Subject, p: nat, q: nat)
    requires p < |s.input| && q < |s.input| && SubjectOk(s)
    ensures GetChar(s, p) == GetChar(s, q) <==> s.input[p..NextPos(s, p)] == s.input[q..NextPos(s, q)]
  {
    assert s.input[p] in s.input && s.input[q] in s.input;
    assert s.input[p..NextPos(s, p)] == if PairAt(s, p) then [s.input[p], s.input[p + 1]] else [s.input[p]];
    assert s.input[q..NextPos(s, q)] == if PairAt(s, q) then [s.input[q], s.input[q + 1]] else [s.input[q]];
  }

  /** Equal texts between boundaries start with equal characters. */
  lemma {:induction false} FirstOf(s: Subject, p: nat, end: nat, q: nat, r: nat)
    requires p < end <= |s.input| && q < r <= |s.input| && NextPos(s, p) <= end && NextPos(s, q) <= r && s.input[p..end] == s.input[q..r]
    ensures s.input[p..NextPos(s, p)] == s.input[q..NextPos(s, q)]
  {
    var v, w := s.input[p..end], s.input[q..r];
    assert v[0] == w[0] && (end > p + 1 ==> v[1] == w[1]);
  }

  lemma {:induction false} Joined<T>(s: seq<T>, p: nat, p': nat, end: nat, q: nat, q': nat, r: nat)
    requires p <= p' <= end <= |s| && q <= q' <= r <= |s| && s[p..p'] == s[q..q']
    ensures s[p..end] == s[q..r] <==> s[p'..end] == s[q'..r]
  {
    assert s[p..end] == s[p..p'] + s[p'..end] && s[q..r] == s[q..q'] + s[q'..r];
    if s[p..end] == s[q..r] {
      var n := p' - p;
      assert s[p..end][n..] == s[p'..end] && s[q..r][n..] == s[q'..r];
    }
  }

  /**
  A back reference, forwards: from a captured text between boundaries p and end, the comparison at q
  ends at r if and only if the units up to r, a boundary, are those of the text.
  */
  lemma {:induction false} ForwardMeans(s: Subject, p: nat, end: nat, q: nat, r: nat)
    requires SubjectOk(s) && p <= end && Boundary(s, p) && Boundary(s, end) && Boundary(s, q)
    ensures SameForward(s, p, end, q) == Some(r) <==>
            r == q + (end - p) && Boundary(s, r) && s.input[p..end] == s.input[q..r]
    decreases |s.input| - q
  {
    hide GetChar, NextPos, PairAt, SubjectOk;
    if p < end && q < |s.input| {
      var p', q' := NextPos(s, p), NextPos(s, q);
      StepInside(s, p, end);
      NextIsBoundary(s, q);
      SameUnits(s, p, q);
      if GetChar(s, p) == GetChar(s, q) {
        ForwardMeans(s, p', end, q', r);
        assert |s.input[p..p']| == |s.input[q..q']|;
        if r == q + (end - p) && r <= |s.input| {
          Joined(s.input, p, p', end, q, q', r);
        }
      } else if r == q + (end - p) && Boundary(s, r) && s.input[p..end] == s.input[q..r] {
        StepInside(s, q, r);
        FirstOf(s, p, end, q, r);
      }
    }
  }

  /** A character after a boundary is read backwards whole. */
  lemma {:induction false} PrevInside(s: Subject, start: nat, p: nat)
    requires Boundary(s, start) && Boundary(s, p) && start < p
    ensures var p' := PrevPos(s, p);
            start <= p' < p && Boundary(s, p') && NextPos(s, p') == p && PrevFrom(s, start, p) == (GetChar(s, p'), p')
  {
  }

  /** Equal texts between boundaries end with equal characters. */
  lemma {:induction false} LastOf(s: Subject, start: nat, p: nat, r: nat, q: nat)
    requires start < p <= |s.input| && r < q <= |s.input| && s.input[start..p] == s.input[r..q]
    requires start <= PrevPos(s, p) && r <= PrevPos(s, q)
    ensures s.input[PrevPos(s, p)..p] == s.input[PrevPos(s, q)..q]
  {
    var v, w := s.input[start..p], s.input[r..q];
    assert v[|v| - 1] == w[|w| - 1] && (|v| >= 2 ==> v[|v| - 2] == w[|w| - 2]);
  }

  lemma {:induction false} JoinedBefore<T>(s: seq<T>, start: nat, p': nat, p: nat, r: nat, q': nat, q: nat)
    requires start <= p' <= p <= |s| && r <= q' <= q <= |s| && s[p'..p] == s[q'..q]
    ensures s[start..p] == s[r..q] <==> s[start..p'] == s[r..q']
  {
    assert s[start..p] == s[start..p'] + s[p'..p] && s[r..q] == s[r..q'] + s[q'..q];
    if s[start..p] == s[r..q] {
      var n := p' - start;
      assert s[start..p][..n] == s[start..p'] && |s[p'..p]| == |s[q'..q]| && s[r..q][..n] == s[r..q'];
    }
  }

  /** The same backwards, with the units before q. */
  lemma {:induction false} BackwardMeans(s: Subject, start: nat, p: nat, q: nat, r: nat)
    requires SubjectOk(s) && start <= p && Boundary(s, start) && Boundary(s, p) && Boundary(s, q)
    ensures SameBackward(s, start, p, q) == Some(r) <==>
            r + (p - start) == q && Boundary(s, r) && s.input[start..p] == s.input[r..q]
    decreases p
  {
    hide GetChar, NextPos, PrevPos, PairAt, SubjectOk, PrevFrom;
    if start < p && q > 0 {
      var p', q' := PrevPos(s, p), PrevPos(s, q);
      PrevInside(s, start, p);
      StartIsBoundary(s);
      PrevInside(s, 0, q);
      SameUnits(s, p', q');
      if GetChar(s, p') == GetChar(s, q') {
        BackwardMeans(s, start, p', q', r);
        assert |s.input[p'..p]| == |s.input[q'..q]|;
        if r + (p - start) == q {
          JoinedBefore(s.input, start, p', p, r, q', q);
        }
      } else if r + (p - start) == q && Boundary(s, r) && s.input[start..p] == s.input[r..q] {
        PrevInside(s, r, q);
        LastOf(s, start, p, r, q);
      }
    }
  }

  lemma {:induction false} StartIsBoundary(s: Subject)
    ensures Boundary(s, 0)
  {
  }

  /** Where a back reference to a captured text ends. */
  ghost predicate Repeated(s: Subject, a: Option<nat>, b: Option<nat>, back: bool, p: nat, q: nat) {
    if a == None || b == None || a.value > b.value then q == p
    else b.value <= |s.input| && p <= |s.input| && q <= |s.input| && Boundary(s, q) &&
         if back then q <= p && s.input[q..p] == s.input[a.value..b.value]
         else p <= q && s.input[p..q] == s.input[a.value..b.value]
  }

  /**
  What a back reference matches: nothing if the group is not set, or if its start was recorded after
  its end; else the very units of the captured text, up to a boundary.
  */
  lemma {:induction false} BackReferenceMeans(s: Subject, g: nat, back: bool, cc: nat, x: State, nc: nat, y: State)
    requires SubjectOk(s) && StateOk(s, x, nc) && g < nc
    ensures y in Results(s, BackReference(g), back, cc, x) <==>
            y.caps == x.caps && Repeated(s, x.caps[2 * g], x.caps[2 * g + 1], back, x.pos, y.pos)
  {
    hide Boundary, SameForward, SameBackward, SubjectOk, Repeated, RefersTo;
    BoundaryInside(s, x.pos);
    RefersIs(s, g, back, cc, x, y);
    RefersMeans(s, g, back, x, y.pos);
  }

  lemma {:induction false} RefersMeans(s: Subject, g: nat, back: bool, x: State, q: nat)
    requires SubjectOk(s) && 2 * g + 1 < |x.caps| && Boundary(s, x.pos) && CapsOk(s, x.caps)
    ensures RefersTo(s, g, back, x) == Some(q) <==> Repeated(s, x.caps[2 * g], x.caps[2 * g + 1], back, x.pos, q)
  {
    hide Boundary, SameForward, SameBackward, SubjectOk;
    var a, b := x.caps[2 * g], x.caps[2 * g + 1];
    BoundaryInside(s, x.pos);
    BoundaryInside(s, q);
    if a.Some? && b.Some? {
      assert Boundary(s, a.value) && Boundary(s, b.value);
      BoundaryInside(s, b.value);
      if a.value > b.value {
        Reversed(s, a.value, b.value, x.pos);
      } else {
        SliceLengths(s.input, a.value, b.value, x.pos, q);
        if back {
          BackwardMeans(s, a.value, b.value, x.pos, q);
        } else {
          ForwardMeans(s, a.value, b.value, x.pos, q);
        }
      }
    }
  }

  lemma {:induction false} RefersIs(s: Subject, g: nat, back: bool, cc: nat, x: State, y: State)
    requires 2 * g + 1 < |x.caps| && x.pos <= |s.input|
    ensures y in Results(s, BackReference(g), back, cc, x) <==> y.caps == x.caps && RefersTo(s, g, back, x) == Some(y.pos)
  {
    hide RefersTo;
    BackUnfold(s, g, back, cc, x);
    assert y == State(y.pos, y.caps);
  }

  lemma {:induction false} BoundaryInside(s: Subject, p: nat)
    ensures Boundary(s, p) ==> p <= |s.input|
  {
  }

  lemma {:induction false} Reversed(s: Subject, a: nat, b: nat, q: nat)
    requires b < a && b <= |s.input| && q <= |s.input|
    ensures SameForward(s, a, b, q) == Some(q) == SameBackward(s, a, b, q)
  {
  }

  lemma {:induction false} SliceLengths<T>(s: seq<T>, a: nat, b: nat, p: nat, q: nat)
    requires a <= b <= |s| && p <= |s|
    ensures p <= q <= |s| && s[p..q] == s[a..b] ==> q == p + (b - a)
    ensures q <= p && s[q..p] == s[a..b] ==> p == q + (b - a)
  {
  }
}
