/** How much of a text strtod takes: the longest number in the sense of section 7.22.1.3 of ISO C at its start. */
module CJsonStrtod {
  import opened Ascii
  import opened CJsonItem
  import opened CJsonNumber
  import N = Digits

  /** The parts of a number: sign, digits, decimal point, digits, and an exponent or nothing. */
  datatype Parts = Parts(sign: Bytes, whole: Bytes, point: Bytes, places: Bytes, exponent: Bytes)

  function Written(p: Parts): Bytes {
    p.sign + (p.whole + (p.point + (p.places + p.exponent)))
  }

  /** Letter, maybe a sign, and at least one digit. */
  predicate IsExponentPart(s: Bytes) {
    exists k :: 1 <= k <= |s| && ExponentPart(s[..1], s[1..k], s[k..])
  }

  /** At least one digit stands before or behind the point; without a point there are no decimal places. */
  predicate IsNumberOf(p: Parts) {
    && (p.sign == [] || p.sign == ['+' as int] || p.sign == ['-' as int])
    && N.AllDigits(p.whole) && N.AllDigits(p.places) && |p.whole| + |p.places| > 0
    && (p.point == ['.' as int] || (p.point == [] && p.places == []))
    && (p.exponent == [] || IsExponentPart(p.exponent))
  }

  lemma {:induction false} DigitsReach(s: Bytes, i: nat, j: nat)
    requires i <= j <= |s| && N.AllDigits(s[i..j])
    ensures DigitsEnd(s, i) >= j
    decreases j - i
  {
    if i < j {
      assert s[i] == s[i..j][0] && s[i..j][1..] == s[i + 1..j];
      DigitsReach(s, i + 1, j);
    }
  }

  lemma DigitsTaken(s: Bytes, i: nat)
    requires i <= |s|
    ensures N.AllDigits(s[i..DigitsEnd(s, i)])
  {
    DigitsRun(s, i);
  }

  lemma ExponentReach(s: Bytes, i: nat, j: nat)
    requires i <= j <= |s| && IsExponentPart(s[i..j])
    ensures ExponentEnd(s, i) >= j
  {
    hide DigitsEnd, N.AllDigits;
    var x := s[i..j];
    var k :| 1 <= k <= |x| && ExponentPart(x[..1], x[1..k], x[k..]);
    assert x[k..] == s[i + k..j] && s[i] == x[0] == x[..1][0];
    DigitsReach(s, i + k, j);
    FirstDigit(x[k..]);
    assert s[i + k] == x[k..][0];
    if k == 1 {
      assert !IsSign(s[i + 1]);
    } else {
      assert |x[1..k]| == 1 && s[i + 1] == x[1] == x[1..k][0];
    }
  }

  lemma Inner(s: Bytes, i: nat, j: nat, x: nat, y: nat)
    requires i <= j <= |s| && x <= y <= j - i
    ensures s[i..j][x..y] == s[i + x..i + y]
  {
    var t := s[i..j];
    assert forall k :: 0 <= k < y - x ==> t[x..y][k] == t[x + k] == s[i + x + k];
  }

  lemma ExponentTaken(s: Bytes, i: nat)
    requires i <= |s|
    ensures ExponentEnd(s, i) > i ==> IsExponentPart(s[i..ExponentEnd(s, i)])
  {
    hide DigitsEnd;
    var j := ExponentEnd(s, i);
    if j > i {
      var x := s[i..j];
      var d := if i + 1 < |s| && IsSign(s[i + 1]) then i + 2 else i + 1;
      DigitsTaken(s, d);
      Inner(s, i, j, 0, 1);
      Inner(s, i, j, 1, d - i);
      Inner(s, i, j, d - i, j - i);
      assert x[..1] == x[0..1] == [s[i]] && x[d - i..] == x[d - i..j - i];
      assert d == i + 2 ==> s[i + 1..d] == [s[i + 1]];
      assert ExponentPart(x[..1], x[1..d - i], x[d - i..]);
    }
  }

  /** What strtod takes is a number. */
  lemma Taken(s: Bytes) returns (p: Parts)
    requires StrtodLength(s) > 0
    ensures Written(p) == s[..StrtodLength(s)] && IsNumberOf(p)
  {
    hide DigitsEnd, ExponentEnd, N.AllDigits, IsExponentPart;
    var a := if |s| > 0 && IsSign(s[0]) then 1 else 0;
    var b := DigitsEnd(s, a);
    var c := PointEnd(s, b);
    var e := ExponentEnd(s, c);
    var m := if c > b then b + 1 else b;
    PointTaken(s, b);
    p := Parts(s[..a], s[a..b], s[b..m], s[m..c], s[c..e]);
    DigitsTaken(s, a);
    ExponentTaken(s, c);
    Pieces(s, a, b, m, c, e);
    if a == 1 {
      assert s[..a] == [s[0]];
    }
    if c > b {
      assert s[b..m] == [s[b]];
    } else {
      assert s[b..m] == [] && s[m..c] == [];
    }
    if e == c {
      assert s[c..e] == [];
    }
  }

  lemma PointTaken(s: Bytes, b: nat)
    requires b <= |s|
    ensures var c := PointEnd(s, b); c > b ==> s[b] == POINT && N.AllDigits(s[b + 1..c])
    ensures N.AllDigits([])
  {
    if PointEnd(s, b) > b {
      DigitsTaken(s, b + 1);
    }
  }

  lemma Pieces(s: Bytes, a: nat, b: nat, m: nat, c: nat, e: nat)
    requires a <= b <= m <= c <= e <= |s|
    ensures s[..a] + (s[a..b] + (s[b..m] + (s[m..c] + s[c..e]))) == s[..e]
  {
    assert s[m..c] + s[c..e] == s[m..e];
    assert s[b..m] + s[m..e] == s[b..e];
    assert s[a..b] + s[b..e] == s[a..e];
  }

  /** No longer part at the start of the text is a number. */
  lemma Longest(s: Bytes, n: nat, p: Parts)
    requires n <= |s| && s[..n] == Written(p) && IsNumberOf(p)
    ensures n <= StrtodLength(s)
  {
    hide DigitsEnd, ExponentEnd, N.AllDigits, IsExponentPart;
    var a, b := |p.sign|, |p.sign| + |p.whole|;
    var m := b + |p.point|;
    var c := m + |p.places|;
    Where(s, n, p);
    StartsRight(s, p, a, b, c);
    DigitsReach(s, a, b);
    if p.point != [] {
      DigitsStop(s, a, b);
      assert s[b] == s[b..m][0] == POINT;
      DigitsReach(s, m, c);
      PointReach(s, b, c);
      if p.exponent != [] {
        LetterAt(s, c, n);
        DigitsStop(s, m, c);
        ExponentReach(s, c, n);
      }
    } else if p.exponent != [] {
      LetterAt(s, c, n);
      DigitsStop(s, a, b);
      ExponentReach(s, c, n);
    }
    Enough(s, a, b, c, n);
  }

  /** Where the parts stand. */
  lemma Where(s: Bytes, n: nat, p: Parts)
    requires n <= |s| && s[..n] == Written(p)
    ensures var (a, b) := (|p.sign|, |p.sign| + |p.whole|);
      var (m, c) := (b + |p.point|, b + |p.point| + |p.places|);
      && c <= n && s[..a] == p.sign && s[a..b] == p.whole && s[b..m] == p.point && s[m..c] == p.places
      && s[c..n] == p.exponent
  {
    var t := s[..n];
    var (a, b) := (|p.sign|, |p.sign| + |p.whole|);
    var (m, c) := (b + |p.point|, b + |p.point| + |p.places|);
    Five(t, p.sign, p.whole, p.point, p.places, p.exponent);
    SliceOf(s, n, 0, a);
    SliceOf(s, n, a, b);
    SliceOf(s, n, b, m);
    SliceOf(s, n, m, c);
    SliceOf(s, n, c, n);
  }

  lemma SliceOf(s: Bytes, n: nat, x: nat, y: nat)
    requires x <= y <= n <= |s|
    ensures s[..n][x..y] == s[x..y]
  {
  }

  lemma Five(t: Bytes, p1: Bytes, p2: Bytes, p3: Bytes, p4: Bytes, p5: Bytes)
    requires t == p1 + (p2 + (p3 + (p4 + p5)))
    ensures var (a, b) := (|p1|, |p1| + |p2|);
      var (m, c) := (b + |p3|, b + |p3| + |p4|);
      |t| == c + |p5| && t[0..a] == p1 && t[a..b] == p2 && t[b..m] == p3 && t[m..c] == p4 && t[c..|t|] == p5
  {
    var (a, b) := (|p1|, |p1| + |p2|);
    var m := b + |p3|;
    assert t[0..] == t;
    Two(t, 0, p1, p2 + (p3 + (p4 + p5)));
    Two(t, a, p2, p3 + (p4 + p5));
    Two(t, b, p3, p4 + p5);
    Two(t, m, p4, p5);
  }

  /** What stands at `b` cut in two. */
  lemma Two(t: Bytes, b: nat, p: Bytes, q: Bytes)
    requires b <= |t| && t[b..] == p + q
    ensures b + |p| <= |t| && t[b..b + |p|] == p && t[b + |p|..] == q
  {
    var u := t[b..];
    assert |u| == |p| + |q|;
    assert forall k :: 0 <= k < |p| ==> t[b + k] == u[k] == p[k];
    assert forall k :: 0 <= k < |q| ==> t[b + |p| + k] == u[|p| + k] == q[k];
  }

  /** The sign is where strtod looks for it. */
  lemma StartsRight(s: Bytes, p: Parts, a: nat, b: nat, c: nat)
    requires IsNumberOf(p) && a == |p.sign| && b == a + |p.whole| && c == b + |p.point| + |p.places| && c <= |s|
    requires s[..a] == p.sign && s[a..b] == p.whole && s[b..b + |p.point|] == p.point
    ensures a == if |s| > 0 && IsSign(s[0]) then 1 else 0
  {
    hide IsExponentPart, DigitsEnd;
    if a == 1 {
      assert s[0] == s[..a][0];
    } else if p.whole != [] {
      FirstDigit(p.whole);
      assert s[0] == s[a..b][0];
    } else {
      assert s[0] == s[b..b + |p.point|][0];
    }
  }

  lemma LetterAt(s: Bytes, c: nat, n: nat)
    requires c <= n <= |s| && IsExponentPart(s[c..n])
    ensures c < n && IsExponent(s[c]) && !IsDigit(s[c])
  {
    var x := s[c..n];
    var k :| 1 <= k <= |x| && ExponentPart(x[..1], x[1..k], x[k..]);
    assert s[c] == x[0] == x[..1][0];
  }

  lemma DigitsStop(s: Bytes, i: nat, j: nat)
    requires i <= j < |s| && N.AllDigits(s[i..j]) && !IsDigit(s[j])
    ensures DigitsEnd(s, i) == j
  {
    DigitsEndIs(s, i, j);
  }

  lemma PointReach(s: Bytes, b: nat, c: nat)
    requires b < c <= |s| && s[b] == POINT && DigitsEnd(s, b + 1) >= c
    ensures PointEnd(s, b) == DigitsEnd(s, b + 1)
  {
  }

  /** From the ends of the parts to the end of the number. */
  lemma Enough(s: Bytes, a: nat, b: nat, c: nat, n: nat)
    requires a <= b <= c <= n <= |s| && a == if |s| > 0 && IsSign(s[0]) then 1 else 0
    requires DigitsEnd(s, a) >= b && (b > a || c > b + 1)
    requires c > b ==> DigitsEnd(s, a) == b && PointEnd(s, b) >= c
    requires n > c ==> ExponentEnd(s, c) >= n
    requires n > c ==> DigitsEnd(s, a) == b && PointEnd(s, b) == c
    ensures n <= StrtodLength(s)
  {
    hide DigitsEnd, ExponentEnd;
  }
}
