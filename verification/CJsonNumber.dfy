/** The number that a numeral denotes, exactly; and the writer's numbers as cJSON reads them. */
module CJsonNumber {
  import opened Ascii
  import opened CJsonItem
  import N = Digits
  import R = Dtoa

  /** x times 10^k, for k of either sign. */
  function TenTimes(x: real, k: int): real
    decreases if k < 0 then -k else 0
  {
    if k >= 0 then R.ShiftReal(x, k) else TenTimes(x, k + 1) / 10.0
  }

  /** The exponent that may start at `i`; 0 if there is none. */
  function Exponent(s: Bytes, i: nat): int
    requires i <= |s|
  {
    var e := ExponentEnd(s, i);
    if e == i then 0
    else if IsSign(s[i + 1]) then
      var n := N.ReadDigits(s[i + 2..e]);
      if s[i + 1] == MINUS then -n else n
    else N.ReadDigits(s[i + 1..e])
  }

  /** The number that strtod reads from a text of number bytes, without rounding. */
  function NumeralValue(s: Bytes): real {
    var a := if |s| > 0 && IsSign(s[0]) then 1 else 0;
    var b := DigitsEnd(s, a);
    var c := PointEnd(s, b);
    var places := if c > b then s[b + 1..c] else [];
    var x := TenTimes(N.ReadDigits(s[a..b] + places) as real, Exponent(s, c) - |places|);
    Negated(a == 1 && s[0] == MINUS, x)
  }

  function Negated(neg: bool, x: real): real {
    if neg then -x else x
  }

  lemma {:induction false} DigitsEndIs(s: Bytes, i: nat, j: nat)
    requires i <= j <= |s| && N.AllDigits(s[i..j]) && (j < |s| ==> !IsDigit(s[j]))
    ensures DigitsEnd(s, i) == j
    decreases j - i
  {
    if i < j {
      assert s[i] == s[i..j][0] && s[i..j][1..] == s[i + 1..j];
      DigitsEndIs(s, i + 1, j);
    }
  }

  /** What a numeral without exponent consists of: an optional minus, digits, and maybe a point and digits. */
  predicate Simple(s: Bytes, neg: bool, w: Bytes, f: Bytes) {
    && s == (if neg then [MINUS] else []) + (w + if f == [] then [] else [POINT] + f)
    && N.AllDigits(w) && N.AllDigits(f) && |w| > 0
  }

  /** A numeral without exponent, cut at `a`, behind its sign, and `b`, behind its whole part. */
  lemma CutNumeral(s: Bytes, a: nat, b: nat, w: Bytes, f: Bytes)
    requires a < b <= |s| && a == (if IsSign(s[0]) then 1 else 0) && DigitsEnd(s, a) == b && PointEnd(s, b) == |s|
    requires w == s[a..b] && f == if |s| > b then s[b + 1..] else []
    ensures StrtodLength(s) == |s|
    ensures NumeralValue(s) == Negated(a == 1 && s[0] == MINUS, TenTimes(N.ReadDigits(w + f) as real, 0 - |f|))
  {
    hide TenTimes, DigitsEnd, PointEnd;
    assert Exponent(s, |s|) == 0;
    assert |s| > b ==> s[b + 1..|s|] == s[b + 1..];
  }

  /** The digits and the point of a numeral are found where they stand. */
  lemma PlacesFound(s: Bytes, a: nat, b: nat)
    requires a < b <= |s| && N.AllDigits(s[a..b]) && (b < |s| ==> s[b] == POINT && N.AllDigits(s[b + 1..]))
    ensures DigitsEnd(s, a) == b && PointEnd(s, b) == |s| && IsDigit(s[a])
  {
    assert s[a] == s[a..b][0];
    DigitsEndIs(s, a, b);
    if b < |s| {
      assert s[b + 1..|s|] == s[b + 1..];
      DigitsEndIs(s, b + 1, |s|);
    }
  }

  /** Such a numeral is read whole, and its value is that of its digits. */
  lemma SimpleRead(s: Bytes, neg: bool, w: Bytes, f: Bytes)
    requires Simple(s, neg, w, f)
    ensures StrtodLength(s) == |s| > 0 && (IsDigit(s[0]) || s[0] == MINUS)
    ensures NumeralValue(s) == Negated(neg, TenTimes(N.ReadDigits(w + f) as real, 0 - |f|))
  {
    hide TenTimes, NumeralValue, StrtodLength, DigitsEnd, PointEnd, N.AllDigits, N.ReadDigits;
    var sign := if neg then [MINUS] else [];
    var rest := if f == [] then [] else [POINT] + f;
    Cut(s, sign, w, rest);
    var a, b := |sign|, |sign| + |w|;
    if f != [] {
      assert s[b] == s[b..][0] && s[b + 1..] == s[b..][1..] == f;
    }
    PlacesFound(s, a, b);
    assert (a == 1 && s[0] == MINUS) == neg;
    CutNumeral(s, a, b, w, f);
  }

  lemma Cut(s: Bytes, a: Bytes, b: Bytes, c: Bytes)
    requires s == a + (b + c)
    ensures |s| == |a| + |b| + |c| && s[|a|..|a| + |b|] == b && s[|a| + |b|..] == c && s[..|a|] == a
    ensures |a| > 0 ==> s[0] == a[0]
  {
  }

  lemma {:induction false} ShiftedInt(n: int, k: nat)
    ensures R.ShiftReal(n as real, k) == N.Shift(n, k) as real
    decreases k
  {
    if k > 0 {
      ShiftedInt(n, k - 1);
    }
  }

  lemma {:induction false} ShiftTen(x: real, k: nat)
    ensures R.ShiftReal(x / 10.0, k + 1) == R.ShiftReal(x, k)
    decreases k
  {
    if k > 0 {
      ShiftTen(x, k - 1);
    }
  }

  /** Scaling by `places` digits to the right and by more to the left. */
  lemma {:induction false} ShiftBack(x: real, places: int, p: nat)
    requires 0 <= places <= p
    ensures R.ShiftReal(TenTimes(x, -places), p) == R.ShiftReal(x, p - places)
    decreases places
  {
    if places > 0 {
      ShiftTen(TenTimes(x, -(places - 1)), p - 1);
      ShiftBack(x, places - 1, p - 1);
    }
  }

  /** The parts of what the writer's formatter produces. */
  lemma TextParts(value: real, prec: int) returns (w: Bytes, f: Bytes)
    ensures Simple(R.Text(value, prec), value < 0.0, w, f) && |f| <= R.ClampPrec(prec)
    ensures (|w| == 1 || w[0] != '0' as int) && (|f| > 0 ==> f[|f| - 1] != '0' as int)
  {
    var p := R.ClampPrec(prec);
    var (frac, whole) := R.Rounded(value, p);
    hide R.ClampPrec, R.Rounded, R.RoundedWhole, R.LowFraction, N.LowDigits, N.Reversed, N.AllDigits;
    if p == 0 || frac == 0 {
      var n := if p == 0 then R.RoundedWhole(value, whole) else whole;
      f := [];
      w := WholeParts(n);
      Signed(N.LowDigits(n), value < 0.0);
    } else {
      w, f := FractionParts(value, p);
      Signed(R.LowUnsigned(frac, whole, p), value < 0.0);
    }
  }

  lemma WholeParts(n: nat) returns (w: Bytes)
    ensures N.Reversed(N.LowDigits(n)) == w + [] == w && N.AllDigits(w) && N.AllDigits([]) && |w| > 0
    ensures |w| == 1 || w[0] != '0' as int
  {
    w := N.Reversed(N.LowDigits(n));
    R.WholeRead(n);
    NoLeadingZero(n);
    assert w + [] == w;
  }

  lemma FractionParts(value: real, p: nat) returns (w: Bytes, f: Bytes)
    requires p > 0 && R.Rounded(value, p).0 > 0
    ensures var (frac, whole) := R.Rounded(value, p);
      N.Reversed(R.LowUnsigned(frac, whole, p)) == w + ([POINT] + f)
    ensures N.AllDigits(w) && N.AllDigits(f) && |w| > 0 && 0 < |f| <= p
    ensures (|w| == 1 || w[0] != '0' as int) && f[|f| - 1] != '0' as int
  {
    var (frac, whole) := R.Rounded(value, p);
    hide R.Rounded, R.LowUnsigned, R.LowFraction, N.LowDigits, N.Reversed, N.AllDigits;
    w := WholeParts(whole);
    f := N.Reversed(R.LowFraction(frac, p));
    NoTrailingZero(frac, p);
    R.FractionText(frac, whole, p);
    FractionDigits(value, p);
    assert w + [POINT] + f == w + ([POINT] + f);
  }

  lemma FractionDigits(value: real, p: nat)
    requires p > 0 && R.Rounded(value, p).0 > 0
    ensures var f := N.Reversed(R.LowFraction(R.Rounded(value, p).0, p)); N.AllDigits(f) && 0 < |f| <= p
  {
    var frac := R.Rounded(value, p).0;
    if R.CarryLost(value, p) {
      R.LostCarryRounded(value, p);
      R.PowerFraction(p);
      R.OneRead();
    } else {
      R.FractionRead(frac, p);
    }
  }

  lemma Signed(low: Bytes, neg: bool)
    ensures N.Reversed(low + if neg then [MINUS] else []) == (if neg then [MINUS] else []) + N.Reversed(low)
  {
    if neg {
      N.ReversedJoin(low, [MINUS]);
      assert N.Reversed([MINUS]) == [MINUS];
    } else {
      assert low + [] == low;
    }
  }

  lemma {:induction false} UnitsOfParts(w: Bytes, f: Bytes, p: nat)
    requires N.AllDigits(w) && N.AllDigits(f) && |w| > 0 && |f| <= p
    ensures var s := w + if f == [] then [] else [POINT] + f;
      R.UnsignedUnits(s, p) == N.Shift(N.ReadDigits(w + f), p - |f|) && s[0] != MINUS
  {
    var s := w + if f == [] then [] else [POINT] + f;
    if f == [] {
      assert s == w && w + f == w;
      R.NoPoint(w);
    } else {
      assert s == w + [POINT] + f;
      R.PartsRead(s, w, f, p);
      R.ReadJoin(w, f);
      R.ShiftSum(N.Shift(N.ReadDigits(w), |f|), N.ReadDigits(f), p - |f|);
      R.ShiftShift(N.ReadDigits(w), |f|, p - |f|);
    }
  }

  /** The value of such a numeral in units of 10^-p. */
  lemma SimpleUnits(s: Bytes, neg: bool, w: Bytes, f: Bytes, p: nat)
    requires Simple(s, neg, w, f) && |f| <= p
    ensures R.ShiftReal(NumeralValue(s), p) == R.DenotedUnits(s, p) as real
  {
    hide TenTimes, NumeralValue, R.UnsignedUnits, R.ShiftReal, N.ReadDigits, N.Shift;
    SimpleRead(s, neg, w, f);
    var n := N.ReadDigits(w + f);
    var x := TenTimes(n as real, 0 - |f|);
    ShiftBack(n as real, |f|, p);
    ShiftedInt(n, p - |f|);
    UnitsOfParts(w, f, p);
    var unsigned := w + if f == [] then [] else [POINT] + f;
    if neg {
      assert s[1..] == unsigned;
      R.ShiftRealNegative(x, p);
    } else {
      assert s == unsigned;
    }
  }

  /** cJSON reads from the writer's text of a number exactly the multiple of 10^-p that the text denotes. */
  lemma WrittenRead(value: real, prec: int)
    ensures var (s, p) := (R.Text(value, prec), R.ClampPrec(prec));
      && StrtodLength(s) == |s| > 0 && (IsDigit(s[0]) || s[0] == MINUS)
      && R.ShiftReal(NumeralValue(s), p) == R.DenotedUnits(s, p) as real
  {
    var w, f := TextParts(value, prec);
    hide *;
    SimpleRead(R.Text(value, prec), value < 0.0, w, f);
    SimpleUnits(R.Text(value, prec), value < 0.0, w, f, R.ClampPrec(prec));
  }

  /** So what cJSON reads back is nearest to what was written, exactly if no carry was lost. */
  lemma WrittenNearest(value: real, prec: int)
    ensures var (x, p) := (R.ShiftReal(NumeralValue(R.Text(value, prec)), R.ClampPrec(prec)), R.ClampPrec(prec));
      (x - 0.5 <= R.ShiftReal(value, p) <= x + 0.5) <==> !R.CarryLost(value, p)
  {
    WrittenRead(value, prec);
    R.TextNearest(value, prec);
  }

  /** Integers are read back as they are. */
  lemma IntegerRead(v: int)
    ensures var s := N.Decimal(v);
      StrtodLength(s) == |s| > 0 && (IsDigit(s[0]) || s[0] == MINUS) && NumeralValue(s) == v as real
  {
    var n := if v < 0 then -v else v;
    var w := N.Reversed(N.LowDigits(n));
    R.WholeRead(n);
    Signed(N.LowDigits(n), v < 0);
    assert w + [] == w && N.LowDigits(n) + [] == N.LowDigits(n);
    SimpleRead(N.Decimal(v), v < 0, w, []);
  }

  lemma {:induction false} TenTimesTen(x: real, places: int)
    requires places >= 0
    ensures TenTimes(10.0 * x, -places - 1) == TenTimes(x, -places)
    decreases places
  {
    if places > 0 {
      TenTimesTen(x, places - 1);
    }
  }

  lemma ZeroDigit(s: Bytes)
    ensures N.ReadDigits(s + [48]) == 10 * N.ReadDigits(s)
  {
    assert (s + [48])[..|s|] == s;
  }

  /**
   * Different texts can denote the same number: another zero behind the decimal places, as in 1 and 1.0, changes
   * nothing.
   */
  lemma ZeroBehind(s: Bytes, s': Bytes, neg: bool, w: Bytes, f: Bytes)
    requires Simple(s, neg, w, f) && Simple(s', neg, w, f + [48])
    ensures NumeralValue(s) == NumeralValue(s')
  {
    hide *;
    SimpleRead(s, neg, w, f);
    SimpleRead(s', neg, w, f + [48]);
    var n := N.ReadDigits(w + f);
    assert (w + f) + [48] == w + (f + [48]);
    ZeroDigit(w + f);
    TenTimesTen(n as real, |f|);
  }

  // ----- exponents -----

  /** One more power of ten. */
  lemma TenMore(x: real, k: int)
    ensures TenTimes(x, k + 1) == 10.0 * TenTimes(x, k)
  {
    if k < -1 {
      assert TenTimes(x, k) == TenTimes(x, k + 1) / 10.0;
    }
  }

  lemma {:induction false} TenTimesSum(x: real, a: int, b: int)
    ensures TenTimes(TenTimes(x, a), b) == TenTimes(x, a + b)
    decreases if b < 0 then -b else b
  {
    hide TenTimes;
    if b == 0 {
      TenTimesNone(TenTimes(x, a));
    } else if b > 0 {
      TenTimesSum(x, a, b - 1);
      TenMore(TenTimes(x, a), b - 1);
      TenMore(x, a + b - 1);
    } else {
      TenTimesSum(x, a, b + 1);
      TenMore(TenTimes(x, a), b);
      TenMore(x, a + b);
    }
  }

  lemma TenTimesNone(x: real)
    ensures TenTimes(x, 0) == x
  {
  }

  lemma {:induction false} TenTimesNegated(neg: bool, x: real, k: int)
    ensures TenTimes(Negated(neg, x), k) == Negated(neg, TenTimes(x, k))
    decreases if k < 0 then -k else k
  {
    hide TenTimes;
    if k == 0 {
      TenTimesNone(x);
      TenTimesNone(Negated(neg, x));
    } else if k > 0 {
      TenTimesNegated(neg, x, k - 1);
      TenMore(x, k - 1);
      TenMore(Negated(neg, x), k - 1);
    } else {
      TenTimesNegated(neg, x, k + 1);
      TenMore(x, k);
      TenMore(Negated(neg, x), k);
    }
  }

  /** Letter, sign and digits of an exponent. */
  predicate ExponentPart(e: Bytes, sign: Bytes, d: Bytes) {
    && |e| == 1 && (e[0] == 'e' as int || e[0] == 'E' as int)
    && (sign == [] || sign == ['+' as int] || sign == ['-' as int]) && |d| > 0 && N.AllDigits(d)
  }

  function ExponentOf(sign: Bytes, d: Bytes): int {
    if sign == ['-' as int] then -N.ReadDigits(d) else N.ReadDigits(d)
  }

  /** The exponent is found where it stands. */
  lemma ExponentFound(t: Bytes, i: nat, e: Bytes, sign: Bytes, d: Bytes)
    requires ExponentPart(e, sign, d) && i <= |t| && t[i..] == e + (sign + d)
    ensures ExponentEnd(t, i) == |t| && Exponent(t, i) == ExponentOf(sign, d)
  {
    hide N.AllDigits, N.ReadDigits, DigitsEnd;
    Cut(t[i..], e, sign, d);
    var at := i + 1 + |sign|;
    assert t[at..] == t[i..][1 + |sign|..] == d && t[at..|t|] == t[at..];
    assert t[i] == t[i..][0] == e[0];
    DigitsEndIs(t, at, |t|);
    if sign == [] {
      FirstDigit(d);
      assert t[i + 1] == t[at..][0];
    } else {
      assert t[i + 1] == t[i..][1] == sign[0];
    }
  }

  lemma FirstDigit(d: Bytes)
    requires |d| > 0 && N.AllDigits(d)
    ensures IsDigit(d[0]) && !IsSign(d[0])
  {
  }

  /** The digits and the point in front of an exponent are found where they stand. */
  lemma PlacesBefore(t: Bytes, a: nat, b: nat, c: nat)
    requires a < b <= c < |t| && N.AllDigits(t[a..b]) && IsExponent(t[c])
    requires b < c ==> t[b] == POINT && N.AllDigits(t[b + 1..c])
    ensures DigitsEnd(t, a) == b && PointEnd(t, b) == c
  {
    DigitsEndIs(t, a, b);
    if b < c {
      DigitsEndIs(t, b + 1, c);
    }
  }

  lemma CutExponent(t: Bytes, a: nat, b: nat, c: nat, w: Bytes, f: Bytes, k: int)
    requires a < b <= c <= |t| && a == (if IsSign(t[0]) then 1 else 0) && DigitsEnd(t, a) == b && PointEnd(t, b) == c
    requires w == t[a..b] && f == (if c > b then t[b + 1..c] else []) && ExponentEnd(t, c) == |t| && Exponent(t, c) == k
    ensures StrtodLength(t) == |t|
    ensures NumeralValue(t) == Negated(a == 1 && t[0] == MINUS, TenTimes(N.ReadDigits(w + f) as real, k - |f|))
  {
    hide TenTimes, DigitsEnd, PointEnd, ExponentEnd, Exponent;
  }

  /** A text in four parts. */
  lemma FourParts(t: Bytes, lead: Bytes, w: Bytes, rest: Bytes, tail: Bytes)
    requires t == (lead + (w + rest)) + tail
    ensures var (a, b, c) := (|lead|, |lead| + |w|, |lead| + |w| + |rest|);
      c <= |t| && t[..a] == lead && t[a..b] == w && t[b..c] == rest && t[c..] == tail
  {
    var s := lead + (w + rest);
    Cut(s, lead, w, rest);
    Cut(t, lead, w + rest, tail);
    assert t[..|s|] == s;
    assert t[|lead|..|lead| + |w|] == s[|lead|..|lead| + |w|];
    assert t[|lead| + |w|..|s|] == s[|lead| + |w|..];
  }

  /** Where the parts of a numeral with an exponent stand. */
  lemma ExponentParts(s: Bytes, neg: bool, w: Bytes, f: Bytes, t: Bytes, tail: Bytes) returns (a: nat, b: nat)
    requires Simple(s, neg, w, f) && t == s + tail && |tail| > 0
    ensures a == (if neg then 1 else 0) && a < b <= |s| < |t| && w == t[a..b] && t[|s|..] == tail && t[|s|] == tail[0]
    ensures f == (if |s| > b then t[b + 1..|s|] else []) && (b < |s| ==> t[b] == POINT) && t[a] == w[0]
    ensures neg ==> t[0] == MINUS
  {
    hide N.AllDigits;
    var lead := if neg then [MINUS] else [];
    var rest := if f == [] then [] else [POINT] + f;
    a, b := |lead|, |lead| + |w|;
    assert |s| == |lead| + |w| + |rest|;
    FourParts(t, lead, w, rest, tail);
    hide Simple;
    assert t[a] == t[a..b][0] && t[|s|] == t[|s|..][0];
    if f != [] {
      assert t[b] == t[b..|s|][0] && t[b + 1..|s|] == t[b..|s|][1..] == f;
    }
    if neg {
      assert t[0] == t[..a][0];
    }
  }

  lemma ExponentSplit(t: Bytes, neg: bool, a: nat, b: nat, c: nat, w: Bytes, f: Bytes, e: Bytes, sign: Bytes, d: Bytes)
    requires a < b <= c < |t| && a == (if neg then 1 else 0) && w == t[a..b] && t[c..] == e + (sign + d)
    requires f == (if c > b then t[b + 1..c] else []) && (b < c ==> t[b] == POINT) && t[a] == w[0]
    requires (neg ==> t[0] == MINUS) && N.AllDigits(w) && N.AllDigits(f) && ExponentPart(e, sign, d) && t[c] == e[0]
    ensures StrtodLength(t) == |t|
    ensures NumeralValue(t)
      == Negated(neg, TenTimes(N.ReadDigits(w + f) as real, ExponentOf(sign, d) - |f|))
  {
    hide TenTimes, NumeralValue, StrtodLength, DigitsEnd, PointEnd, ExponentEnd, Exponent, N.AllDigits, N.ReadDigits,
      ExponentOf;
    FirstDigit(w);
    PlacesBefore(t, a, b, c);
    ExponentFound(t, c, e, sign, d);
    CutExponent(t, a, b, c, w, f, ExponentOf(sign, d));
  }

  /** A numeral with an exponent is read whole, and its value is that of the numeral times that power of ten. */
  lemma ExponentRead(s: Bytes, neg: bool, w: Bytes, f: Bytes, e: Bytes, sign: Bytes, d: Bytes)
    requires Simple(s, neg, w, f) && ExponentPart(e, sign, d)
    ensures var t := s + (e + (sign + d));
      StrtodLength(t) == |t| && NumeralValue(t) == TenTimes(NumeralValue(s), ExponentOf(sign, d))
  {
    hide TenTimes, NumeralValue, StrtodLength, N.AllDigits, N.ReadDigits, ExponentOf;
    var t, k := s + (e + (sign + d)), ExponentOf(sign, d);
    SimpleRead(s, neg, w, f);
    var a, b := ExponentParts(s, neg, w, f, t, e + (sign + d));
    ExponentSplit(t, neg, a, b, |s|, w, f, e, sign, d);
    var n := N.ReadDigits(w + f) as real;
    TenTimesSum(n, 0 - |f|, k);
    TenTimesNegated(neg, TenTimes(n, 0 - |f|), k);
  }

  // ----- the writer's numbers are numbers of RFC 8259 -----

  lemma {:induction false} LastOfLow(n: nat)
    ensures var low := N.LowDigits(n); |low| == 1 || low[|low| - 1] != '0' as int
    decreases n
  {
    if n >= 10 {
      LastOfLow(n / 10);
    }
  }

  /** A whole part has no leading zero. */
  lemma NoLeadingZero(n: nat)
    ensures var w := N.Reversed(N.LowDigits(n)); |w| == 1 || w[0] != '0' as int
  {
    LastOfLow(n);
    N.ReversedAt(N.LowDigits(n), 0);
  }

  lemma NumberOf(s: Bytes, neg: bool, w: Bytes, f: Bytes)
    requires Simple(s, neg, w, f) && (|w| == 1 || w[0] != '0' as int)
    ensures IsNumber(s)
  {
    hide N.AllDigits, DigitsEnd, PointEnd, IsNumber;
    var sign := if neg then [MINUS] else [];
    var rest := if f == [] then [] else [POINT] + f;
    Cut(s, sign, w, rest);
    var a, b := |sign|, |sign| + |w|;
    if f != [] {
      assert s[b] == s[b..][0] && s[b + 1..] == s[b..][1..] == f;
    }
    PlacesFound(s, a, b);
    assert s[a] == s[a..b][0] == w[0];
    FirstDigit(w);
    assert !neg ==> s[0] == w[0];
    NumberParts(s, a, b);
  }

  lemma NumberParts(s: Bytes, a: nat, b: nat)
    requires a < b <= |s| && a == (if s[0] == MINUS then 1 else 0) && DigitsEnd(s, a) == b && PointEnd(s, b) == |s|
    requires (b == a + 1 || s[a] != '0' as int) && |s| != b + 1
    ensures IsNumber(s)
  {
    hide DigitsEnd, PointEnd, ExponentEnd;
  }

  /** The writer's integers are numbers of section 6 of RFC 8259: no leading zero, no sign but a minus. */
  lemma DecimalNumber(v: int)
    ensures IsNumber(N.Decimal(v))
  {
    var n := if v < 0 then -v else v;
    var w := N.Reversed(N.LowDigits(n));
    R.WholeRead(n);
    Signed(N.LowDigits(n), v < 0);
    assert w + [] == w && N.LowDigits(n) + [] == N.LowDigits(n);
    NoLeadingZero(n);
    NumberOf(N.Decimal(v), v < 0, w, []);
  }

  lemma {:induction false} TrimEnds(frac: nat, count: int)
    requires frac > 0
    ensures R.Trim(frac, count).0 % 10 != 0
    decreases frac
  {
    if frac % 10 == 0 {
      TrimEnds(frac / 10, count - 1);
    }
  }

  /** A fraction does not end in a zero. */
  lemma NoTrailingZero(frac: nat, p: nat)
    requires frac > 0
    ensures var f := N.Reversed(R.LowFraction(frac, p)); |f| > 0 && f[|f| - 1] != '0' as int
  {
    TrimEnds(frac, p);
    N.ReversedAt(R.LowFraction(frac, p), |R.LowFraction(frac, p)| - 1);
  }

  /** So are its other numbers, and their decimal places do not end in a zero. */
  lemma TextNumber(value: real, prec: int) returns (w: Bytes, f: Bytes)
    ensures IsNumber(R.Text(value, prec)) && Simple(R.Text(value, prec), value < 0.0, w, f)
    ensures |f| > 0 ==> f[|f| - 1] != '0' as int
  {
    w, f := TextParts(value, prec);
    hide IsNumber, R.Text;
    NumberOf(R.Text(value, prec), value < 0.0, w, f);
  }
}
