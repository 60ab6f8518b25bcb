/** The decimal formatter of the JSON writer, over real numbers. */
module Dtoa {
  import opened Ascii
  import opened Digits

  function ClampPrec(prec: int): nat {
    if prec < 0 then 0 else if prec > 9 then 9 else prec
  }

  function Abs(value: real): real {
    if value < 0.0 then -value else value
  }

  /** Whole part of the absolute value. */
  function Whole(value: real): nat {
    Abs(value).Floor
  }

  /** x times 10^k: the product with the table entry for k. */
  function ShiftReal(x: real, k: nat): real {
    if k == 0 then x else 10.0 * ShiftReal(x, k - 1)
  }

  lemma {:induction false} ShiftRealBounds(x: real, k: nat)
    requires 0.0 <= x < 1.0
    ensures 0.0 <= ShiftReal(x, k) < Shift(1, k) as real
    decreases k
  {
    if k > 0 {
      ShiftRealBounds(x, k - 1);
    }
  }

  lemma {:induction false} ShiftRealSplit(w: int, x: real, k: nat)
    ensures ShiftReal(w as real + x, k) == Shift(w, k) as real + ShiftReal(x, k)
    decreases k
  {
    if k > 0 {
      ShiftRealSplit(w, x, k - 1);
    }
  }

  /** The fraction in units of 10^-p, with the part that does not fit into p digits. */
  function Scaled(value: real, p: nat): (r: real)
    ensures 0.0 <= r < Shift(1, p) as real
  {
    ShiftRealBounds(Abs(value) - Whole(value) as real, p);
    ShiftReal(Abs(value) - Whole(value) as real, p)
  }

  function Kept(value: real, p: nat): (r: nat)
    ensures r < Shift(1, p)
  {
    Scaled(value, p).Floor
  }

  /** The discarded remainder, in units of 10^-p. */
  function Remainder(value: real, p: nat): (r: real)
    ensures 0.0 <= r < 1.0
  {
    Scaled(value, p) - Kept(value, p) as real
  }

  /** Fraction and whole part after the rounding of the p kept digits; a tie never carries into the whole part. */
  function Rounded(value: real, p: nat): (nat, nat) {
    var (frac, whole, diff) := (Kept(value, p), Whole(value), Remainder(value, p));
    if diff > 0.5 then (if frac + 1 >= Shift(1, p) then (0, whole + 1) else (frac + 1, whole))
    else if diff == 0.5 && (frac == 0 || frac % 2 == 1) then (frac + 1, whole)
    else (frac, whole)
  }

  /** With no digits kept the whole part is rounded, ties to even. */
  function RoundedWhole(value: real, whole: nat): nat {
    var diff := Abs(value) - whole as real;
    if diff > 0.5 || (diff == 0.5 && whole % 2 == 1) then whole + 1 else whole
  }

  /** A fraction without its trailing zeros, and how many digits are left of `count`. */
  function Trim(frac: nat, count: int): (r: (nat, int))
    requires frac > 0
    ensures r.0 > 0 && r.1 <= count && Shift(r.0, count - r.1) == frac
    decreases frac
  {
    if frac % 10 != 0 then (frac, count) else Trim(frac / 10, count - 1)
  }

  function Zeros(n: int): (s: Bytes)
    ensures |s| == if n > 0 then n else 0
  {
    if n <= 0 then [] else [ZERO] + Zeros(n - 1)
  }

  /** The p digits of a fraction backwards, without trailing zeros. */
  function LowFraction(frac: nat, p: nat): Bytes
    requires frac > 0
  {
    var (f, count) := Trim(frac, p);
    LowDigits(f) + Zeros(count - |LowDigits(f)|)
  }

  /** The text backwards and without sign, for p > 0. */
  function LowUnsigned(frac: nat, whole: nat, p: nat): Bytes {
    if frac == 0 then LowDigits(whole) else LowFraction(frac, p) + [POINT] + LowDigits(whole)
  }

  /** The text backwards, as the function builds it. */
  function LowText(value: real, prec: int): Bytes {
    var p := ClampPrec(prec);
    var (frac, whole) := Rounded(value, p);
    (if p == 0 then LowUnsigned(0, RoundedWhole(value, whole), 0) else LowUnsigned(frac, whole, p))
    + if value < 0.0 then [MINUS] else []
  }

  function Text(value: real, prec: int): Bytes {
    Reversed(LowText(value, prec))
  }

  /** The position of the decimal point, or the length. */
  function PointAt(s: Bytes): (r: nat)
    ensures r <= |s| && (r < |s| ==> s[r] == POINT) && forall i :: 0 <= i < r ==> s[i] != POINT
  {
    if s == [] || s[0] == POINT then 0 else 1 + PointAt(s[1..])
  }

  /** The number that an unsigned text with at most p decimal places denotes, in units of 10^-p. */
  function UnsignedUnits(s: Bytes, p: nat): int {
    var i := PointAt(s);
    if i == |s| then Shift(ReadDigits(s), p)
    else
      var places := |s| - i - 1;
      if places <= p then Shift(Shift(ReadDigits(s[..i]), places) + ReadDigits(s[i + 1..]), p - places) else -1
  }

  /** The same with an optional sign. */
  function DenotedUnits(s: Bytes, p: nat): int {
    if |s| > 0 && s[0] == MINUS then -UnsignedUnits(s[1..], p) else UnsignedUnits(s, p)
  }

  lemma {:induction false} ShiftSum(a: int, b: int, k: nat)
    ensures Shift(a + b, k) == Shift(a, k) + Shift(b, k)
    decreases k
  {
    if k > 0 {
      ShiftSum(a, b, k - 1);
    }
  }

  lemma {:induction false} ShiftShift(n: int, a: nat, b: nat)
    ensures Shift(Shift(n, a), b) == Shift(n, a + b)
    decreases b
  {
    if b > 0 {
      ShiftShift(n, a, b - 1);
    }
  }

  lemma {:induction false} ShiftGrows(m: int, n: int, k: nat)
    requires m <= n
    ensures Shift(m, k) <= Shift(n, k)
    decreases k
  {
    if k > 0 {
      ShiftGrows(m, n, k - 1);
    }
  }

  lemma {:induction false} ShiftAtLeast(n: nat, k: nat)
    ensures n <= Shift(n, k)
    decreases k
  {
    if k > 0 {
      ShiftAtLeast(n, k - 1);
    }
  }

  lemma {:induction false} ReadJoin(a: Bytes, b: Bytes)
    ensures ReadDigits(a + b) == Shift(ReadDigits(a), |b|) + ReadDigits(b)
    decreases |b|
  {
    if b == [] {
      assert a + b == a;
    } else {
      assert (a + b)[..|a + b| - 1] == a + b[..|b| - 1];
      ReadJoin(a, b[..|b| - 1]);
    }
  }

  lemma {:induction false} ZerosRead(n: int)
    ensures AllDigits(Zeros(n)) && Reversed(Zeros(n)) == Zeros(n) && ReadDigits(Zeros(n)) == 0
    decreases n
  {
    if n > 0 {
      ZerosRead(n - 1);
      assert Zeros(n)[1..] == Zeros(n - 1);
      ZerosTail(n);
      assert Zeros(n)[..n - 1] == Zeros(n - 1);
    }
  }

  lemma {:induction false} ZerosTail(n: int)
    requires n > 0
    ensures Zeros(n - 1) + [ZERO] == Zeros(n)
    decreases n
  {
    if n > 1 {
      ZerosTail(n - 1);
      assert [ZERO] + Zeros(n - 2) + [ZERO] == [ZERO] + (Zeros(n - 2) + [ZERO]);
    }
  }

  lemma {:induction false} ShiftOrder(m: int, n: int, k: nat)
    requires Shift(m, k) < Shift(n, k)
    ensures m < n
    decreases k
  {
    if k > 0 {
      ShiftOrder(m, n, k - 1);
    }
  }

  lemma PowerGrows(a: nat, b: nat)
    requires a <= b
    ensures Shift(1, a) <= Shift(1, b)
  {
    ShiftShift(1, a, b - a);
    ShiftAtLeast(Shift(1, a), b - a);
  }

  lemma PowerOrder(a: nat, b: nat)
    requires Shift(1, a) < Shift(1, b)
    ensures a < b
  {
    if a >= b {
      PowerGrows(b, a);
    }
  }

  lemma TrimFits(frac: nat, p: nat)
    requires 0 < frac < Shift(1, p)
    ensures var (f, count) := Trim(frac, p); 0 < count && f < Shift(1, count)
  {
    var (f, count) := Trim(frac, p);
    ShiftGrows(1, f, p - count);
    PowerOrder(p - count, p);
    ShiftShift(1, count, p - count);
    ShiftOrder(f, Shift(1, count), p - count);
  }

  lemma PaddedLow(low: Bytes, n: nat)
    requires AllDigits(low)
    ensures var s := Reversed(low + Zeros(n));
      AllDigits(s) && |s| == n + |low| && ReadDigits(s) == ReadDigits(Reversed(low))
  {
    hide *;
    ZerosRead(n);
    ReversedJoin(low, Zeros(n));
    ReadJoin(Zeros(n), Reversed(low));
    ShiftZero(|low|);
    ReversedDigits(low);
    DigitsJoin(Zeros(n), Reversed(low));
  }

  lemma DigitsJoin(a: Bytes, b: Bytes)
    requires AllDigits(a) && AllDigits(b)
    ensures AllDigits(a + b)
  {
  }

  /** A number below 10^count, padded with zeros to count digits. */
  lemma PaddedRead(f: nat, count: nat)
    requires f < Shift(1, count) && count > 0
    ensures var s := Reversed(LowDigits(f) + Zeros(count - |LowDigits(f)|));
      AllDigits(s) && |s| == count && ReadDigits(s) == f
  {
    hide *;
    LowDigitsLength(f, count);
    LowDigitsRead(f);
    PaddedLow(LowDigits(f), count - |LowDigits(f)|);
  }

  /** The fraction digits in reading order are at most p, and denote frac units of 10^-p. */
  lemma FractionRead(frac: nat, p: nat)
    requires 0 < frac < Shift(1, p)
    ensures var s := Reversed(LowFraction(frac, p));
      AllDigits(s) && 0 < |s| <= p && Shift(ReadDigits(s), p - |s|) == frac
  {
    TrimFits(frac, p);
    PaddedRead(Trim(frac, p).0, Trim(frac, p).1);
  }

  lemma {:induction false} ShiftZero(k: nat)
    ensures Shift(0, k) == 0
    decreases k
  {
    if k > 0 {
      ShiftZero(k - 1);
    }
  }

  lemma ReversedDigits(s: Bytes)
    requires AllDigits(s)
    ensures AllDigits(Reversed(s))
  {
    forall k | 0 <= k < |s| ensures IsDigit(Reversed(s)[k]) {
      ReversedAt(s, k);
    }
  }

  lemma PointIn(whole: Bytes, rest: Bytes)
    requires AllDigits(whole)
    ensures PointAt(whole + [POINT] + rest) == |whole|
  {
    var s := whole + [POINT] + rest;
    assert s[|whole|] == POINT;
    assert forall i :: 0 <= i < |whole| ==> s[i] == whole[i];
  }

  lemma NoPoint(s: Bytes)
    requires AllDigits(s)
    ensures PointAt(s) == |s|
  {
  }

  /** Reading digits with a decimal point. */
  lemma PartsRead(s: Bytes, w: Bytes, f: Bytes, p: nat)
    requires s == w + [POINT] + f && AllDigits(w) && |w| > 0 && |f| <= p
    ensures UnsignedUnits(s, p) == Shift(ReadDigits(w), p) + Shift(ReadDigits(f), p - |f|)
    ensures |s| > 0 && s[0] != MINUS
  {
    PointIn(w, f);
    assert s[..|w|] == w && s[|w| + 1..] == f;
    ShiftSum(Shift(ReadDigits(w), |f|), ReadDigits(f), p - |f|);
    ShiftShift(ReadDigits(w), |f|, p - |f|);
  }

  lemma WholeRead(whole: nat)
    ensures var w := Reversed(LowDigits(whole)); AllDigits(w) && |w| > 0 && ReadDigits(w) == whole
  {
    LowDigitsRead(whole);
    ReversedDigits(LowDigits(whole));
  }

  /** What the unsigned text denotes: the whole part and `frac` units of 10^-p. */
  lemma UnsignedRead(frac: nat, whole: nat, p: nat)
    requires frac < Shift(1, p)
    ensures var s := Reversed(LowUnsigned(frac, whole, p));
      UnsignedUnits(s, p) == Shift(whole, p) + frac && |s| > 0 && s[0] != MINUS
  {
    WholeRead(whole);
    if frac == 0 {
      NoPoint(Reversed(LowDigits(whole)));
    } else {
      FractionText(frac, whole, p);
      FractionRead(frac, p);
      PartsRead(Reversed(LowUnsigned(frac, whole, p)), Reversed(LowDigits(whole)), Reversed(LowFraction(frac, p)), p);
    }
  }

  lemma FractionText(frac: nat, whole: nat, p: nat)
    requires frac > 0
    ensures Reversed(LowUnsigned(frac, whole, p))
      == Reversed(LowDigits(whole)) + [POINT] + Reversed(LowFraction(frac, p))
  {
    var low := LowFraction(frac, p);
    ReversedJoin(low + [POINT], LowDigits(whole));
    ReversedJoin(low, [POINT]);
    assert Reversed([POINT]) == [POINT];
    assert Reversed(LowDigits(whole)) + ([POINT] + Reversed(low))
      == Reversed(LowDigits(whole)) + [POINT] + Reversed(low);
  }

  /** The nearest multiple of 10^-p to the absolute value, in units; a tie below a carry goes up. */
  function Units(value: real, prec: int): nat {
    var p := ClampPrec(prec);
    var (frac, whole) := Rounded(value, p);
    if p == 0 then RoundedWhole(value, whole) else Shift(whole, p) + frac
  }

  /** A tie just below the next whole number: the fraction becomes 10^p, and its carry is lost. */
  predicate CarryLost(value: real, p: nat) {
    p > 0 && Remainder(value, p) == 0.5 && Kept(value, p) + 1 == Shift(1, p)
  }

  function Signed(value: real, n: int): int {
    if value < 0.0 then -n else n
  }

  lemma SignRead(value: real, low: Bytes, p: nat)
    requires |low| > 0 && Reversed(low)[0] != MINUS
    ensures DenotedUnits(Reversed(low + if value < 0.0 then [MINUS] else []), p)
      == Signed(value, UnsignedUnits(Reversed(low), p))
  {
    if value < 0.0 {
      ReversedJoin(low, [MINUS]);
      assert Reversed([MINUS]) == [MINUS];
      assert Reversed(low + [MINUS])[1..] == Reversed(low);
    } else {
      assert low + [] == low;
    }
  }

  lemma NoShift()
    ensures Shift(1, 0) == 1 && forall n: int {:trigger Shift(n, 0)} :: Shift(n, 0) == n
  {
  }

  lemma RoundedFits(value: real, p: nat)
    requires p > 0 && !CarryLost(value, p)
    ensures Rounded(value, p).0 < Shift(1, p)
  {
    hide Shift;
  }

  /** Without a lost carry the text denotes `Units` units of 10^-p, with the sign of the value. */
  lemma TextRead(value: real, prec: int)
    requires !CarryLost(value, ClampPrec(prec))
    ensures DenotedUnits(Text(value, prec), ClampPrec(prec)) == Signed(value, Units(value, prec))
  {
    hide UnsignedUnits, DenotedUnits, LowUnsigned, Rounded, RoundedWhole, Shift, Reversed, CarryLost;
    var p := ClampPrec(prec);
    var (frac, whole) := Rounded(value, p);
    if p == 0 {
      NoShift();
      UnsignedRead(0, RoundedWhole(value, whole), 0);
      SignRead(value, LowUnsigned(0, RoundedWhole(value, whole), 0), p);
    } else {
      RoundedFits(value, p);
      UnsignedRead(frac, whole, p);
      SignRead(value, LowUnsigned(frac, whole, p), p);
    }
  }

  lemma DivideTen(x: nat)
    ensures (10 * x) % 10 == 0 && (10 * x) / 10 == x
  {
  }

  lemma {:induction false} TrimPower(p: nat)
    ensures Shift(1, p) > 0 && Trim(Shift(1, p), p) == (1, 0)
    decreases p
  {
    if p > 0 {
      TrimPower(p - 1);
      DivideTen(Shift(1, p - 1));
    }
  }

  lemma OneRead()
    ensures Reversed([ZERO + 1]) == [ZERO + 1] && ReadDigits([ZERO + 1]) == 1
  {
    assert [ZERO + 1][..0] == [] && [ZERO + 1][1..] == [];
  }

  lemma PowerFraction(p: nat)
    ensures Shift(1, p) > 0 && LowFraction(Shift(1, p), p) == [ZERO + 1]
  {
    TrimPower(p);
  }

  /** A fraction of 10^p is written as one tenth. */
  lemma PowerFractionRead(whole: nat, p: nat)
    requires p > 0
    ensures var s := Reversed(LowUnsigned(Shift(1, p), whole, p));
      UnsignedUnits(s, p) == Shift(whole, p) + Shift(1, p - 1) && |s| > 0 && s[0] != MINUS
  {
    PowerFraction(p);
    FractionText(Shift(1, p), whole, p);
    WholeRead(whole);
    OneRead();
    PartsRead(Reversed(LowUnsigned(Shift(1, p), whole, p)), Reversed(LowDigits(whole)), [ZERO + 1], p);
  }

  lemma OddBelowTen(n: int, t: int)
    requires n + 1 == 10 * t
    ensures n % 2 == 1
  {
    assert n == 2 * (5 * t - 1) + 1;
  }

  lemma LostCarryRounded(value: real, p: nat)
    requires CarryLost(value, p)
    ensures Rounded(value, p) == (Shift(1, p), Whole(value))
  {
    assert Shift(1, p) == 10 * Shift(1, p - 1);
    hide Shift, Remainder, Kept;
    OddBelowTen(Kept(value, p), Shift(1, p - 1));
  }

  /** With a lost carry it denotes the whole part and one tenth. */
  lemma LostCarryRead(value: real, prec: int)
    requires CarryLost(value, ClampPrec(prec))
    ensures var p := ClampPrec(prec);
      DenotedUnits(Text(value, prec), p) == Signed(value, Shift(Whole(value), p) + Shift(1, p - 1))
  {
    var p := ClampPrec(prec);
    LostCarryRounded(value, p);
    PowerFractionRead(Whole(value), p);
    SignRead(value, LowUnsigned(Shift(1, p), Whole(value), p), p);
  }

  lemma UnitsNearest(value: real, prec: int)
    ensures var p := ClampPrec(prec);
      Units(value, prec) as real - 0.5 <= ShiftReal(Abs(value), p) <= Units(value, prec) as real + 0.5
  {
    var p := ClampPrec(prec);
    var whole := Whole(value);
    ShiftRealSplit(whole, Abs(value) - whole as real, p);
    ShiftSum(whole, 1, p);
  }

  /** The text denotes a multiple of 10^-p that is nearest to the value. */
  predicate Nearest(value: real, prec: int) {
    var p := ClampPrec(prec);
    var units := DenotedUnits(Text(value, prec), p) as real;
    units - 0.5 <= ShiftReal(value, p) <= units + 0.5
  }

  lemma {:induction false} ShiftRealNegative(x: real, k: nat)
    ensures ShiftReal(-x, k) == -ShiftReal(x, k)
    decreases k
  {
    if k > 0 {
      ShiftRealNegative(x, k - 1);
    }
  }

  /**
   * The text denotes a nearest multiple of 10^-p exactly when the discarded remainder is not one half
   * just below the next whole number.
   */
  lemma TextNearest(value: real, prec: int)
    ensures Nearest(value, prec) <==> !CarryLost(value, ClampPrec(prec))
  {
    var p := ClampPrec(prec);
    ShiftRealNegative(value, p);
    if CarryLost(value, p) {
      LostCarryRead(value, prec);
      ShiftRealSplit(Whole(value), Abs(value) - Whole(value) as real, p);
      ShiftAtLeast(1, p - 1);
    } else {
      TextRead(value, prec);
      UnitsNearest(value, prec);
    }
  }

  lemma EvenTen(m: nat)
    ensures (10 * m) % 2 == 0
  {
  }

  lemma ShiftEven(n: nat, p: nat)
    requires p > 0
    ensures Shift(n, p) % 2 == 0
  {
    var m := Shift(n, p - 1);
    assert Shift(n, p) == 10 * m;
    EvenTen(m);
  }

  /** The digits that are kept of a value that lies half way between two multiples of 10^-p. */
  lemma TieParts(value: real, p: nat, n: nat)
    requires ShiftReal(Abs(value), p) == n as real + 0.5
    ensures Remainder(value, p) == 0.5 && n == Shift(Whole(value), p) + Kept(value, p)
  {
    var whole := Whole(value);
    ShiftRealSplit(whole, Abs(value) - whole as real, p);
    var x := Scaled(value, p);
    assert x == (n - Shift(whole, p)) as real + 0.5;
  }

  /**
   * Ties: half way between n and n + 1 units of 10^-p, an odd n is rounded up and an even n down, except that a whole
   * number and a half unit is rounded up; half a unit below a whole number the carry is lost.
   */
  lemma TieRead(value: real, prec: int, n: nat)
    requires 0 < prec <= 9 && ShiftReal(Abs(value), prec) == n as real + 0.5
    ensures CarryLost(value, prec) <==> n + 1 == Shift(Abs(value).Floor + 1, prec)
    ensures n + 1 != Shift(Abs(value).Floor + 1, prec) ==>
      DenotedUnits(Text(value, prec), prec)
        == Signed(value, if n % 2 == 1 || n == Shift(Abs(value).Floor, prec) then n + 1 else n)
  {
    hide *;
    TieUnits(value, prec, n);
    PlacesKept(prec);
    if !CarryLost(value, prec) {
      TextRead(value, prec);
    }
  }

  lemma PlacesKept(prec: int)
    requires 0 <= prec <= 9
    ensures ClampPrec(prec) == prec
  {
  }

  lemma TieUnits(value: real, prec: int, n: nat)
    requires 0 < prec <= 9 && ShiftReal(Abs(value), prec) == n as real + 0.5
    ensures CarryLost(value, prec) <==> n + 1 == Shift(Abs(value).Floor + 1, prec)
    ensures n + 1 != Shift(Abs(value).Floor + 1, prec) ==>
      Units(value, prec) == if n % 2 == 1 || n == Shift(Abs(value).Floor, prec) then n + 1 else n
  {
    hide ShiftReal, Scaled, Kept, Remainder, Shift;
    TieParts(value, prec, n);
    ShiftEven(Whole(value), prec);
    ShiftSum(Whole(value), 1, prec);
  }

  /** Beyond 0 to 9 decimal places the nearest of these numbers of places is taken. */
  lemma PlacesClamped(value: real, prec: int)
    ensures prec < 0 ==> Text(value, prec) == Text(value, 0)
    ensures prec > 9 ==> Text(value, prec) == Text(value, 9)
  {
  }

  /** Without decimal places a tie is rounded to the even number. */
  lemma WholeTieRead(value: real, n: nat)
    requires Abs(value) == n as real + 0.5
    ensures DenotedUnits(Text(value, 0), 0) == Signed(value, if n % 2 == 1 then n + 1 else n)
  {
    assert ShiftReal(Abs(value), 0) == Abs(value) && Abs(value).Floor == n;
    TextRead(value, 0);
  }

  lemma LosesCarry(value: real, p: nat)
    requires 0.0 <= value < 1.0 && p > 0 && ShiftReal(value, p) == Shift(1, p) as real - 0.5
    ensures CarryLost(value, p) && Whole(value) == 0 && Signed(value, Shift(1, p - 1)) == Shift(1, p - 1)
  {
    assert Abs(value) == value && value.Floor == 0;
    hide Shift, ShiftReal;
    assert (Shift(1, p) as real - 0.5).Floor == Shift(1, p) - 1;
  }

  /** A value below 1 that is half a unit less loses its carry. */
  lemma TieLost(value: real, p: nat)
    requires 0.0 <= value < 1.0 && 0 < p <= 9 && ShiftReal(value, p) == Shift(1, p) as real - 0.5
    ensures CarryLost(value, p) && !Nearest(value, p) && DenotedUnits(Text(value, p), p) == Shift(1, p - 1)
  {
    LosesCarry(value, p);
    assert ClampPrec(p) == p;
    ShiftZero(p);
    TextNearest(value, p);
    LostCarryRead(value, p);
  }

  lemma TieShifted(value: real, prec: int)
    requires (value == 0.95 && prec == 1) || (value == 0.9999995 && prec == 6)
    ensures ShiftReal(value, prec) == Shift(1, prec) as real - 0.5
  {
    if prec == 1 {
      assert ShiftReal(value, 1) == 10.0 * ShiftReal(value, 0) && Shift(1, 0) == 1;
    } else {
      assert ShiftReal(value, 3) == 999.9995 && Shift(1, 3) == 1000;
      assert ShiftReal(value, 6) == 999999.5 && Shift(1, 6) == 1_000_000;
    }
  }

  /**
   * The carry is lost for 0.95 with one place, which is written as 0.1, and with the six places of the writer
   * for 0.9999995.
   */
  lemma CarryLostAt(value: real, prec: int)
    requires (value == 0.95 && prec == 1) || (value == 0.9999995 && prec == 6)
    ensures CarryLost(value, prec) && !Nearest(value, prec)
      && DenotedUnits(Text(value, prec), prec) == Shift(1, prec - 1)
  {
    TieShifted(value, prec);
    hide *;
    TieLost(value, prec);
  }
}
