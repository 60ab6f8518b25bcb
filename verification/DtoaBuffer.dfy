/** The decimal formatter as it runs, writing into a character buffer. */
module DtoaBuffer {
  import opened Ascii
  import opened Digits
  import opened Dtoa

  /** The table of powers of ten. */
  const POWERS: seq<real> :=
    [1.0, 10.0, 100.0, 1000.0, 10000.0, 100000.0, 1000000.0, 10000000.0, 100000000.0, 1000000000.0]

  lemma PowersShift(x: real, p: nat)
    requires p <= 9
    ensures x * POWERS[p] == ShiftReal(x, p) && POWERS[p] == Shift(1, p) as real
  {
    if p > 0 {
      PowersShift(x, p - 1);
      assert POWERS[p] == 10.0 * POWERS[p - 1];
    }
  }

  lemma LowFractionLength(frac: nat, p: nat)
    requires 0 < frac <= 1_000_000_000 && p <= 9
    ensures |LowFraction(frac, p)| <= 10
  {
    var (f, count) := Trim(frac, p);
    ShiftAtLeast(f, p - count);
    TenDigits();
    LowDigitsLength(f, 10);
  }

  lemma DigitsAreNumber(s: Bytes)
    requires AllDigits(s)
    ensures NumberBytes(s)
  {
  }

  lemma NumberJoin(a: Bytes, b: Bytes)
    requires NumberBytes(a) && NumberBytes(b)
    ensures NumberBytes(a + b)
  {
  }

  lemma PaddedBytes(f: nat, n: int)
    ensures NumberBytes(LowDigits(f) + Zeros(n))
  {
    LowDigitsRead(f);
    ZerosRead(n);
    DigitsAreNumber(LowDigits(f));
    DigitsAreNumber(Zeros(n));
    NumberJoin(LowDigits(f), Zeros(n));
  }

  lemma FractionBytes(frac: nat, p: nat)
    requires frac > 0
    ensures NumberBytes(LowFraction(frac, p))
  {
    var r := Trim(frac, p);
    PaddedBytes(r.0, r.1 - |LowDigits(r.0)|);
  }

  lemma PointedBytes(fraction: Bytes, whole: Bytes, all: Bytes)
    requires NumberBytes(fraction) && NumberBytes(whole) && all == fraction + [POINT] + whole
    ensures NumberBytes(all)
  {
  }

  lemma UnsignedBytes(frac: nat, whole: nat, p: nat)
    ensures NumberBytes(LowUnsigned(frac, whole, p)) && |LowUnsigned(frac, whole, p)| > 0
  {
    LowDigitsRead(whole);
    DigitsAreNumber(LowDigits(whole));
    var all := LowUnsigned(frac, whole, p);
    if frac > 0 {
      FractionBytes(frac, p);
      PointedBytes(LowFraction(frac, p), LowDigits(whole), all);
    }
  }

  /** The formatter writes digits, a sign and a point, and nothing else. */
  lemma TextBytes(value: real, prec: int)
    ensures NumberBytes(Text(value, prec)) && |Text(value, prec)| > 0
  {
    var p := ClampPrec(prec);
    var (frac, whole) := Rounded(value, p);
    UnsignedBytes(frac, whole, p);
    UnsignedBytes(0, RoundedWhole(value, whole), 0);
    ReversedNumber(LowText(value, prec));
  }

  /** The fraction digits and the point: the loops over `frac` in modp_dtoa2. */
  method PutFraction(frac: nat, p: nat, str: array<Byte>) returns (n: nat)
    requires 0 < frac <= 1_000_000_000 && p <= 9 && str.Length >= 32
    modifies str
    ensures n <= 11 && str[..n] == LowFraction(frac, p) + [POINT]
  {
    LowFractionLength(frac, p);
    var f, count: int := frac, p;
    while f % 10 == 0
      invariant f > 0 && Trim(f, count) == Trim(frac, p)
      decreases f
    {
      count := count - 1;
      f := f / 10;
    }
    ghost var low := LowDigits(f);
    assert LowFraction(frac, p) == low + Zeros(count - |low|);
    n := PutLowDigits(f, str, 0);
    count := count - n;
    n := PutZeros(count, str, n);
    str[n] := POINT;
    n := n + 1;
  }

  /** The loop that pads the fraction: `count` zeros from `at` on. */
  method PutZeros(count: int, str: array<Byte>, at: nat) returns (n: nat)
    requires at + |Zeros(count)| <= str.Length
    modifies str
    ensures n == at + |Zeros(count)| && str[..n] == old(str[..at]) + Zeros(count)
  {
    var left := count;
    n := at;
    ghost var done := [];
    while left > 0
      invariant n == at + |done| && n + |Zeros(left)| == at + |Zeros(count)|
      invariant done + Zeros(left) == Zeros(count)
      invariant str[..n] == old(str[..at]) + done
      decreases left
    {
      assert done + ([ZERO] + Zeros(left - 1)) == done + [ZERO] + Zeros(left - 1);
      str[n] := ZERO;
      n := n + 1;
      left := left - 1;
      done := done + [ZERO];
    }
    assert done + [] == done;
  }

  /** Writes the whole part and the sign behind what is there, terminates the text and reverses it. */
  method Finish(whole: nat, neg: bool, str: array<Byte>, at: nat) returns (n: nat)
    requires whole <= INT_MAX + 1 && at <= 11 && str.Length >= 32
    modifies str
    ensures n < str.Length && str[n] == NUL
    ensures str[..n] == Reversed(old(str[..at]) + LowDigits(whole) + if neg then [MINUS] else [])
  {
    TenDigits();
    LowDigitsLength(whole, 10);
    n := PutLowDigits(whole, str, at);
    assert str[..n] == str[..at] + str[at..n];
    if neg {
      str[n] := MINUS;
      n := n + 1;
    }
    str[n] := NUL;
    ghost var all := str[..n];
    assert all == old(str[..at]) + LowDigits(whole) + if neg then [MINUS] else [];
    StrReverse(str, 0, n - 1);
    assert str[..n] == str[0..n - 1 + 1];
  }

  /** The first rounding in modp_dtoa2: the kept fraction digits and the whole part of `v`. */
  method RoundFraction(v: real, p: nat) returns (frac: nat, whole: nat)
    requires 0.0 <= v && p <= 9
    ensures (frac, whole) == Rounded(v, p)
  {
    whole := v.Floor;
    PowersShift(v - whole as real, p);
    var tmp := (v - whole as real) * POWERS[p];
    assert tmp == Scaled(v, p);
    frac := tmp.Floor;
    var diff := tmp - frac as real;
    if diff > 0.5 {
      frac := frac + 1;
      if frac as real >= POWERS[p] {
        frac := 0;
        whole := whole + 1;
      }
    } else if diff == 0.5 && (frac == 0 || frac % 2 == 1) {
      frac := frac + 1;
    }
  }

  /** The second rounding, when no fraction digits are wanted. */
  method RoundWhole(v: real, whole: nat) returns (r: nat)
    requires 0.0 <= v
    ensures r == RoundedWhole(v, whole)
  {
    r := whole;
    var diff := v - whole as real;
    if diff > 0.5 {
      r := whole + 1;
    } else if diff == 0.5 && whole % 2 == 1 {
      r := whole + 1;
    }
  }

  /** Rounding looks at the absolute value only. */
  lemma SignlessRounding(value: real, p: nat, whole: nat)
    ensures Rounded(value, p) == Rounded(Abs(value), p) && RoundedWhole(value, whole) == RoundedWhole(Abs(value), whole)
  {
  }

  lemma RoundedBounds(v: real, p: nat)
    requires 0.0 <= v <= INT_MAX as real && p <= 9
    ensures Rounded(v, p).0 <= 1_000_000_000 && Rounded(v, p).1 <= INT_MAX
    ensures RoundedWhole(v, Rounded(v, p).1) <= INT_MAX + 1
  {
    PowersShift(1.0, p);
    if Whole(v) == INT_MAX {
      assert v - Whole(v) as real == 0.0;
      ShiftRealSplit(0, 0.0, p);
      ShiftRealZero(p);
    }
  }

  lemma {:induction false} ShiftRealZero(p: nat)
    ensures ShiftReal(0.0, p) == 0.0
    decreases p
  {
    if p > 0 {
      ShiftRealZero(p - 1);
    }
  }

  /** sprintf with a text that is known already. */
  method Sprintf(str: array<Byte>, text: CString) returns (n: nat)
    requires |text| < str.Length
    modifies str
    ensures n == |text| && str[..n] == text && str[n] == NUL
  {
    n := 0;
    while n < |text|
      invariant n <= |text| && str[..n] == text[..n]
    {
      str[n] := text[n];
      n := n + 1;
    }
    str[n] := NUL;
  }

  /** In the range of an int the text has at most 22 bytes. */
  lemma TextLength(value: real, prec: int)
    requires Abs(value) <= INT_MAX as real
    ensures |Text(value, prec)| <= 22
  {
    var p := ClampPrec(prec);
    var (frac, whole) := Rounded(value, p);
    SignlessRounding(value, p, whole);
    RoundedBounds(Abs(value), p);
    TenDigits();
    LowDigitsLength(whole, 10);
    LowDigitsLength(RoundedWhole(value, whole), 10);
    if p > 0 && frac > 0 {
      LowFractionLength(frac, p);
    }
  }

  lemma NothingBefore(a: Bytes, b: Bytes)
    requires a == []
    ensures a + b == b
  {
  }

  /** What is written for a value: beyond the range of an int it is left to sprintf, which writes `exponential`. */
  function NumberText(value: real, prec: int, exponential: CString): Bytes {
    if -2_147_483_647.0 <= value <= 2_147_483_647.0 then Text(value, prec) else exponential
  }

  /** modp_dtoa2: the buffer starts with the text and a terminator. */
  method Dtoa2(value: real, str: array<Byte>, prec: int, exponential: CString) returns (n: nat)
    requires str.Length >= 32 && |exponential| < 32
    modifies str
    ensures n == |NumberText(value, prec, exponential)| < str.Length
    ensures str[..n] == NumberText(value, prec, exponential) && str[n] == NUL
    ensures str[..n] == if -2_147_483_647.0 <= value <= 2_147_483_647.0 then Text(value, prec) else exponential
  {
    var p := if prec < 0 then 0 else if prec > 9 then 9 else prec;
    var neg := value < 0.0;
    var v := if neg then -value else value;
    var frac, whole := RoundFraction(v, p);
    if v > INT_MAX as real {
      n := Sprintf(str, exponential);
      return;
    }
    RoundedBounds(v, p);
    SignlessRounding(value, p, whole);
    n := 0;
    if p == 0 {
      whole := RoundWhole(v, whole);
    } else if frac != 0 {
      n := PutFraction(frac, p, str);
    }
    if p == 0 || frac == 0 {
      NothingBefore(str[..n], LowDigits(whole));
    }
    assert str[..n] + LowDigits(whole) == LowUnsigned(if p == 0 then 0 else frac, whole, p);
    n := Finish(whole, neg, str, n);
  }
}
