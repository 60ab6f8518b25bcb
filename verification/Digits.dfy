/** The number formatters of the JSON writer: digits are produced backwards into a buffer and reversed in place. */
module Digits {
  import opened Ascii

  const ZERO: Byte := 48
  const TWO_32 := 0x1_0000_0000

  /** A number as a 32-bit integer in two's complement; negating the smallest one wraps around. */
  function Wrap(x: int): int {
    (x - INT_MIN) % TWO_32 + INT_MIN
  }

  function Reversed(s: Bytes): (r: Bytes)
    ensures |r| == |s|
  {
    if s == [] then [] else Reversed(s[1..]) + [s[0]]
  }

  /** Decimal digits, least significant first: what the loops produce. */
  function LowDigits(n: nat): (r: Bytes)
    ensures |r| > 0
  {
    [ZERO + n % 10] + if n < 10 then [] else LowDigits(n / 10)
  }

  /** Decimal digits as they are read. */
  function Decimal(v: int): Bytes {
    if v < 0 then Reversed(LowDigits(-v) + [MINUS]) else Reversed(LowDigits(v))
  }

  /** The number that digits in reading order denote. */
  function ReadDigits(s: Bytes): int {
    if s == [] then 0 else 10 * ReadDigits(s[..|s| - 1]) + (s[|s| - 1] - ZERO)
  }

  function ReadDecimal(s: Bytes): int {
    if |s| > 0 && s[0] == MINUS then -ReadDigits(s[1..]) else ReadDigits(s)
  }

  lemma {:induction false} ReversedJoin(a: Bytes, b: Bytes)
    ensures Reversed(a + b) == Reversed(b) + Reversed(a)
    decreases |a|
  {
    if a == [] {
      assert a + b == b;
    } else {
      assert (a + b)[1..] == a[1..] + b;
      ReversedJoin(a[1..], b);
    }
  }

  lemma {:induction false} ReversedAt(s: Bytes, k: nat)
    requires k < |s|
    ensures Reversed(s)[k] == s[|s| - 1 - k]
    decreases |s|
  {
    if k < |s| - 1 {
      ReversedAt(s[1..], k);
    }
  }

  /** All bytes are decimal digits. */
  predicate AllDigits(s: Bytes) {
    forall i :: 0 <= i < |s| ==> IsDigit(s[i])
  }

  lemma {:induction false} LowDigitsRead(n: nat)
    ensures AllDigits(LowDigits(n)) && ReadDigits(Reversed(LowDigits(n))) == n
    decreases n
  {
    hide LowDigits, AllDigits, ReadDigits, Reversed;
    LowDigitsStep(n);
    if n >= 10 {
      LowDigitsRead(n / 10);
      DigitInFront(n % 10, LowDigits(n / 10));
    } else {
      NoDigits();
      DigitInFront(n, []);
    }
  }

  lemma LowDigitsStep(n: nat)
    ensures LowDigits(n) == if n >= 10 then [ZERO + n % 10] + LowDigits(n / 10) else [ZERO + n] + []
    ensures n == 10 * (n / 10) + n % 10
  {
  }

  lemma NoDigits()
    ensures AllDigits([]) && ReadDigits(Reversed([])) == 0
  {
  }

  lemma DigitInFront(d: nat, low: Bytes)
    requires d < 10 && AllDigits(low)
    ensures AllDigits([ZERO + d] + low)
    ensures ReadDigits(Reversed([ZERO + d] + low)) == 10 * ReadDigits(Reversed(low)) + d
  {
    var s := [ZERO + d] + low;
    assert s[1..] == low;
    assert (Reversed(low) + [ZERO + d])[..|low|] == Reversed(low);
  }

  /** Reading back what the integer formatter writes gives the number. */
  lemma DecimalRead(v: int)
    ensures ReadDecimal(Decimal(v)) == v
  {
    var low := LowDigits(if v < 0 then -v else v);
    LowDigitsRead(if v < 0 then -v else v);
    if v < 0 {
      ReversedJoin(low, [MINUS]);
      assert Decimal(v) == [MINUS] + Reversed(low);
      assert Decimal(v)[1..] == Reversed(low);
    } else {
      ReversedAt(low, 0);
    }
  }

  /** n times 10^k, digit by digit. */
  function Shift(n: int, k: nat): (r: int)
    ensures n >= 0 ==> r >= 0
  {
    if k == 0 then n else 10 * Shift(n, k - 1)
  }

  predicate NumberByte(b: Byte) {
    IsDigit(b) || b == MINUS || b == POINT
  }

  /** Only digits, signs and points. */
  predicate NumberBytes(s: Bytes) {
    forall i :: 0 <= i < |s| ==> NumberByte(s[i])
  }

  lemma ReversedNumber(s: Bytes)
    requires NumberBytes(s)
    ensures NumberBytes(Reversed(s))
  {
    forall k | 0 <= k < |s| ensures NumberByte(Reversed(s)[k]) {
      ReversedAt(s, k);
    }
  }

  lemma DecimalBytes(v: int)
    ensures NumberBytes(Decimal(v)) && |Decimal(v)| > 0
  {
    LowDigitsRead(if v < 0 then -v else v);
    ReversedNumber(if v < 0 then LowDigits(-v) + [MINUS] else LowDigits(v));
  }

  lemma {:induction false} LowDigitsLength(n: nat, k: nat)
    requires k > 0 && n < Shift(1, k)
    ensures |LowDigits(n)| <= k
    decreases k
  {
    if n >= 10 {
      LowDigitsLength(n / 10, k - 1);
    }
  }

  lemma DecimalLength(v: int)
    requires INT_MIN <= v <= INT_MAX
    ensures |Decimal(v)| <= 11
  {
    TenDigits();
    LowDigitsLength(if v < 0 then -v else v, 10);
  }

  /** The part of a text from `begin` to `end` is mirrored but for what is still to be swapped between `i` and `j`. */
  ghost predicate Swapped(now: Bytes, was: Bytes, begin: nat, i: nat, j: int, end: int) {
    && |now| == |was| && begin <= i <= j + 1 && j <= end < |was| && i - begin == end - j
    && (forall k :: 0 <= k < begin || i <= k <= j || end < k < |was| ==> now[k] == was[k])
    && (forall k :: begin <= k < i || j < k <= end ==> now[k] == was[begin + end - k])
  }

  lemma Swap(now: Bytes, was: Bytes, begin: nat, i: nat, j: int, end: int)
    requires Swapped(now, was, begin, i, j, end) && i < j
    ensures Swapped(now[i := now[j]][j := now[i]], was, begin, i + 1, j - 1, end)
  {
  }

  /** When nothing is left to swap. */
  lemma Mirrored(now: Bytes, was: Bytes, begin: nat, i: nat, j: int, end: int)
    requires Swapped(now, was, begin, i, j, end) && j <= i
    ensures |now| == |was| && begin <= end + 1 <= |was|
    ensures now[..begin] == was[..begin] && now[end + 1..] == was[end + 1..]
    ensures now[begin..end + 1] == Reversed(was[begin..end + 1])
  {
    var part := was[begin..end + 1];
    forall k | 0 <= k < end + 1 - begin
      ensures now[begin..end + 1][k] == Reversed(part)[k]
    {
      ReversedAt(part, k);
      assert now[begin + k] == was[begin + end - (begin + k)];
    }
  }

  /** strreverse on the part of `a` from `begin` to `end`, both included. */
  method StrReverse(a: array<Byte>, begin: nat, end: int)
    requires begin <= end + 1 <= a.Length
    modifies a
    ensures a[..begin] == old(a[..begin]) && a[end + 1..] == old(a[end + 1..])
    ensures a[begin..end + 1] == Reversed(old(a[begin..end + 1]))
  {
    ghost var was := a[..];
    var i, j := begin, end;
    while j > i
      invariant begin <= i <= j + 1 && j <= end && Swapped(a[..], was, begin, i, j, end)
    {
      hide Swapped;
      ghost var now := a[..];
      Swap(now, was, begin, i, j, end);
      a[i], a[j] := a[j], a[i];
      assert a[..] == now[i := now[j]][j := now[i]];
      i, j := i + 1, j - 1;
    }
    hide Reversed, Swapped;
    Mirrored(a[..], was, begin, i, j, end);
    assert a[begin..end + 1] == a[..][begin..end + 1] && was[begin..end + 1] == old(a[begin..end + 1]);
  }

  /** The digits that the loop has still to write when it has written the last one of `rest`. */
  function Pending(rest: nat): Bytes {
    if rest < 10 then [] else LowDigits(rest / 10)
  }

  lemma PendingStep(rest: nat)
    requires rest >= 10
    ensures Pending(rest) == [ZERO + rest / 10 % 10] + Pending(rest / 10)
  {
  }

  lemma PendingLast(rest: nat)
    requires rest < 10
    ensures Pending(rest) == []
  {
  }

  lemma PendingFirst(n: nat)
    ensures LowDigits(n) == [ZERO + n % 10] + Pending(n)
  {
  }

  /** The digit loop shared by the formatters: writes `n` backwards from `at`. */
  method PutLowDigits(n: nat, a: array<Byte>, at: nat) returns (end: nat)
    requires at + |LowDigits(n)| <= a.Length
    modifies a
    ensures end == at + |LowDigits(n)|
    ensures a[..at] == old(a[..at]) && a[at..end] == LowDigits(n) && a[end..] == old(a[end..])
  {
    var rest := n;
    PendingFirst(n);
    hide LowDigits, Pending;
    a[at] := ZERO + rest % 10;
    end := at + 1;
    ghost var done := [ZERO + rest % 10];
    while rest >= 10
      invariant end == at + |done| && end + |Pending(rest)| <= a.Length
      invariant done + Pending(rest) == LowDigits(n)
      invariant a[at..end] == done
      invariant a[..at] == old(a[..at]) && a[end..] == old(a[end..])
      decreases rest
    {
      PendingStep(rest);
      rest := rest / 10;
      a[end] := ZERO + rest % 10;
      end := end + 1;
      assert done + ([ZERO + rest % 10] + Pending(rest)) == done + [ZERO + rest % 10] + Pending(rest);
      done := done + [ZERO + rest % 10];
      assert a[at..end] == a[at..end - 1] + [a[end - 1]];
    }
    PendingLast(rest);
  }

  lemma TenDigits()
    ensures Shift(1, 10) == 10_000_000_000
  {
    assert Shift(1, 5) == 100_000;
  }

  /** modp_itoa10: the buffer starts with the decimal text of `value` and a terminator. */
  method Itoa10(value: int, str: array<Byte>) returns (n: nat)
    requires INT_MIN <= value <= INT_MAX && str.Length >= 16
    modifies str
    ensures n == |Decimal(value)| < str.Length
    ensures str[..n] == Decimal(value) && str[n] == NUL
  {
    var uvalue := (if value < 0 then Wrap(-value) else value) % TWO_32;
    assert uvalue == if value < 0 then -value else value;
    TenDigits();
    LowDigitsLength(uvalue, 10);
    n := PutLowDigits(uvalue, str, 0);
    if value < 0 {
      str[n] := MINUS;
      n := n + 1;
    }
    str[n] := NUL;
    ghost var all := str[..n];
    assert all == if value < 0 then LowDigits(-value) + [MINUS] else LowDigits(value);
    StrReverse(str, 0, n - 1);
    assert str[..n] == str[0..n - 1 + 1];
  }
}
