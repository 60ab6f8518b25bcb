/** Every way in which section 7 of RFC 8259 lets a string be written, and that cJSON reads all of them. */
module CJsonSpelling {
  import opened Ascii
  import opened CJsonItem
  import opened CJsonStandard
  import J = JsonText

  /** A hexadecimal digit of either case for a number below sixteen. */
  predicate HexOf(b: Byte, d: nat) {
    (d < 10 && b == '0' as int + d) || (10 <= d < 16 && (b == 'A' as int + d - 10 || b == 'a' as int + d - 10))
  }

  /** Backslash, u and the four hexadecimal digits of a UTF-16 code unit. */
  predicate UnitOf(raw: Bytes, u: nat) {
    && |raw| == 6 && raw[0] == '\\' as int && raw[1] == 'u' as int
    && HexOf(raw[2], u / 0x1000) && HexOf(raw[3], u / 0x100 % 0x10) && HexOf(raw[4], u / 0x10 % 0x10)
    && HexOf(raw[5], u % 0x10)
  }

  /** The letters that may follow a backslash, and the characters that they stand for. */
  predicate LetterOf(letter: int, cp: int) {
    || (letter == cp == '\"' as int) || (letter == cp == '\\' as int) || (letter == cp == '/' as int)
    || (letter == 'b' as int && cp == 0x08) || (letter == 'f' as int && cp == 0x0C)
    || (letter == 'n' as int && cp == 0x0A) || (letter == 'r' as int && cp == 0x0D)
    || (letter == 't' as int && cp == 0x09)
  }

  /**
   * One way to write a code point in a string: its UTF-8 bytes, a backslash and a letter, an escaped code unit, or the
   * two escaped code units that section 2.2 of RFC 2781 gives for it. Bare control characters are included here.
   */
  predicate Spells(raw: Bytes, cp: nat) {
    && IsScalar(cp)
    && (|| (raw == Utf8(cp) && cp != 0 && cp != '\"' as int && cp != '\\' as int)
        || (|raw| == 2 && raw[0] == '\\' as int && LetterOf(raw[1], cp))
        || (cp < 0x1_0000 && UnitOf(raw, cp))
        || (cp >= 0x1_0000 && |raw| == 12
            && UnitOf(raw[..6], 0xD800 + (cp - 0x1_0000) / 0x400)
            && UnitOf(raw[6..], 0xDC00 + (cp - 0x1_0000) % 0x400)))
  }

  /** A string body that writes the code points one after the other. */
  predicate Writes(raws: seq<Bytes>, cps: seq<nat>) {
    |raws| == |cps| && forall i :: 0 <= i < |raws| ==> Spells(raws[i], cps[i])
  }

  function Joined(raws: seq<Bytes>): Bytes {
    if raws == [] then [] else raws[0] + Joined(raws[1..])
  }

  /** A text in UTF-8. */
  function Utf8All(cps: seq<nat>): Bytes
    requires forall i :: 0 <= i < |cps| ==> IsScalar(cps[i])
  {
    if cps == [] then []
    else
      assert IsScalar(cps[0]);
      Utf8(cps[0]) + Utf8All(cps[1..])
  }

  lemma HexRead(b: Byte, d: nat)
    requires HexOf(b, d)
    ensures IsHex(b) && HexValue(b) == d
  {
  }

  lemma Places(u: nat)
    requires u < 0x1_0000
    ensures u == 0x1000 * (u / 0x1000) + 0x100 * (u / 0x100 % 0x10) + 0x10 * (u / 0x10 % 0x10) + u % 0x10
  {
    assert u / 0x1000 == u / 0x100 / 0x10 && u / 0x100 == u / 0x10 / 0x10;
  }

  /** An escaped code unit is read as that code unit. */
  lemma UnitRead(raw: Bytes, u: nat, rest: Bytes)
    requires UnitOf(raw, u) && u < 0x1_0000 && J.BodyOk(rest)
    ensures J.BodyOk(raw + rest) && |raw| == 6 && (raw + rest)[6..] == rest && (raw + rest)[0] == BACKSLASH
    ensures (raw + rest)[1] == LOWER_U && (forall i :: 2 <= i < 6 ==> IsHex((raw + rest)[i])) && Unit(raw + rest) == u
  {
    var all := raw + rest;
    HexRead(raw[2], u / 0x1000);
    HexRead(raw[3], u / 0x100 % 0x10);
    HexRead(raw[4], u / 0x10 % 0x10);
    HexRead(raw[5], u % 0x10);
    Places(u);
    assert all[6..] == rest;
    assert forall i :: 0 <= i < 6 ==> all[i] == raw[i];
  }

  lemma PairRead(raw: Bytes, cp: nat, rest: Bytes)
    requires 0x1_0000 <= cp < 0x11_0000 && |raw| == 12 && J.BodyOk(rest)
    requires UnitOf(raw[..6], 0xD800 + (cp - 0x1_0000) / 0x400) && UnitOf(raw[6..], 0xDC00 + (cp - 0x1_0000) % 0x400)
    ensures J.BodyOk(raw + rest) && Said(raw + rest) == Led(Utf8(cp), Said(rest))
  {
    hide UnitOf, Utf8, J.BodyOk;
    var high, low := 0xD800 + (cp - 0x1_0000) / 0x400, 0xDC00 + (cp - 0x1_0000) % 0x400;
    UnitRead(raw[6..], low, rest);
    UnitRead(raw[..6], high, raw[6..] + rest);
    assert raw + rest == raw[..6] + (raw[6..] + rest);
    assert SurrogatePair(high, low) == cp;
  }

  lemma LetterRead(raw: Bytes, cp: nat, rest: Bytes)
    requires |raw| == 2 && raw[0] == '\\' as int && LetterOf(raw[1], cp) && J.BodyOk(rest)
    ensures J.BodyOk(raw + rest) && Said(raw + rest) == Led(Utf8(cp), Said(rest))
  {
    assert (raw + rest)[2..] == rest && (raw + rest)[0] == raw[0] && (raw + rest)[1] == raw[1];
  }

  lemma BareStep(b: Byte, rest: Bytes)
    requires b != QUOTE && b != BACKSLASH && b != NUL && J.BodyOk(rest)
    ensures J.BodyOk([b] + rest) && Said([b] + rest) == Led([b], Said(rest))
  {
    assert ([b] + rest)[1..] == rest;
  }

  lemma LedTwice(a: Bytes, b: Bytes, rest: Option<Bytes>)
    ensures Led(a, Led(b, rest)) == Led(a + b, rest)
  {
    if rest.Some? {
      assert a + (b + rest.value) == (a + b) + rest.value;
    }
  }

  /** Bytes other than quote, backslash and NUL stand for themselves. */
  lemma {:induction false} BareRead(raw: Bytes, rest: Bytes)
    requires (forall i :: 0 <= i < |raw| ==> raw[i] != QUOTE && raw[i] != BACKSLASH && raw[i] != NUL) && J.BodyOk(rest)
    ensures J.BodyOk(raw + rest) && Said(raw + rest) == Led(raw, Said(rest))
    decreases |raw|
  {
    hide J.BodyOk, Said;
    if raw == [] {
      assert raw + rest == rest;
      assert Said(rest).Some? ==> [] + Said(rest).value == Said(rest).value;
    } else {
      BareRead(raw[1..], rest);
      BareStep(raw[0], raw[1..] + rest);
      LedTwice([raw[0]], raw[1..], Said(rest));
      assert raw == [raw[0]] + raw[1..] && raw + rest == [raw[0]] + (raw[1..] + rest);
    }
  }

  lemma Utf8Bare(cp: nat)
    requires IsScalar(cp) && cp != 0 && cp != QUOTE && cp != BACKSLASH
    ensures forall i :: 0 <= i < |Utf8(cp)| ==> Utf8(cp)[i] != QUOTE && Utf8(cp)[i] != BACKSLASH && Utf8(cp)[i] != NUL
  {
  }

  /** However a code point is written, its UTF-8 bytes are read. */
  lemma SpellingRead(raw: Bytes, cp: nat, rest: Bytes)
    requires Spells(raw, cp) && J.BodyOk(rest)
    ensures J.BodyOk(raw + rest) && Said(raw + rest) == Led(Utf8(cp), Said(rest))
  {
    hide UnitOf, LetterOf, Utf8, J.BodyOk, Said;
    if raw == Utf8(cp) && cp != 0 && cp != QUOTE && cp != BACKSLASH {
      Utf8Bare(cp);
      BareRead(raw, rest);
    } else if |raw| == 2 && raw[0] == '\\' as int && LetterOf(raw[1], cp) {
      LetterRead(raw, cp, rest);
    } else if cp < 0x1_0000 {
      UnitRead(raw, cp, rest);
      UnitSaid(raw + rest, cp);
    } else {
      PairRead(raw, cp, rest);
    }
  }

  lemma UnitSaid(raw: Bytes, u: nat)
    requires J.BodyOk(raw) && |raw| >= 6 && raw[0] == BACKSLASH && raw[1] == LOWER_U
    requires (forall i :: 2 <= i < 6 ==> IsHex(raw[i])) && Unit(raw) == u && IsScalar(u)
    ensures J.BodyOk(raw[6..]) && Said(raw) == Led(Utf8(u), Said(raw[6..]))
  {
    hide Utf8, Unit;
  }

  lemma {:induction false} WritingRead(raws: seq<Bytes>, cps: seq<nat>)
    requires Writes(raws, cps)
    ensures (forall i :: 0 <= i < |cps| ==> IsScalar(cps[i])) && J.BodyOk(Joined(raws))
    ensures Said(Joined(raws)) == Some(Utf8All(cps))
    decreases |raws|
  {
    hide Spells, Utf8, J.BodyOk, Said;
    if raws == [] {
      NothingSaid();
    } else {
      ScalarOf(raws[0], cps[0]);
      WritingRead(raws[1..], cps[1..]);
      SpellingRead(raws[0], cps[0], Joined(raws[1..]));
    }
  }

  lemma NothingSaid()
    ensures J.BodyOk([]) && Said([]) == Some([])
  {
  }

  lemma ScalarOf(raw: Bytes, cp: nat)
    requires Spells(raw, cp)
    ensures IsScalar(cp)
  {
  }

  /**
   * However the code points of a string are written, every one of them in a way of its own, parse_string reads the
   * UTF-8 text of the code points, up to the first NUL.
   */
  lemma SpelledValue(raws: seq<Bytes>, cps: seq<nat>)
    requires Writes(raws, cps)
    ensures (forall i :: 0 <= i < |cps| ==> IsScalar(cps[i])) && BodyValue(Joined(raws)) == Some(Before(Utf8All(cps)))
  {
    WritingRead(raws, cps);
    BodySaid(Joined(raws));
  }

  /** A surrogate pair for every code point beyond the basic plane. */
  lemma PairValue(cp: nat, raw: Bytes)
    requires 0x1_0000 <= cp < 0x11_0000 && |raw| == 12
    requires UnitOf(raw[..6], 0xD800 + (cp - 0x1_0000) / 0x400) && UnitOf(raw[6..], 0xDC00 + (cp - 0x1_0000) % 0x400)
    ensures BodyValue(raw) == Some(Utf8(cp))
  {
    hide UnitOf, J.BodyOk, Said;
    NothingSaid();
    PairRead(raw, cp, []);
    assert raw + [] == raw && Utf8(cp) + [] == Utf8(cp);
    BodySaid(raw);
    Utf8Bare(cp);
    BeforeAll(Utf8(cp));
  }

  // ----- what print_string_ptr writes -----

  /** An escape with digits of lower case. */
  predicate LowerCase(raw: Bytes) {
    forall i :: 0 <= i < |raw| ==> !('A' as int <= raw[i] <= 'Z' as int)
  }

  /** No bare control character, as section 7 of RFC 8259 demands. */
  predicate Strict(raw: Bytes) {
    |raw| > 0 && raw[0] >= 0x20
  }

  /** Printing chooses the shortest of the strict spellings of a byte. */
  lemma EscapedShortest(b: Byte, raw: Bytes)
    requires 0 < b < 0x80
    ensures Spells(Escaped(b), b) && Strict(Escaped(b)) && (|Escaped(b)| > 1 ==> LowerCase(Escaped(b)))
    ensures Spells(raw, b) && Strict(raw) ==> |Escaped(b)| <= |raw|
  {
    if b < 32 {
      HexOfDigits(b / 16);
      HexOfDigits(b % 16);
    }
  }

  lemma HexOfDigits(d: nat)
    requires d < 16
    ensures |HEX_DIGITS| == 16 && HexOf(HEX_DIGITS[d], d) && !('A' as int <= HEX_DIGITS[d] <= 'Z' as int)
  {
  }

  /** With lower-case digits there is only one such spelling. */
  lemma EscapedOnly(b: Byte, raw: Bytes)
    requires 0 < b < 0x80 && Spells(raw, b) && Strict(raw) && |raw| == |Escaped(b)| && (|raw| > 1 ==> LowerCase(raw))
    ensures raw == Escaped(b)
  {
    hide HEX_DIGITS;
    if |raw| == 6 {
      assert b < 32 && UnitOf(raw, b);
      HexOfDigits(b / 16);
      HexOfDigits(b % 16);
      HexOnly(raw[4], HEX_DIGITS[b / 16], b / 16);
      HexOnly(raw[5], HEX_DIGITS[b % 16], b % 16);
      assert b / 0x1000 == 0 && b / 0x100 % 0x10 == 0 && b / 0x10 % 0x10 == b / 16;
    }
  }

  lemma HexOnly(a: Byte, b: Byte, d: nat)
    requires HexOf(a, d) && HexOf(b, d) && !('A' as int <= a <= 'Z' as int) && !('A' as int <= b <= 'Z' as int)
    ensures a == b
  {
  }

  /** Bytes of 128 and more, which are parts of UTF-8 sequences, are written as they are. */
  lemma EscapedHigh(b: Byte)
    requires b >= 0x80
    ensures Escaped(b) == [b]
  {
  }

  // ----- digits that are none -----

  /** Decoding goes through a body of RFC 8259 whatever follows it. */
  lemma {:induction false} DecodeThrough(c: Bytes, p: nat, raw: Bytes, end: nat)
    requires J.BodyOk(raw) && At(c, p, raw) && p + |raw| <= end < |c| && Said(raw).Some?
    ensures Decode(c, p, end) == Prefixed(Said(raw).value, Decode(c, p + |raw|, end))
    decreases |raw|
  {
    hide Utf8, Unit, Hex4, SurrogatePair, HexValue;
    if raw == [] {
      assert forall r: (Option<Bytes>, nat) {:trigger Prefixed([], r)} :: r.0.Some? ==> [] + r.0.value == r.0.value;
    } else {
      AtIndex(c, p, raw);
      assert c[p + 0] == raw[0];
      if raw[0] != BACKSLASH {
        AtSuffix(c, p, raw, 1);
        DecodeThrough(c, p + 1, raw[1..], end);
        PrefixedTwice([raw[0]], Said(raw[1..]).value, Decode(c, p + |raw|, end));
      } else if raw[1] != LOWER_U {
        assert c[p + 1] == raw[1];
        AtSuffix(c, p, raw, 2);
        DecodeThrough(c, p + 2, raw[2..], end);
        PrefixedTwice([Unescaped(raw[1])], Said(raw[2..]).value, Decode(c, p + |raw|, end));
      } else {
        UnicodeThrough(c, p, raw, end);
      }
    }
  }

  lemma {:induction false} UnicodeThrough(c: Bytes, p: nat, raw: Bytes, end: nat)
    requires J.BodyOk(raw) && At(c, p, raw) && p + |raw| <= end < |c| && Said(raw).Some?
    requires raw != [] && raw[0] == BACKSLASH && raw[1] == LOWER_U
    ensures Decode(c, p, end) == Prefixed(Said(raw).value, Decode(c, p + |raw|, end))
    decreases |raw|, 0
  {
    hide At, Utf8, Unit, Hex4, HexValue;
    HexAt(c, p, raw);
    AtSuffix(c, p, raw, 6);
    var u, next := Unit(raw), raw[6..];
    if !IsHigh(u) {
      DecodeThrough(c, p + 6, next, end);
      PrefixedTwice(Utf8(u), Said(next).value, Decode(c, p + |raw|, end));
    } else {
      AtIndex(c, p + 6, next);
      assert c[p + 6 + 0] == next[0] && c[p + 6 + 1] == next[1];
      HexAt(c, p + 6, next);
      AtSuffix(c, p + 6, next, 6);
      DecodeThrough(c, p + 12, next[6..], end);
      PrefixedTwice(Utf8(SurrogatePair(u, Unit(next))), Said(next[6..]).value, Decode(c, p + |raw|, end));
    }
  }

  lemma PrefixedTwice(a: Bytes, b: Bytes, r: (Option<Bytes>, nat))
    ensures Prefixed(a, Prefixed(b, r)) == Prefixed(a + b, r)
  {
    if r.0.Some? {
      assert a + (b + r.0.value) == (a + b) + r.0.value;
    }
  }

  /**
   * Where the code and RFC 8259 differ: four bytes behind \u that are not all hexadecimal digits are no error; they are
   * read as a NUL, which ends the string.
   */
  lemma BadHexEnds(front: Bytes, digits: Bytes, back: Bytes)
    requires J.BodyOk(front) && J.BodyOk(back) && Said(front).Some? && Said(back).Some?
    requires |digits| == 4 && (exists i :: 0 <= i < 4 && !IsHex(digits[i]))
    requires forall i :: 0 <= i < 4 ==> digits[i] != NUL && digits[i] != QUOTE && digits[i] != BACKSLASH
    ensures BodyValue(front + ([BACKSLASH] + ([LOWER_U] + (digits + back)))) == Some(Before(Said(front).value))
  {
    hide Said, J.BodyOk, Decode, BodyEnd, At;
    var raw := front + ([BACKSLASH] + ([LOWER_U] + (digits + back)));
    var c := raw + [QUOTE];
    var p, end := |front|, |raw|;
    Quoted4(front, [BACKSLASH], [LOWER_U], digits, back);
    AtSelf(c);
    PartsAt(c, front, digits, back);
    CloseAt(c, front, digits, back);
    DecodeThrough(c, 0, front, end);
    BadHexStep(c, p, end, digits);
    DecodeThrough(c, p + 6, back, end);
    DecodeEnd(c, end);
    var rest := Said(back).value + [];
    assert Decode(c, 0, end)
        == Prefixed(Said(front).value, Prefixed([NUL], Prefixed(Said(back).value, (Some([]), end))));
    BeforeNulByte(Said(front).value, rest);
  }

  lemma Quoted4(a: Bytes, b: Bytes, c: Bytes, d: Bytes, e: Bytes)
    ensures a + (b + (c + (d + e))) + [QUOTE] == a + (b + (c + (d + (e + [QUOTE]))))
  {
    assert (d + e) + [QUOTE] == d + (e + [QUOTE]);
    assert (c + (d + e)) + [QUOTE] == c + ((d + e) + [QUOTE]);
    assert (b + (c + (d + e))) + [QUOTE] == b + ((c + (d + e)) + [QUOTE]);
  }

  /** The escape with its four bytes between two bodies, and the closing quote. */
  predicate BadAt(c: Bytes, front: Bytes, digits: Bytes, back: Bytes) {
    var p := |front|;
    && |digits| == 4 && |c| == p + 6 + |back| + 1 && c[|c| - 1] == QUOTE
    && At(c, 0, front) && c[p] == BACKSLASH && c[p + 1] == LOWER_U && At(c, p + 2, digits) && At(c, p + 6, back)
  }

  lemma PartsAt(c: Bytes, front: Bytes, digits: Bytes, back: Bytes)
    requires |digits| == 4 && |c| == |front| + 6 + |back| + 1
    requires At(c, 0, front + ([BACKSLASH] + ([LOWER_U] + (digits + (back + [QUOTE])))))
    ensures BadAt(c, front, digits, back)
  {
    hide At;
    var p, tail := |front|, back + [QUOTE];
    var t2 := digits + tail;
    var t1 := [LOWER_U] + t2;
    AtSplit(c, 0, front, [BACKSLASH] + t1);
    AtHead(c, p, BACKSLASH, t1);
    AtHead(c, p + 1, LOWER_U, t2);
    AtSplit(c, p + 2, digits, tail);
    assert p + 2 + |digits| == p + 6;
    TailAt(c, p + 6, back);
  }

  lemma TailAt(c: Bytes, at: nat, back: Bytes)
    requires At(c, at, back + [QUOTE]) && |c| == at + |back| + 1
    ensures At(c, at, back) && c[|c| - 1] == QUOTE
  {
    AtSplit(c, at, back, [QUOTE]);
    var end := at + |back|;
    assert At(c, end, [QUOTE]);
  }

  lemma CloseAt(c: Bytes, front: Bytes, digits: Bytes, back: Bytes)
    requires BadAt(c, front, digits, back) && J.BodyOk(front) && J.BodyOk(back)
    requires forall i :: 0 <= i < 4 ==> digits[i] != QUOTE && digits[i] != BACKSLASH
    ensures BodyEnd(c, 0) == Some(|c| - 1)
  {
    hide J.BodyOk, At;
    var p := |front|;
    BodyThrough(c, 0, front);
    BodyCloses(c, p + 6, back);
    DigitsAt(c, p + 2, digits);
    hide *;
    OverPlain(c, p + 2);
    OverPlain(c, p + 3);
    OverPlain(c, p + 4);
    OverPlain(c, p + 5);
    OverEscape(c, p);
  }

  lemma DigitsAt(c: Bytes, p: nat, digits: Bytes)
    requires At(c, p, digits) && |digits| == 4
    ensures p + 4 <= |c| && c[p] == digits[0] && c[p + 1] == digits[1] && c[p + 2] == digits[2] && c[p + 3] == digits[3]
  {
    AtIndex(c, p, digits);
    assert c[p + 0] == digits[0] && c[p + 1] == digits[1] && c[p + 2] == digits[2] && c[p + 3] == digits[3];
  }

  lemma OverPlain(c: Bytes, p: nat)
    requires p < |c| && c[p] != QUOTE && c[p] != BACKSLASH
    ensures BodyEnd(c, p) == BodyEnd(c, p + 1)
  {
  }

  lemma OverEscape(c: Bytes, p: nat)
    requires p + 1 < |c| && c[p] == BACKSLASH
    ensures BodyEnd(c, p) == BodyEnd(c, p + 2)
  {
  }

  /** The first pass goes through a body whatever follows it. */
  lemma {:induction false} BodyThrough(c: Bytes, p: nat, raw: Bytes)
    requires J.BodyOk(raw) && At(c, p, raw) && p + |raw| < |c|
    ensures BodyEnd(c, p) == BodyEnd(c, p + |raw|)
    decreases |raw|
  {
    if raw != [] {
      AtIndex(c, p, raw);
      assert c[p + 0] == raw[0];
      if raw[0] != BACKSLASH {
        AtSuffix(c, p, raw, 1);
        BodyThrough(c, p + 1, raw[1..]);
      } else {
        var n := if IsShortEscape(raw[1]) then 2 else 6;
        assert c[p + 1] == raw[1];
        AtSuffix(c, p, raw, n);
        BodyThrough(c, p + n, raw[n..]);
        if n == 6 {
          assert c[p + 2] == raw[2] && c[p + 3] == raw[3] && c[p + 4] == raw[4] && c[p + 5] == raw[5];
          PlainSteps(c, p + 2);
        }
      }
    }
  }

  lemma BadHexStep(c: Bytes, p: nat, end: nat, digits: Bytes)
    requires p + 6 <= end < |c| && c[p] == BACKSLASH && c[p + 1] == LOWER_U && |digits| == 4
    requires At(c, p + 2, digits) && exists i :: 0 <= i < 4 && !IsHex(digits[i])
    ensures Decode(c, p, end) == Prefixed([NUL], Decode(c, p + 6, end))
  {
    hide HexValue, At;
    DigitsAt(c, p + 2, digits);
    assert Hex4(c, p + 2) == 0;
  }

  lemma DecodeEnd(c: Bytes, end: nat)
    requires end < |c|
    ensures Decode(c, end, end) == (Some([]), end)
  {
  }

  lemma {:induction false} BeforeNulByte(a: Bytes, rest: Bytes)
    ensures Before(a + ([NUL] + rest)) == Before(a)
    decreases |a|
  {
    if a == [] {
      assert a + ([NUL] + rest) == [NUL] + rest;
    } else {
      assert (a + ([NUL] + rest))[1..] == a[1..] + ([NUL] + rest);
      BeforeNulByte(a[1..], rest);
    }
  }
}
