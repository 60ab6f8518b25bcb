/**
 * The string decoder of cJSON: it estimates the size of its output in a first pass, and never writes more
 * in its second pass, although the passes may disagree about where escapes start.
 */
module CJsonString {
  import opened Ascii
  import opened CJsonItem

  /** How many escapes the first pass skips between `q` and `p`. */
  function Skips(c: Bytes, q: nat, p: nat): nat
    requires p <= |c|
    decreases p - q
  {
    if q >= p then 0 else if c[q] == BACKSLASH then 1 + Skips(c, q + 2, p) else Skips(c, q + 1, p)
  }

  /** Wherever the second pass stands: a byte that is no backslash adds no escape, and two bytes add at most one. */
  lemma {:induction false} SkipsStep(c: Bytes, q: nat, p: nat)
    requires p < |c|
    ensures Skips(c, q, p) <= Skips(c, q, p + 1) <= Skips(c, q, p) + 1
    ensures c[p] != BACKSLASH ==> Skips(c, q, p + 1) == Skips(c, q, p)
    ensures p + 2 <= |c| ==> Skips(c, q, p + 2) <= Skips(c, q, p) + 1
    decreases p + 2 - q
  {
    if q == p && p + 2 <= |c| {
      assert Skips(c, p + 1, p + 2) <= 1;
    }
    if q < p {
      SkipsStep(c, if c[q] == BACKSLASH then q + 2 else q + 1, p);
    }
  }

  lemma SixSteps(c: Bytes, q: nat, p: nat)
    requires p + 6 <= |c|
    ensures Skips(c, q, p + 6) <= Skips(c, q, p) + 3
  {
    SkipsStep(c, q, p);
    SkipsStep(c, q, p + 2);
    SkipsStep(c, q, p + 4);
  }

  /** The first pass: the end of the body, if it is closed, and the number of escapes. */
  method FindEnd(c: Bytes, start: nat) returns (found: bool, end: nat, skipped: nat)
    requires start <= |c|
    ensures found <==> BodyEnd(c, start).Some?
    ensures found ==> BodyEnd(c, start) == Some(end) && skipped == Skips(c, start, end)
  {
    end, skipped := start, 0;
    while end < |c| && c[end] != QUOTE
      invariant start <= end <= |c| && BodyEnd(c, start) == BodyEnd(c, end)
      invariant forall p :: end <= p <= |c| ==> Skips(c, start, p) == skipped + Skips(c, end, p)
      decreases |c| - end
    {
      if c[end] == BACKSLASH {
        if end + 1 >= |c| {
          return false, end, skipped;
        }
        skipped := skipped + 1;
        end := end + 1;
      }
      end := end + 1;
    }
    found := end < |c|;
  }

  /** parse_hex4 */
  method ParseHex4(c: Bytes, at: nat) returns (h: nat)
    requires at + 4 <= |c|
    ensures h == Hex4(c, at)
  {
    h := 0;
    var i := 0;
    while i < 4
      invariant i <= 4 && forall k :: at <= k < at + i ==> IsHex(c[k])
      invariant h == HexPrefix(c, at, i)
    {
      var b: int := c[at + i];
      if 48 <= b <= 57 {
        h := h + (b - 48);
      } else if 65 <= b <= 70 {
        h := h + (10 + b - 65);
      } else if 97 <= b <= 102 {
        h := h + (10 + b - 97);
      } else {
        return 0;
      }
      if i < 3 {
        h := h * 16;
      }
      i := i + 1;
    }
  }

  /** The accumulator of parse_hex4 after `i` digits; it is shifted after all but the last. */
  function HexPrefix(c: Bytes, at: nat, i: nat): nat
    requires i <= 4 && at + 4 <= |c| && forall k :: at <= k < at + i ==> IsHex(c[k])
  {
    if i == 0 then 0
    else if i == 1 then 16 * HexValue(c[at])
    else if i == 2 then 256 * HexValue(c[at]) + 16 * HexValue(c[at + 1])
    else if i == 3 then 4096 * HexValue(c[at]) + 256 * HexValue(c[at + 1]) + 16 * HexValue(c[at + 2])
    else 4096 * HexValue(c[at]) + 256 * HexValue(c[at + 1]) + 16 * HexValue(c[at + 2]) + HexValue(c[at + 3])
  }

  /** The UTF-8 bytes of a code point, written from the last to the first. */
  method WriteUtf8(output: array<Byte>, at: nat, codepoint: nat) returns (length: nat)
    requires codepoint < 0x11_0000 && at + |Utf8(codepoint)| <= output.Length
    modifies output
    ensures length == |Utf8(codepoint)| && output[..at] == old(output[..at])
    ensures output[at..at + length] == Utf8(codepoint)
  {
    var mark := 0;
    if codepoint < 0x80 {
      length := 1;
    } else if codepoint < 0x800 {
      length, mark := 2, 0xC0;
    } else if codepoint < 0x1_0000 {
      length, mark := 3, 0xE0;
    } else {
      length, mark := 4, 0xF0;
    }
    var left, position := codepoint, length - 1;
    while position > 0
      invariant 0 <= position < length && left == Shifted(codepoint, length - 1 - position)
      invariant output[..at] == old(output[..at])
      invariant forall i :: position < i < length ==> output[at + i] == Utf8(codepoint)[i]
    {
      output[at + position] := 0x80 + left % 0x40;
      left := left / 0x40;
      position := position - 1;
    }
    output[at] := mark + left;
  }

  /** The code point after its last digits to the base 64 have been taken off. */
  function Shifted(codepoint: nat, digits: nat): nat
    requires digits < 4
  {
    if digits == 0 then codepoint
    else if digits == 1 then codepoint / 0x40
    else if digits == 2 then codepoint / 0x1000
    else codepoint / 0x4_0000
  }

  /** utf16_literal_to_utf8: how many bytes of input it takes, 0 on failure, and how many bytes it writes. */
  method Utf16ToUtf8(c: Bytes, p: nat, end: nat, output: array<Byte>, at: nat) returns (taken: nat, written: nat)
    requires p < end <= |c|
    requires var (n, cp) := Utf16(c, p, end); n == 0 || at + |Utf8(cp)| <= output.Length
    modifies output
    ensures taken == Utf16(c, p, end).0
    ensures taken == 0 ==> written == 0 && output[..] == old(output[..])
    ensures taken > 0 ==> written == |Utf8(Utf16(c, p, end).1)| && output[at..at + written] == Utf8(Utf16(c, p, end).1)
    ensures output[..if at <= output.Length then at else 0] == old(output[..if at <= output.Length then at else 0])
  {
    if end - p < 6 {
      return 0, 0;
    }
    var codepoint;
    var first := ParseHex4(c, p + 2);
    if 0xDC00 <= first <= 0xDFFF {
      return 0, 0;
    }
    if 0xD800 <= first <= 0xDBFF {
      if end - (p + 6) < 6 || c[p + 6] != BACKSLASH || c[p + 7] != LOWER_U {
        return 0, 0;
      }
      var second := ParseHex4(c, p + 8);
      if second < 0xDC00 || second > 0xDFFF {
        return 0, 0;
      }
      taken, codepoint := 12, SurrogatePair(first, second);
    } else {
      taken, codepoint := 6, first;
    }
    written := WriteUtf8(output, at, codepoint);
  }

  /** The bound that the second pass keeps: what it has written and skipped is paid for by what it has read. */
  predicate Paid(c: Bytes, start: nat, p: nat, written: nat) {
    start <= p <= |c| && written + Skips(c, start, p) <= p - start
  }

  lemma PaidStep(c: Bytes, start: nat, p: nat, end: nat, written: nat)
    requires p < end < |c| && Paid(c, start, p, written)
    ensures c[p] != BACKSLASH ==> Paid(c, start, p + 1, written + 1)
    ensures Paid(c, start, p + 2, written + 1)
    ensures var (n, cp) := Utf16(c, p, end); n > 0 ==> Paid(c, start, p + n, written + |Utf8(cp)|)
  {
    SkipsStep(c, start, p);
    var (n, cp) := Utf16(c, p, end);
    if n > 0 {
      SixSteps(c, start, p);
      if n == 12 {
        SixSteps(c, start, p + 6);
      }
    }
  }

  /** What is paid for fits the estimate, wherever the second pass stands. */
  lemma {:induction false} PaidFits(c: Bytes, start: nat, p: nat, end: nat, written: nat)
    requires Paid(c, start, p, written) && p <= end + 1 && start <= end < |c|
    ensures written <= end - start + 1 - Skips(c, start, end)
    decreases end + 1 - p
  {
    if p <= end {
      SkipsStep(c, start, p);
      if p < end {
        PaidFits(c, start, p + 1, end, written);
      }
    } else {
      SkipsStep(c, start, end);
    }
  }

  lemma SkipsNone(c: Bytes, start: nat)
    requires start <= |c|
    ensures Skips(c, start, start) == 0
  {
  }

  lemma PrefixNone(r: (Option<Bytes>, nat))
    ensures Prefixed([], r) == r
  {
    if r.0.Some? {
      assert [] + r.0.value == r.0.value;
    }
  }

  lemma PrefixTwice(a: Bytes, b: Bytes, r: (Option<Bytes>, nat))
    ensures Prefixed(a, Prefixed(b, r)) == Prefixed(a + b, r)
  {
    if r.0.Some? {
      assert a + (b + r.0.value) == a + b + r.0.value;
    }
  }

  /**
   * The second pass, for every input: it stays inside an output of the estimated size, and what it leaves
   * there is the decoded body with its terminator.
   */
  method DecodeBody(c: Bytes, start: nat, end: nat, output: array<Byte>) returns (ok: bool, written: nat, p: nat)
    requires start <= end < |c| && output.Length == end - start + 1 - Skips(c, start, end) + 1
    modifies output
    ensures p == Decode(c, start, end).1 && (ok <==> Decode(c, start, end).0.Some?)
    ensures ok ==>
      written < output.Length && Some(output[..written]) == Decode(c, start, end).0 && output[written] == NUL
  {
    hide Utf8, Skips;
    SkipsNone(c, start);
    PaidFits(c, start, start, end, 0);
    PrefixNone(Decode(c, start, end));
    p, written := start, 0;
    while p < end
      invariant start <= p <= end + 1 && Paid(c, start, p, written) && written < output.Length
      invariant Decode(c, start, end) == Prefixed(output[..written], Decode(c, p, end))
      decreases end + 1 - p
    {
      PaidStep(c, start, p, end, written);
      ghost var before := output[..written];
      if c[p] != BACKSLASH {
        PaidFits(c, start, p + 1, end, written + 1);
        PrefixTwice(before, [c[p]], Decode(c, p + 1, end));
        output[written] := c[p];
        assert output[..written + 1] == before + [c[p]];
        written, p := written + 1, p + 1;
      } else if c[p + 1] == LOWER_U {
        var (n, cp) := Utf16(c, p, end);
        if n > 0 {
          PaidFits(c, start, p + n, end, written + |Utf8(cp)|);
        }
        var taken, more := Utf16ToUtf8(c, p, end, output, written);
        if taken == 0 {
          ok := false;
          return;
        }
        PrefixTwice(before, Utf8(cp), Decode(c, p + n, end));
        assert output[..written + more] == output[..written] + output[written..written + more];
        written, p := written + more, p + taken;
      } else if IsShortEscape(c[p + 1]) {
        PaidFits(c, start, p + 2, end, written + 1);
        PrefixTwice(before, [Unescaped(c[p + 1])], Decode(c, p + 2, end));
        output[written] := Unescaped(c[p + 1]);
        assert output[..written + 1] == before + [Unescaped(c[p + 1])];
        written, p := written + 1, p + 2;
      } else {
        ok := false;
        return;
      }
    }
    assert output[..written] + [] == output[..written];
    output[written] := NUL;
    ok := true;
  }
}
