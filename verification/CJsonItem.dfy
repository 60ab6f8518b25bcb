/** cJSON items as values, and what JSON texts, strings and numbers denote. */
module CJsonItem {
  import opened Ascii
  import J = JsonText

  datatype Option<+T> = None | Some(value: T)

  /** A number is represented by its text; a string by the bytes that stand before the first NUL of its buffer. */
  datatype Item =
    | Invalid
    | Null
    | False
    | True
    | Number(text: CString)
    | String(value: CString)
    | Raw(raw: CString)
    | Array(items: Items)
    | Object(fields: Fields)

  datatype Items = NoItems | Cons(head: Item, tail: Items)

  datatype Fields = NoFields | Field(key: CString, value: Item, rest: Fields)

  const NESTING_LIMIT := 1000

  /** How many bytes of a number fit the temporary buffer of parse_number. */
  const NUMBER_LIMIT := 63

  const NULL_TEXT: Bytes := [110, 117, 108, 108]
  const FALSE_TEXT: Bytes := [102, 97, 108, 115, 101]
  const TRUE_TEXT: Bytes := [116, 114, 117, 101]

  // ----- numbers -----

  predicate IsExponent(b: Byte) {
    b == 101 || b == 69
  }

  predicate IsSign(b: Byte) {
    b == PLUS || b == MINUS
  }

  /** The bytes that parse_number copies. */
  predicate IsNumberByte(b: Byte) {
    IsDigit(b) || IsSign(b) || IsExponent(b) || b == POINT
  }

  /** The end of the run of digits that starts at `i`. */
  function DigitsEnd(s: Bytes, i: nat): (r: nat)
    requires i <= |s|
    ensures i <= r <= |s|
    decreases |s| - i
  {
    if i < |s| && IsDigit(s[i]) then DigitsEnd(s, i + 1) else i
  }

  /** Where the exponent that may start at `i` ends, or `i` if there is none. */
  function ExponentEnd(s: Bytes, i: nat): (r: nat)
    requires i <= |s|
    ensures i <= r <= |s|
  {
    if i < |s| && IsExponent(s[i]) then
      var d := if i + 1 < |s| && IsSign(s[i + 1]) then i + 2 else i + 1;
      var e := DigitsEnd(s, d);
      if e > d then e else i
    else i
  }

  /** Where the decimal point and digits that may start at `i` end. */
  function PointEnd(s: Bytes, i: nat): (r: nat)
    requires i <= |s|
    ensures i <= r <= |s|
  {
    if i < |s| && s[i] == POINT then DigitsEnd(s, i + 1) else i
  }

  /** How many bytes strtod takes from a text of number bytes; 0 if they start no number. */
  function StrtodLength(s: Bytes): (r: nat)
    ensures r <= |s|
  {
    var a := if |s| > 0 && IsSign(s[0]) then 1 else 0;
    var b := DigitsEnd(s, a);
    var c := PointEnd(s, b);
    if b == a && c <= b + 1 then 0 else ExponentEnd(s, c)
  }

  /** A number of section 6 of RFC 8259. */
  predicate IsNumber(s: Bytes) {
    var a := if |s| > 0 && s[0] == MINUS then 1 else 0;
    var b := DigitsEnd(s, a);
    var c := PointEnd(s, b);
    && a < b && (s[a] == 48 ==> b == a + 1)
    && (c == b || c > b + 1)
    && (c == |s| || ExponentEnd(s, c) == |s|)
  }

  // ----- strings -----

  /** The value of a hexadecimal digit. */
  function HexValue(b: Byte): (r: nat)
    requires IsHex(b)
    ensures r < 16
  {
    if IsDigit(b) then b - 48 else if b <= 70 then b - 55 else b - 87
  }

  /** parse_hex4: 0 if one of the four bytes is no hexadecimal digit. */
  function Hex4(c: Bytes, at: nat): (r: nat)
    requires at + 4 <= |c|
    ensures r < 0x1_0000
  {
    if IsHex(c[at]) && IsHex(c[at + 1]) && IsHex(c[at + 2]) && IsHex(c[at + 3]) then
      0x1000 * HexValue(c[at]) + 0x100 * HexValue(c[at + 1]) + 0x10 * HexValue(c[at + 2]) + HexValue(c[at + 3])
    else 0
  }

  /** The UTF-8 encoding of a code point, section 3 of RFC 3629. */
  function Utf8(cp: nat): (r: Bytes)
    requires cp < 0x11_0000
    ensures 1 <= |r| <= 4
    ensures |r| == if cp < 0x80 then 1 else if cp < 0x800 then 2 else if cp < 0x1_0000 then 3 else 4
  {
    if cp < 0x80 then [cp]
    else if cp < 0x800 then [0xC0 + cp / 0x40, 0x80 + cp % 0x40]
    else if cp < 0x1_0000 then [0xE0 + cp / 0x1000, 0x80 + cp / 0x40 % 0x40, 0x80 + cp % 0x40]
    else [0xF0 + cp / 0x4_0000, 0x80 + cp / 0x1000 % 0x40, 0x80 + cp / 0x40 % 0x40, 0x80 + cp % 0x40]
  }

  predicate IsTail(b: Byte) {
    0x80 <= b < 0xC0
  }

  /** A code point that is no surrogate. */
  predicate IsScalar(cp: nat) {
    cp < 0x11_0000 && !(0xD800 <= cp <= 0xDFFF)
  }

  /** The code point that a UTF-8 sequence of section 4 of RFC 3629 encodes. */
  function Utf8Value(r: Bytes): Option<nat> {
    var b: seq<int> := r;
    if |r| == 1 && b[0] < 0x80 then Some(b[0])
    else if |r| == 2 && 0xC2 <= b[0] < 0xE0 && IsTail(r[1]) then Some((b[0] - 0xC0) * 0x40 + (b[1] - 0x80))
    else if |r| == 3 && 0xE0 <= b[0] < 0xF0 && IsTail(r[1]) && IsTail(r[2])
      && (b[0] > 0xE0 || b[1] >= 0xA0) && (b[0] != 0xED || b[1] < 0xA0) then
      Some((b[0] - 0xE0) * 0x1000 + (b[1] - 0x80) * 0x40 + (b[2] - 0x80))
    else if |r| == 4 && 0xF0 <= b[0] < 0xF5 && IsTail(r[1]) && IsTail(r[2]) && IsTail(r[3])
      && (b[0] > 0xF0 || b[1] >= 0x90) && (b[0] < 0xF4 || b[1] < 0x90) then
      Some((b[0] - 0xF0) * 0x4_0000 + (b[1] - 0x80) * 0x1000 + (b[2] - 0x80) * 0x40 + (b[3] - 0x80))
    else None
  }

  /** The code point of a surrogate pair, section 2.2 of RFC 2781. */
  function SurrogatePair(high: nat, low: nat): nat
    requires 0xD800 <= high <= 0xDBFF && 0xDC00 <= low <= 0xDFFF
  {
    0x1_0000 + (high - 0xD800) * 0x400 + (low - 0xDC00)
  }

  /**
   * The code point of the \u escape at `at` in a body that ends before `end`, and the escape's length; 0 if it is none.
   */
  function Utf16(c: Bytes, at: nat, end: nat): (r: (nat, nat))
    requires at < end <= |c|
    ensures r.0 == 0 || r.0 == 6 || r.0 == 12
    ensures at + r.0 <= end && IsScalar(r.1)
    ensures r.0 == 6 ==> r.1 < 0x1_0000
  {
    if end - at < 6 then (0, 0)
    else
      var first := Hex4(c, at + 2);
      if 0xDC00 <= first <= 0xDFFF then (0, 0)
      else if 0xD800 <= first <= 0xDBFF then
        if end - (at + 6) < 6 || c[at + 6] != BACKSLASH || c[at + 7] != LOWER_U then (0, 0)
        else
          var second := Hex4(c, at + 8);
          if second < 0xDC00 || second > 0xDFFF then (0, 0) else (12, SurrogatePair(first, second))
      else (6, first)
  }

  /** What a one-letter escape stands for. */
  function Unescaped(b: Byte): Byte
    requires IsShortEscape(b)
  {
    if b == LOWER_B then 8 else if b == LOWER_F then 12 else if b == LOWER_N then 10
    else if b == LOWER_R then 13 else if b == LOWER_T then 9 else b
  }

  /**
   * The second pass of parse_string from `p` on: the decoded bytes and where it stopped. It looks one byte
   * past `end` when an escape starts with the last byte.
   */
  function Decode(c: Bytes, p: nat, end: nat): (r: (Option<Bytes>, nat))
    requires p <= end + 1 && end < |c|
    ensures r.1 <= end + 1
    decreases end + 1 - p
  {
    if p >= end then (Some([]), p)
    else if c[p] != BACKSLASH then Prefixed([c[p]], Decode(c, p + 1, end))
    else if IsShortEscape(c[p + 1]) then Prefixed([Unescaped(c[p + 1])], Decode(c, p + 2, end))
    else if c[p + 1] == LOWER_U then
      var (n, cp) := Utf16(c, p, end);
      if n == 0 then (None, p) else Prefixed(Utf8(cp), Decode(c, p + n, end))
    else (None, p)
  }

  function Prefixed(s: Bytes, r: (Option<Bytes>, nat)): (Option<Bytes>, nat) {
    (if r.0.None? then None else Some(s + r.0.value), r.1)
  }

  /** The first pass of parse_string from `p` on: where the closing quote stands. */
  function BodyEnd(c: Bytes, p: nat): (r: Option<nat>)
    ensures r.Some? ==> p <= r.value < |c| && c[r.value] == QUOTE
    decreases |c| - p
  {
    if p >= |c| then None
    else if c[p] == QUOTE then Some(p)
    else if c[p] == BACKSLASH then (if p + 1 >= |c| then None else BodyEnd(c, p + 2))
    else BodyEnd(c, p + 1)
  }

  /** The C string that starts a buffer. */
  function Before(s: Bytes): (r: CString)
    ensures r <= s && (|r| == |s| || s[|r|] == NUL)
  {
    if s == [] || s[0] == NUL then [] else [s[0]] + Before(s[1..])
  }

  /** The string that a body between quotes denotes: no bare quote stands in the body and every escape is known. */
  function BodyValue(raw: Bytes): Option<CString> {
    var c := raw + [QUOTE];
    if BodyEnd(c, 0) != Some(|raw|) then None
    else match Decode(c, 0, |raw|).0
      case None => None
      case Some(s) => Some(Before(s))
  }

  const HEX_DIGITS: Bytes := [48, 49, 50, 51, 52, 53, 54, 55, 56, 57, 97, 98, 99, 100, 101, 102]

  /** How print_string_ptr writes one byte. */
  function Escaped(b: Byte): (r: Bytes)
    ensures |r| > 0
  {
    if b == QUOTE || b == BACKSLASH then [BACKSLASH, b]
    else if b == 8 then [BACKSLASH, LOWER_B]
    else if b == 12 then [BACKSLASH, LOWER_F]
    else if b == 10 then [BACKSLASH, LOWER_N]
    else if b == 13 then [BACKSLASH, LOWER_R]
    else if b == 9 then [BACKSLASH, LOWER_T]
    else if b < 32 then [BACKSLASH, LOWER_U, 48, 48, HEX_DIGITS[b / 16], HEX_DIGITS[b % 16]]
    else [b]
  }

  function Encoded(s: Bytes): Bytes {
    if s == [] then [] else Escaped(s[0]) + Encoded(s[1..])
  }

  // ----- values -----

  /**
   * A text that strtod takes whole and parse_number copies whole; every number of RFC 8259 of at most 63 bytes is one.
   */
  predicate IsNumeral(t: Bytes) {
    && 0 < |t| <= NUMBER_LIMIT && StrtodLength(t) == |t| && (IsDigit(t[0]) || t[0] == MINUS)
    && forall i :: 0 <= i < |t| ==> IsNumberByte(t[i])
  }

  /** The item that a literal or number denotes. */
  function LitItem(t: Bytes): Option<Item> {
    if t == NULL_TEXT then Some(Null)
    else if t == FALSE_TEXT then Some(False)
    else if t == TRUE_TEXT then Some(True)
    else if IsNumeral(t) then Some(Number(t))
    else None
  }

  /** The three literal names of section 3 of RFC 8259. */
  lemma LiteralNames()
    ensures LitItem(['n' as int, 'u' as int, 'l' as int, 'l' as int]) == Some(Null)
    ensures LitItem(['t' as int, 'r' as int, 'u' as int, 'e' as int]) == Some(True)
    ensures LitItem(['f' as int, 'a' as int, 'l' as int, 's' as int, 'e' as int]) == Some(False)
  {
    assert NULL_TEXT != TRUE_TEXT by { assert NULL_TEXT[0] != TRUE_TEXT[0]; }
  }

  /** The item that a JSON text denotes, whatever its layout; None if a string or literal denotes nothing. */
  function ItemOf(v: J.Value): Option<Item> {
    match v
    case Lit(t) => LitItem(t)
    case Str(raw) => (match BodyValue(raw) case None => None case Some(s) => Some(String(s)))
    case Arr(_, es) => (match ItemsOf(es) case None => None case Some(l) => Some(Array(l)))
    case Obj(_, ms) => (match FieldsOf(ms) case None => None case Some(l) => Some(Object(l)))
  }

  function ItemsOf(es: J.Elems): Option<Items> {
    match es
    case NoElems => Some(NoItems)
    case Elem(v, _, _, rest) =>
      var (head, tail) := (ItemOf(v), ItemsOf(rest));
      if head.None? || tail.None? then None else Some(Cons(head.value, tail.value))
  }

  function FieldsOf(ms: J.Members): Option<Fields> {
    match ms
    case NoMembers => Some(NoFields)
    case Member(key, _, _, v, _, _, rest) =>
      var (k, value, tail) := (BodyValue(key), ItemOf(v), FieldsOf(rest));
      if k.None? || value.None? || tail.None? then None else Some(Field(k.value, value.value, tail.value))
  }

  /** How many containers are nested in each other. */
  function Depth(v: J.Value): nat {
    match v
    case Lit(_) => 0
    case Str(_) => 0
    case Arr(_, es) => 1 + ElemsDepth(es)
    case Obj(_, ms) => 1 + MembersDepth(ms)
  }

  function ElemsDepth(es: J.Elems): nat {
    match es
    case NoElems => 0
    case Elem(v, _, _, rest) => if Depth(v) > ElemsDepth(rest) then Depth(v) else ElemsDepth(rest)
  }

  function MembersDepth(ms: J.Members): nat {
    match ms
    case NoMembers => 0
    case Member(_, _, _, v, _, _, rest) => if Depth(v) > MembersDepth(rest) then Depth(v) else MembersDepth(rest)
  }

  // ----- lemmas -----

  lemma {:induction false} DigitsRun(s: Bytes, i: nat)
    requires i <= |s|
    ensures forall k :: i <= k < DigitsEnd(s, i) ==> IsDigit(s[k])
    decreases |s| - i
  {
    if i < |s| && IsDigit(s[i]) {
      DigitsRun(s, i + 1);
    }
  }

  /** Every number of RFC 8259 that fits the temporary buffer is read whole. */
  lemma NumberWhole(s: Bytes)
    requires IsNumber(s) && |s| <= NUMBER_LIMIT
    ensures IsNumeral(s)
  {
    var a := if |s| > 0 && s[0] == MINUS then 1 else 0;
    var b := DigitsEnd(s, a);
    var c := PointEnd(s, b);
    DigitsRun(s, a);
    if b < |s| {
      DigitsRun(s, b + 1);
    }
    if c < |s| {
      DigitsRun(s, if c + 1 < |s| && IsSign(s[c + 1]) then c + 2 else c + 1);
    }
  }

  /** The six bits of a continuation byte: each byte but the first is the remainder of a division by 64. */
  lemma SixBits(n: nat)
    ensures n == 0x40 * (n / 0x40) + n % 0x40 && n / 0x40 / 0x40 == n / 0x1000 && n / 0x1000 / 0x40 == n / 0x4_0000
    ensures n / 0x40 == 0x40 * (n / 0x1000) + n / 0x40 % 0x40 && n / 0x1000 == 0x40 * (n / 0x4_0000) + n / 0x1000 % 0x40
  {
  }

  /** The UTF-8 bytes of a scalar value are a well-formed sequence that encodes it. */
  lemma Utf8Encodes(cp: nat)
    requires IsScalar(cp)
    ensures Utf8Value(Utf8(cp)) == Some(cp)
  {
    SixBits(cp);
  }

  /** A sum of digits in base 64. */
  lemma Digits64(a: nat, b: nat, c: nat)
    requires b < 0x40 && c < 0x40
    ensures var n := a * 0x1000 + b * 0x40 + c;
      n % 0x40 == c && n / 0x40 == a * 0x40 + b && n / 0x40 % 0x40 == b && n / 0x1000 == a
  {
  }

  /** Well-formed sequences encode scalar values only, and each only the one whose bytes it is. */
  lemma Utf8Decodes(r: Bytes)
    requires Utf8Value(r).Some?
    ensures IsScalar(Utf8Value(r).value) && Utf8(Utf8Value(r).value) == r
  {
    var b: seq<int> := r;
    if |r| == 3 {
      Digits64(b[0] - 0xE0, b[1] - 0x80, b[2] - 0x80);
    } else if |r| == 4 {
      Digits64((b[0] - 0xF0) * 0x40 + (b[1] - 0x80), b[2] - 0x80, b[3] - 0x80);
      Digits64(0, b[0] - 0xF0, b[1] - 0x80);
    }
  }

  /** The bytes written for a scalar value are its one well-formed UTF-8 sequence. */
  lemma Utf8Read(cp: nat, r: Bytes)
    requires IsScalar(cp)
    ensures Utf8Value(r) == Some(cp) <==> r == Utf8(cp)
  {
    Utf8Encodes(cp);
    if Utf8Value(r) == Some(cp) {
      Utf8Decodes(r);
    }
  }

  /** Escaping a byte other than NUL is undone by decoding, wherever the escape stands in a body. */
  lemma EscapedDecodes(c: Bytes, p: nat, end: nat, b: Byte)
    requires At(c, p, Escaped(b)) && p + |Escaped(b)| <= end < |c| && b != 0
    ensures Decode(c, p, end) == Prefixed([b], Decode(c, p + |Escaped(b)|, end))
  {
    AtIndex(c, p, Escaped(b));
    var e := Escaped(b);
    assert c[p + 0] == e[0];
    if |e| > 1 {
      assert c[p + 1] == e[1];
    }
    if |e| == 6 {
      assert c[p + 2] == e[2] && c[p + 3] == e[3] && c[p + 4] == e[4] && c[p + 5] == e[5];
      HexPair(b);
      assert Hex4(c, p + 2) == b;
      assert Utf16(c, p, end) == (6, b);
    }
  }

  lemma HexPair(b: Byte)
    requires b < 32
    ensures IsHex(HEX_DIGITS[b / 16]) && IsHex(HEX_DIGITS[b % 16])
    ensures 16 * HexValue(HEX_DIGITS[b / 16]) + HexValue(HEX_DIGITS[b % 16]) == b
  {
  }

  /** Decoding an encoded string gives it back, if it holds no NUL. */
  lemma {:induction false} EncodedDecodes(c: Bytes, p: nat, end: nat, s: CString)
    requires At(c, p, Encoded(s)) && p + |Encoded(s)| == end < |c|
    ensures Decode(c, p, end) == (Some(s), end)
    decreases |s|
  {
    if s == [] {
      assert Encoded(s) == [];
    } else {
      hide *;
      var b, rest := s[0], s[1..];
      EncodedMore(s);
      EncodedDecodesOne(c, p, end, b, Encoded(rest));
      EncodedDecodes(c, p + |Escaped(b)|, end, rest);
      assert [b] + rest == s;
    }
  }

  lemma EncodedMore(s: Bytes)
    requires s != []
    ensures Encoded(s) == Escaped(s[0]) + Encoded(s[1..])
  {
  }

  lemma EncodedDecodesOne(c: Bytes, p: nat, end: nat, b: Byte, rest: Bytes)
    requires At(c, p, Escaped(b) + rest) && p + |Escaped(b)| + |rest| == end < |c| && b != 0
    ensures At(c, p + |Escaped(b)|, rest)
    ensures Decode(c, p, end) == Prefixed([b], Decode(c, p + |Escaped(b)|, end))
  {
    AtSplit(c, p, Escaped(b), rest);
    EscapedDecodes(c, p, end, b);
  }

  /** The first pass finds the end of every string body of RFC 8259. */
  lemma {:induction false} BodyCloses(c: Bytes, p: nat, raw: Bytes)
    requires J.BodyOk(raw) && At(c, p, raw) && p + |raw| < |c| && c[p + |raw|] == QUOTE
    ensures BodyEnd(c, p) == Some(p + |raw|)
    decreases |raw|
  {
    if raw != [] {
      AtIndex(c, p, raw);
      if raw[0] != BACKSLASH {
        BodyCloses(c, p + 1, raw[1..]);
      } else {
        var n := if IsShortEscape(raw[1]) then 2 else 6;
        assert c[p + 1] == raw[1];
        AtSuffix(c, p, raw, n);
        BodyCloses(c, p + n, raw[n..]);
        if n == 6 {
          assert c[p + 2] == raw[2] && c[p + 3] == raw[3] && c[p + 4] == raw[4] && c[p + 5] == raw[5];
          PlainSteps(c, p + 2);
        }
      }
    }
  }

  lemma PlainSteps(c: Bytes, p: nat)
    requires p + 4 <= |c| && IsHex(c[p]) && IsHex(c[p + 1]) && IsHex(c[p + 2]) && IsHex(c[p + 3])
    ensures BodyEnd(c, p) == BodyEnd(c, p + 4)
  {
    assert BodyEnd(c, p) == BodyEnd(c, p + 1);
    assert BodyEnd(c, p + 2) == BodyEnd(c, p + 3);
  }

  lemma {:induction false} BeforeAll(s: CString)
    ensures Before(s) == s
    decreases |s|
  {
    if s != [] {
      BeforeAll(s[1..]);
    }
  }

  /** An encoded string is a string body of RFC 8259 that denotes the string. */
  lemma EncodedValue(s: CString)
    ensures J.BodyOk(Encoded(s)) && BodyValue(Encoded(s)) == Some(s)
  {
    var raw := Encoded(s);
    var c := raw + [QUOTE];
    AtIndex(c, 0, c);
    AtSplit(c, 0, raw, [QUOTE]);
    hide Decode, BodyEnd, Encoded, At;
    EncodedDecodes(c, 0, |raw|, s);
    EncodedBody(s);
    BodyCloses(c, 0, raw);
    BeforeAll(s);
  }

  lemma {:induction false} EncodedBody(s: CString)
    ensures J.BodyOk(Encoded(s))
    decreases |s|
  {
    if s != [] {
      EncodedBody(s[1..]);
      var e, rest := Escaped(s[0]), Encoded(s[1..]);
      assert (e + rest)[|e|..] == rest;
      if |e| == 6 {
        HexPair(s[0]);
      }
    }
  }
}
