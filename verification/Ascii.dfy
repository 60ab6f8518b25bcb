/** Bytes, the characters that the JSON components of the firmware treat specially, and the range of an int. */
module Ascii {
  type Byte = b: int | 0 <= b < 256
  type Bytes = seq<Byte>

  /** The bytes of a C string before its terminator. */
  type CString = s: Bytes | forall i :: 0 <= i < |s| ==> s[i] != 0

  const NUL: Byte := 0
  const TAB: Byte := 9
  const LF: Byte := 10
  const CR: Byte := 13
  const SPACE: Byte := 32
  const QUOTE: Byte := 34
  const PLUS: Byte := 43
  const COMMA: Byte := 44
  const MINUS: Byte := 45
  const POINT: Byte := 46
  const SLASH: Byte := 47
  const COLON: Byte := 58
  const LBRACKET: Byte := 91
  const BACKSLASH: Byte := 92
  const RBRACKET: Byte := 93
  const LOWER_B: Byte := 98
  const LOWER_F: Byte := 102
  const LOWER_N: Byte := 110
  const LOWER_R: Byte := 114
  const LOWER_T: Byte := 116
  const LOWER_U: Byte := 117
  const LBRACE: Byte := 123
  const RBRACE: Byte := 125

  const INT_MAX := 0x7FFF_FFFF
  const INT_MIN := -0x8000_0000

  /** White space of section 2 of RFC 8259. */
  predicate IsBlank(b: Byte) {
    b == TAB || b == LF || b == CR || b == SPACE
  }

  predicate IsDigit(b: Byte) {
    48 <= b <= 57
  }

  predicate IsHex(b: Byte) {
    IsDigit(b) || 65 <= b <= 70 || 97 <= b <= 102
  }

  /** The one-letter escapes of section 7 of RFC 8259. */
  predicate IsShortEscape(b: Byte) {
    b == QUOTE || b == SLASH || b == BACKSLASH || b == LOWER_B || b == LOWER_F
      || b == LOWER_R || b == LOWER_N || b == LOWER_T
  }

  /** The range of a 32-bit integer in two's complement. */
  lemma IntRange()
    ensures INT_MIN == -2_147_483_648 && INT_MAX == 2_147_483_647
  {
  }

  /** Which characters the names stand for. */
  lemma Characters(b: Byte)
    ensures LBRACE == '{' as int && RBRACE == '}' as int && LBRACKET == '[' as int && RBRACKET == ']' as int
    ensures COLON == ':' as int && COMMA == ',' as int && QUOTE == '\"' as int && BACKSLASH == '\\' as int
    ensures SLASH == '/' as int && PLUS == '+' as int && MINUS == '-' as int && POINT == '.' as int
    ensures TAB == '\t' as int && LF == '\n' as int && CR == '\r' as int && SPACE == ' ' as int
    ensures IsBlank(b) <==> b == ' ' as int || b == '\t' as int || b == '\n' as int || b == '\r' as int
    ensures IsDigit(b) <==> '0' as int <= b <= '9' as int
    ensures IsHex(b) <==>
      '0' as int <= b <= '9' as int || 'a' as int <= b <= 'f' as int || 'A' as int <= b <= 'F' as int
    ensures IsShortEscape(b) <==>
      || b == '\"' as int || b == '\\' as int || b == '/' as int || b == 'b' as int || b == 'f' as int
      || b == 'n' as int || b == 'r' as int || b == 't' as int
  {
  }

  predicate AllBlank(s: Bytes) {
    forall i :: 0 <= i < |s| ==> IsBlank(s[i])
  }

  /** `piece` stands in `text` at offset `at`. */
  predicate At(text: Bytes, at: nat, piece: Bytes)
    decreases |piece|
  {
    if piece == [] then at <= |text|
    else at < |text| && text[at] == piece[0] && At(text, at + 1, piece[1..])
  }

  lemma {:induction false} AtIndex(text: Bytes, at: nat, piece: Bytes)
    ensures At(text, at, piece) <==> at + |piece| <= |text| && forall i :: 0 <= i < |piece| ==> text[at + i] == piece[i]
    decreases |piece|
  {
    if piece != [] {
      AtIndex(text, at + 1, piece[1..]);
      if at + |piece| <= |text| && forall i :: 0 <= i < |piece| ==> text[at + i] == piece[i] {
        forall i | 0 <= i < |piece[1..]| ensures text[at + 1 + i] == piece[1..][i] {
          assert text[at + (i + 1)] == piece[i + 1];
        }
      }
      if At(text, at, piece) {
        forall i | 0 <= i < |piece| ensures text[at + i] == piece[i] {
          if i > 0 {
            assert text[at + 1 + (i - 1)] == piece[1..][i - 1];
          }
        }
      }
    }
  }

  lemma {:induction false} AtSplit(text: Bytes, at: nat, left: Bytes, right: Bytes)
    ensures At(text, at, left + right) <==> At(text, at, left) && At(text, at + |left|, right)
    decreases |left|
  {
    if left == [] {
      assert left + right == right;
      AtIndex(text, at, right);
    } else {
      assert (left + right)[1..] == left[1..] + right;
      AtSplit(text, at + 1, left[1..], right);
    }
  }

  lemma AtSuffix(text: Bytes, at: nat, piece: Bytes, n: nat)
    requires At(text, at, piece) && n <= |piece|
    ensures At(text, at + n, piece[n..])
  {
    assert piece == piece[..n] + piece[n..];
    AtSplit(text, at, piece[..n], piece[n..]);
  }

  lemma AtHead(text: Bytes, at: nat, b: Byte, rest: Bytes)
    requires At(text, at, [b] + rest)
    ensures at < |text| && text[at] == b && At(text, at + 1, rest)
  {
    assert ([b] + rest)[1..] == rest;
  }

  lemma AtSelf(w: Bytes)
    ensures At(w, 0, w)
  {
    AtIndex(w, 0, w);
  }
}
