/**
 * JSON texts byte by byte: where a byte stands, the text without its white space, and a text with white space put in
 * by a rule that sees one byte at a time.
 */
module JsonStyle {
  import opened Ascii
  import J = JsonText

  /**
   * Where a byte stands: in a string, there behind a backslash, and inside which containers, objects being true.
   * `start` is right behind an opening bracket or a comma.
   */
  datatype Place = Place(quoted: bool, escaped: bool, open: seq<bool>, start: bool) {
    predicate InObject() {
      |open| > 0 && open[|open| - 1]
    }
  }

  const OUTSIDE := Place(false, false, [], false)

  function After(p: Place, b: Byte): Place {
    if p.quoted then
      if p.escaped then p.(escaped := false)
      else if b == BACKSLASH then p.(escaped := true)
      else p.(quoted := b != QUOTE)
    else if IsBlank(b) then p
    else if b == LBRACE || b == LBRACKET then p.(open := p.open + [b == LBRACE], start := true)
    else if b == RBRACE || b == RBRACKET then
      p.(open := if p.open == [] then [] else p.open[..|p.open| - 1], start := false)
    else p.(quoted := b == QUOTE, start := b == COMMA)
  }

  function Through(p: Place, s: Bytes): Place
    decreases |s|
  {
    if s == [] then p else Through(After(p, s[0]), s[1..])
  }

  /** The text without the white space outside strings. */
  function Squeezed(p: Place, s: Bytes): Bytes
    decreases |s|
  {
    if s == [] then [] else (if !p.quoted && IsBlank(s[0]) then [] else [s[0]]) + Squeezed(After(p, s[0]), s[1..])
  }

  /** What a rule puts in the place of a byte. */
  type Rule = (Place, Byte) -> Bytes

  /** The text with every byte replaced by what the rule puts there. */
  function Restyled(rule: Rule, p: Place, s: Bytes): Bytes
    decreases |s|
  {
    if s == [] then [] else rule(p, s[0]) + Restyled(rule, After(p, s[0]), s[1..])
  }

  lemma {:induction false} ThroughCat(p: Place, a: Bytes, b: Bytes)
    ensures Through(p, a + b) == Through(Through(p, a), b)
    decreases |a|
  {
    if a == [] {
      assert a + b == b;
    } else {
      assert (a + b)[1..] == a[1..] + b;
      ThroughCat(After(p, a[0]), a[1..], b);
    }
  }

  lemma {:induction false} SqueezedCat(p: Place, a: Bytes, b: Bytes)
    ensures Squeezed(p, a + b) == Squeezed(p, a) + Squeezed(Through(p, a), b)
    decreases |a|
  {
    hide After;
    if a == [] {
      assert a + b == b;
    } else {
      assert (a + b)[1..] == a[1..] + b;
      SqueezedCat(After(p, a[0]), a[1..], b);
    }
  }

  lemma {:induction false} RestyledCat(rule: Rule, p: Place, a: Bytes, b: Bytes)
    ensures Restyled(rule, p, a + b) == Restyled(rule, p, a) + Restyled(rule, Through(p, a), b)
    decreases |a|
  {
    hide After;
    if a == [] {
      assert a + b == b;
    } else {
      assert (a + b)[1..] == a[1..] + b;
      RestyledCat(rule, After(p, a[0]), a[1..], b);
    }
  }

  /** What a rule makes of one byte in the middle of a text. */
  lemma OneRestyled(rule: Rule, p: Place, a: Bytes, b: Byte, c: Bytes)
    ensures Restyled(rule, p, a + ([b] + c))
      == Restyled(rule, p, a) + (rule(Through(p, a), b) + Restyled(rule, After(Through(p, a), b), c))
  {
    RestyledCat(rule, p, a, [b] + c);
    assert ([b] + c)[1..] == c;
  }

  /**
   * From one place to another: `t` has no white space outside strings, `u` is what the rule makes of it, and without
   * its white space `u` is `t` again.
   */
  predicate Styles(rule: Rule, p: Place, q: Place, t: Bytes, u: Bytes) {
    && Through(p, t) == q && Through(p, u) == q
    && Squeezed(p, t) == t && Squeezed(p, u) == t && Restyled(rule, p, t) == u
  }

  lemma StylesCat(rule: Rule, p: Place, q: Place, r: Place, t: Bytes, u: Bytes, t': Bytes, u': Bytes)
    requires Styles(rule, p, q, t, u) && Styles(rule, q, r, t', u')
    ensures Styles(rule, p, r, t + t', u + u')
  {
    ThroughCat(p, t, t');
    ThroughCat(p, u, u');
    SqueezedCat(p, t, t');
    SqueezedCat(p, u, u');
    RestyledCat(rule, p, t, t');
  }

  lemma StylesNothing(rule: Rule, p: Place)
    ensures Styles(rule, p, p, [], [])
  {
  }

  lemma {:induction false} BlankPassed(p: Place, s: Bytes)
    requires !p.quoted && AllBlank(s)
    ensures Through(p, s) == p && Squeezed(p, s) == []
    decreases |s|
  {
    if s != [] {
      BlankPassed(p, s[1..]);
    }
  }

  /** A byte outside strings with white space before and behind it. */
  lemma StylesByte(rule: Rule, p: Place, b: Byte, before: Bytes, behind: Bytes)
    requires !p.quoted && !IsBlank(b) && AllBlank(before) && AllBlank(behind) && (behind != [] ==> b != QUOTE)
    requires rule(p, b) == before + ([b] + behind)
    ensures Styles(rule, p, After(p, b), [b], before + ([b] + behind))
  {
    var u := [b] + behind;
    BlankPassed(p, before);
    if b != QUOTE {
      BlankPassed(After(p, b), behind);
    }
    ThroughCat(p, before, u);
    SqueezedCat(p, before, u);
    ThroughCat(p, [b], behind);
    SqueezedCat(p, [b], behind);
    assert [b][1..] == [];
  }

  /** The rule leaves strings alone. */
  ghost predicate Verbatim(rule: Rule) {
    forall p: Place, b: Byte :: p.quoted ==> rule(p, b) == [b]
  }

  lemma StylesQuoted(rule: Rule, p: Place, b: Byte)
    requires Verbatim(rule) && p.quoted
    ensures Styles(rule, p, After(p, b), [b], [b])
  {
    assert [b][1..] == [];
  }

  /** The rest of a string, up to its closing quote. */
  lemma {:induction false} StylesBody(rule: Rule, p: Place, body: Bytes)
    requires Verbatim(rule) && p.quoted && !p.escaped && J.BodyOk(body)
    ensures Styles(rule, p, p.(quoted := false), body + [QUOTE], body + [QUOTE])
    decreases |body|
  {
    hide Styles, Verbatim;
    if body == [] {
      StylesQuoted(rule, p, QUOTE);
      assert body + [QUOTE] == [QUOTE];
    } else if body[0] != BACKSLASH {
      StylesQuoted(rule, p, body[0]);
      StylesBody(rule, p, body[1..]);
      StylesCat(rule, p, p, p.(quoted := false), [body[0]], [body[0]], body[1..] + [QUOTE], body[1..] + [QUOTE]);
      assert [body[0]] + (body[1..] + [QUOTE]) == body + [QUOTE];
    } else {
      StylesEscape(rule, p, body[1]);
      assert body[..2] == [BACKSLASH, body[1]];
      var n := if IsShortEscape(body[1]) then 2 else 6;
      if n == 6 {
        HexBody(body);
      }
      StylesBody(rule, p, body[2..]);
      StylesCat(rule, p, p, p.(quoted := false), body[..2], body[..2], body[2..] + [QUOTE], body[2..] + [QUOTE]);
      assert body[..2] + (body[2..] + [QUOTE]) == body + [QUOTE];
    }
  }

  /** Hexadecimal digits alone are no escape. */
  lemma HexBody(body: Bytes)
    requires |body| >= 6 && (forall i :: 2 <= i < 6 ==> IsHex(body[i])) && J.BodyOk(body[6..])
    ensures J.BodyOk(body[2..])
  {
    assert body[5..][1..] == body[6..] && body[4..][1..] == body[5..];
    assert body[3..][1..] == body[4..] && body[2..][1..] == body[3..];
    assert J.BodyOk(body[5..]);
    assert J.BodyOk(body[4..]);
    assert J.BodyOk(body[3..]);
  }

  lemma StylesEscape(rule: Rule, p: Place, b: Byte)
    requires Verbatim(rule) && p.quoted && !p.escaped
    ensures Styles(rule, p, p, [BACKSLASH, b], [BACKSLASH, b])
  {
    hide Verbatim;
    var q := p.(escaped := true);
    StylesQuoted(rule, p, BACKSLASH);
    StylesQuoted(rule, q, b);
    StylesCat(rule, p, q, p, [BACKSLASH], [BACKSLASH], [b], [b]);
    assert [BACKSLASH] + [b] == [BACKSLASH, b];
  }

  /** A string with what the rule puts before its opening quote. */
  lemma StylesString(rule: Rule, p: Place, body: Bytes, before: Bytes)
    requires Verbatim(rule) && !p.quoted && !p.escaped && J.BodyOk(body) && AllBlank(before)
    requires rule(p, QUOTE) == before + [QUOTE]
    ensures Styles(rule, p, p.(start := false), J.Quoted(body), before + J.Quoted(body))
  {
    hide Styles, Verbatim;
    var q := p.(quoted := true, start := false);
    assert [QUOTE] + [] == [QUOTE];
    StylesByte(rule, p, QUOTE, before, []);
    StylesBody(rule, q, body);
    StylesCat(rule, p, q, p.(start := false), [QUOTE], before + [QUOTE], body + [QUOTE], body + [QUOTE]);
    assert J.Quoted(body) == [QUOTE] + (body + [QUOTE]);
    assert (before + [QUOTE]) + (body + [QUOTE]) == before + J.Quoted(body);
  }

  /** Bytes that mean nothing outside strings but themselves. */
  predicate IsPlain(b: Byte) {
    && !IsBlank(b) && b != QUOTE && b != COMMA && b != COLON
    && b != LBRACE && b != LBRACKET && b != RBRACE && b != RBRACKET
  }

  /** A literal name or number with what the rule puts before it. */
  lemma {:induction false} StylesLit(rule: Rule, p: Place, t: Bytes, before: Bytes)
    requires !p.quoted && |t| > 0 && AllBlank(before) && (forall i :: 0 <= i < |t| ==> IsPlain(t[i]))
    requires rule(p, t[0]) == before + [t[0]]
    requires forall i :: 0 <= i < |t| ==> rule(p.(start := false), t[i]) == [t[i]]
    ensures Styles(rule, p, p.(start := false), t, before + t)
    decreases |t|
  {
    hide Styles;
    var q := p.(start := false);
    assert [t[0]] + [] == [t[0]] && IsPlain(t[0]);
    StylesByte(rule, p, t[0], before, []);
    if |t| == 1 {
      assert t == [t[0]];
    } else {
      assert [] + [t[1]] == [t[1]] && [] + t[1..] == t[1..] && t[1..][0] == t[1];
      StylesLit(rule, q, t[1..], []);
      StylesCat(rule, p, q, q, [t[0]], before + [t[0]], t[1..], t[1..]);
      assert [t[0]] + t[1..] == t && (before + [t[0]]) + t[1..] == before + t;
    }
  }
}
