/** The bytes that the printer writes, with and without format, without reference to the layout of items. */
module CJsonStyle {
  import opened Ascii
  import opened CJsonItem
  import opened CJsonLayout
  import opened JsonStyle
  import J = JsonText
  import P = CJsonPrint

  function Indent(n: nat): (s: Bytes)
    ensures |s| == n
  {
    seq(n, i => TAB)
  }

  /**
   * The format of cJSON_Print: elements on one line with a space behind each comma; every member on a line of its
   * own, indented by as many tabulators as containers are open, with a tabulator behind its colon; and the closing
   * brace on a line of its own.
   */
  function Formatting(p: Place, b: Byte): Bytes {
    if p.quoted then [b]
    else if b == LBRACE then [LBRACE, LF]
    else if b == RBRACE then
      (if p.start then [] else [LF]) + Indent(if p.open == [] then 0 else |p.open| - 1) + [RBRACE]
    else if b == COLON then [COLON, TAB]
    else if b == COMMA then (if p.InObject() then [COMMA, LF] else [COMMA, SPACE])
    else if p.InObject() && p.start then Indent(|p.open|) + [b]
    else [b]
  }

  lemma Strings()
    ensures Verbatim(Formatting)
  {
  }

  lemma IndentIs(n: nat)
    ensures Tabs(n) == Indent(n) && AllBlank(Indent(n))
  {
  }

  /** A value may start here. */
  predicate AtValue(p: Place) {
    !p.quoted && !p.escaped && !(p.InObject() && p.start)
  }

  function TextOf(item: Item, format: bool, depth: nat): Bytes {
    J.Text(Layout(item, format, depth))
  }

  lemma {:induction false} ValueStyles(item: Item, p: Place)
    requires Plain(item) && AtValue(p)
    ensures Styles(Formatting, p, p.(start := false), TextOf(item, false, |p.open|), TextOf(item, true, |p.open|))
    decreases item, 1
  {
    hide Styles, TextOf, Formatting;
    match item
    case Null => LitStyles(item, NULL_TEXT, p);
    case False => LitStyles(item, FALSE_TEXT, p);
    case True => LitStyles(item, TRUE_TEXT, p);
    case Number(t) =>
      NumeralPlain(t);
      LitStyles(item, t, p);
    case String(s) => StringStyles(s, p);
    case Array(items) => ArrayStyles(items, p);
    case Object(fields) => ObjectStyles(fields, p);
  }

  lemma NumeralPlain(t: Bytes)
    requires IsNumeral(t)
    ensures |t| > 0 && forall i :: 0 <= i < |t| ==> IsPlain(t[i])
  {
    hide StrtodLength;
    forall i | 0 <= i < |t| ensures IsPlain(t[i]) {
      assert IsNumberByte(t[i]);
    }
  }

  lemma LitStyles(item: Item, t: Bytes, p: Place)
    requires |t| > 0 && (forall i :: 0 <= i < |t| ==> IsPlain(t[i])) && AtValue(p)
    requires Layout(item, false, |p.open|) == Layout(item, true, |p.open|) == J.Lit(t)
    ensures Styles(Formatting, p, p.(start := false), TextOf(item, false, |p.open|), TextOf(item, true, |p.open|))
  {
    hide Styles, Layout;
    StylesLit(Formatting, p, t, []);
    assert [] + t == t;
  }

  lemma StringStyles(s: CString, p: Place)
    requires AtValue(p)
    ensures Styles(Formatting, p, p.(start := false),
      TextOf(String(s), false, |p.open|), TextOf(String(s), true, |p.open|))
  {
    hide Styles, Encoded, J.BodyOk;
    EncodedBody(s);
    Strings();
    StylesString(Formatting, p, Encoded(s), []);
    assert [] + J.Quoted(Encoded(s)) == J.Quoted(Encoded(s));
  }

  /** A bracket, comma or colon with what the format puts around it. */
  lemma Mark(p: Place, b: Byte, before: Bytes, behind: Bytes)
    requires !p.quoted && !IsBlank(b) && b != QUOTE && AllBlank(before) && AllBlank(behind)
    requires Formatting(p, b) == before + ([b] + behind)
    ensures Styles(Formatting, p, After(p, b), [b], before + ([b] + behind))
  {
    StylesByte(Formatting, p, b, before, behind);
  }

  function Entered(p: Place, isObject: bool): Place {
    p.(open := p.open + [isObject], start := true)
  }

  lemma Left(p: Place, isObject: bool, b: Byte)
    requires !p.quoted && (b == RBRACE || b == RBRACKET)
    ensures After(Entered(p, isObject), b) == After(Entered(p, isObject).(start := false), b) == p.(start := false)
  {
    assert (p.open + [isObject])[..|p.open|] == p.open;
  }

  lemma {:induction false} ArrayStyles(items: Items, p: Place)
    requires PlainItems(items) && AtValue(p)
    ensures Styles(Formatting, p, p.(start := false),
      TextOf(Array(items), false, |p.open|), TextOf(Array(items), true, |p.open|))
    decreases items, 3
  {
    hide Styles, Layout, J.Text, P.ElementsText;
    var n, q := |p.open|, Entered(p, false);
    var r := if items.NoItems? then q else q.(start := false);
    P.ArrayText(items, false, n);
    P.ArrayText(items, true, n);
    assert [] + ([LBRACKET] + []) == [LBRACKET] && [] + ([RBRACKET] + []) == [RBRACKET];
    Mark(p, LBRACKET, [], []);
    ElementsStyles(items, q);
    Left(p, false, RBRACKET);
    Mark(r, RBRACKET, [], []);
    var t, u := P.ElementsText(items, false, n + 1), P.ElementsText(items, true, n + 1);
    StylesCat(Formatting, q, r, p.(start := false), t, u, [RBRACKET], [RBRACKET]);
    StylesCat(Formatting, p, q, p.(start := false), [LBRACKET], [LBRACKET], t + [RBRACKET], u + [RBRACKET]);
  }

  lemma {:induction false} ElementsStyles(items: Items, p: Place)
    requires PlainItems(items) && !p.quoted && !p.escaped && |p.open| > 0 && !p.InObject()
    ensures Styles(Formatting, p, if items.NoItems? then p else p.(start := false),
      P.ElementsText(items, false, |p.open|), P.ElementsText(items, true, |p.open|))
    decreases items, 2
  {
    hide Styles, Layout, J.Text, P.ElementsText, Plain, Formatting;
    var n := |p.open|;
    P.NoElements(false, n);
    P.NoElements(true, n);
    if items.NoItems? {
      StylesNothing(Formatting, p);
    } else {
      P.ElementStep(items, false, n);
      P.ElementStep(items, true, n);
      ElementStyles(items.head, items.tail.Cons?, p);
      var q := p.(start := items.tail.Cons?);
      ElementsStyles(items.tail, q);
      StylesCat(Formatting, p, q, p.(start := false),
        P.ElementText(items.head, items.tail.Cons?, false, n), P.ElementText(items.head, items.tail.Cons?, true, n),
        P.ElementsText(items.tail, false, n), P.ElementsText(items.tail, true, n));
    }
  }

  lemma {:induction false} ElementStyles(item: Item, more: bool, p: Place)
    requires Plain(item) && !p.quoted && !p.escaped && |p.open| > 0 && !p.InObject()
    ensures Styles(Formatting, p, p.(start := more), P.ElementText(item, more, false, |p.open|),
      P.ElementText(item, more, true, |p.open|))
    decreases item, 2
  {
    hide Styles, Layout, J.Text, Plain;
    var n, q := |p.open|, p.(start := false);
    ValueStyles(item, p);
    var t, u := TextOf(item, false, n), TextOf(item, true, n);
    if more {
      assert [] + ([COMMA] + [SPACE]) == [COMMA, SPACE];
      Mark(q, COMMA, [], [SPACE]);
      StylesCat(Formatting, p, q, p.(start := true), t, u, [COMMA], [COMMA, SPACE]);
    } else {
      assert t + [] == t && u + [] == u;
    }
  }

  /** The lines of the members without the last line feed. */
  function Lines(fields: Fields, depth: nat): Bytes
    requires fields.Field?
  {
    P.KeyText(fields.key, true, depth)
      + (TextOf(fields.value, true, depth)
         + if fields.rest.NoFields? then [] else [COMMA, LF] + Lines(fields.rest, depth))
  }

  lemma {:induction false} LinesEnd(fields: Fields, depth: nat)
    requires fields.Field?
    ensures P.MembersText(fields, true, depth) == Lines(fields, depth) + [LF]
    decreases fields
  {
    hide P.KeyText, Layout, J.Text;
    var k, v := P.KeyText(fields.key, true, depth), TextOf(fields.value, true, depth);
    if fields.rest.NoFields? {
      P.NoMember(true, depth);
      LineOnly(k, v);
    } else {
      LinesEnd(fields.rest, depth);
      LineMore(k, v, Lines(fields.rest, depth));
    }
  }

  lemma LineOnly(k: Bytes, v: Bytes)
    ensures (k + (v + [LF])) + [] == (k + (v + [])) + [LF]
  {
  }

  lemma LineMore(k: Bytes, v: Bytes, rest: Bytes)
    ensures (k + (v + [COMMA, LF])) + (rest + [LF]) == (k + (v + ([COMMA, LF] + rest))) + [LF]
  {
  }

  lemma {:induction false} ObjectStyles(fields: Fields, p: Place)
    requires PlainFields(fields) && AtValue(p)
    ensures Styles(Formatting, p, p.(start := false), TextOf(Object(fields), false, |p.open|),
      TextOf(Object(fields), true, |p.open|))
    decreases fields, 3
  {
    hide Styles, Layout, J.Text, P.MembersText, Lines, Tabs, Indent;
    var n, q := |p.open|, Entered(p, true);
    P.ObjectText(fields, false, n);
    P.ObjectText(fields, true, n);
    IndentIs(n);
    assert [] + ([LBRACE] + [LF]) == [LBRACE, LF];
    Mark(p, LBRACE, [], [LF]);
    Left(p, true, RBRACE);
    var t, u, close := [], [], Indent(n) + [RBRACE];
    if fields.NoFields? {
      P.NoMember(false, n + 1);
      P.NoMember(true, n + 1);
      BraceStyles(q, n, []);
    } else {
      t, u := P.MembersText(fields, false, n + 1), Lines(fields, n + 1);
      LinesEnd(fields, n + 1);
      MembersStyles(fields, q);
      BraceStyles(q.(start := false), n, [LF]);
      close := [LF] + Indent(n) + [RBRACE];
      StylesCat(Formatting, q, q.(start := false), p.(start := false), t, u, [RBRACE], close);
      assert (u + [LF]) + (Indent(n) + [RBRACE]) == u + close;
    }
    assert [] + [RBRACE] == [RBRACE] && [] + close == close;
    StylesCat(Formatting, p, q, p.(start := false), [LBRACE], [LBRACE, LF], t + [RBRACE], u + close);
  }

  /** The closing brace. */
  lemma BraceStyles(q: Place, n: nat, line: Bytes)
    requires !q.quoted && |q.open| == n + 1 && line == if q.start then [] else [LF]
    ensures Styles(Formatting, q, After(q, RBRACE), [RBRACE], line + Indent(n) + [RBRACE])
    ensures line == [] ==> line + Indent(n) + [RBRACE] == Indent(n) + [RBRACE]
  {
    hide Indent, Styles;
    IndentIs(n);
    assert line + Indent(n) + [RBRACE] == (line + Indent(n)) + ([RBRACE] + []);
    Mark(q, RBRACE, line + Indent(n), []);
  }

  lemma {:induction false} MembersStyles(fields: Fields, p: Place)
    requires PlainFields(fields) && fields.Field? && !p.quoted && !p.escaped && p.InObject() && p.start
    ensures Styles(Formatting, p, p.(start := false), P.MembersText(fields, false, |p.open|), Lines(fields, |p.open|))
    decreases fields, 2
  {
    hide Styles, Plain, P.KeyText, Layout, J.Text;
    var n, q := |p.open|, p.(start := false);
    var more := fields.rest.Field?;
    var k, k' := P.KeyText(fields.key, false, n), P.KeyText(fields.key, true, n);
    var v, v' := TextOf(fields.value, false, n), TextOf(fields.value, true, n);
    KeyStyles(fields.key, p);
    ValueStyles(fields.value, q);
    StylesCat(Formatting, p, q, q, k, k', v, v');
    P.NoMember(false, n);
    if !more {
      assert (k + (v + [])) + [] == k + v && k' + (v' + []) == k' + v';
    } else {
      var t, u := P.MembersText(fields.rest, false, n), Lines(fields.rest, n);
      MembersStyles(fields.rest, p);
      assert [] + ([COMMA] + [LF]) == [COMMA, LF];
      Mark(q, COMMA, [], [LF]);
      StylesCat(Formatting, q, p, q, [COMMA], [COMMA, LF], t, u);
      StylesCat(Formatting, p, q, q, k + v, k' + v', [COMMA] + t, [COMMA, LF] + u);
      assert (k + (v + [COMMA])) + t == (k + v) + ([COMMA] + t);
      assert k' + (v' + ([COMMA, LF] + u)) == (k' + v') + ([COMMA, LF] + u);
    }
  }

  /** The key and the colon of a member. */
  lemma KeyStyles(key: CString, p: Place)
    requires !p.quoted && !p.escaped && p.InObject() && p.start
    ensures Styles(Formatting, p, p.(start := false), P.KeyText(key, false, |p.open|), P.KeyText(key, true, |p.open|))
  {
    hide Styles, Encoded, J.BodyOk, Tabs, Indent, J.Quoted;
    var n, q := |p.open|, p.(start := false);
    IndentIs(n);
    EncodedBody(key);
    Strings();
    var s := J.Quoted(Encoded(key));
    StylesString(Formatting, p, Encoded(key), Indent(n));
    assert [] + ([COLON] + [TAB]) == [COLON, TAB];
    Mark(q, COLON, [], [TAB]);
    StylesCat(Formatting, p, q, q, s, Indent(n) + s, [COLON], [COLON, TAB]);
    assert [] + (s + [COLON]) == s + [COLON];
    assert Indent(n) + (s + [COLON, TAB]) == (Indent(n) + s) + [COLON, TAB];
  }

  /**
   * What the printer writes, byte by byte. The unformatted print has no white space outside strings; the formatted one
   * is the unformatted one with the white space of the format put in; and taking that out again gives the unformatted
   * one.
   */
  lemma PrintedStyle(item: Item)
    requires Plain(item)
    ensures Squeezed(OUTSIDE, Printed(item, false)) == Printed(item, false)
    ensures Squeezed(OUTSIDE, Printed(item, true)) == Printed(item, false)
    ensures Restyled(Formatting, OUTSIDE, Printed(item, false)) == Printed(item, true)
    ensures Through(OUTSIDE, Printed(item, false)) == Through(OUTSIDE, Printed(item, true)) == OUTSIDE
  {
    ValueStyles(item, OUTSIDE);
  }

  /** Raw text is printed as it is. */
  lemma RawStands(raw: CString, format: bool)
    ensures Printed(Raw(raw), format) == raw
  {
  }
}
