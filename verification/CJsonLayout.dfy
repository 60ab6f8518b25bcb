/** The text that the cJSON printer gives an item, and that parsing it gives the item back. */
module CJsonLayout {
  import opened Ascii
  import opened CJsonItem
  import opened CJsonParse
  import R = CJsonRead
  import J = JsonText

  function Tabs(n: nat): (s: Bytes)
    ensures |s| == n && forall i :: 0 <= i < n ==> s[i] == TAB
  {
    if n == 0 then [] else [TAB] + Tabs(n - 1)
  }

  function If(format: bool, s: Bytes): Bytes {
    if format then s else []
  }

  /** An item as a text with its layout; `depth` is the printer's own depth counter. */
  function Layout(item: Item, format: bool, depth: nat): J.Value {
    match item
    case Invalid => J.Lit([])
    case Null => J.Lit(NULL_TEXT)
    case False => J.Lit(FALSE_TEXT)
    case True => J.Lit(TRUE_TEXT)
    case Number(t) => J.Lit(t)
    case String(s) => J.Str(Encoded(s))
    case Raw(r) => J.Lit(r)
    case Array(items) => J.Arr([], ItemsLayout(items, format, depth + 1))
    case Object(fields) =>
      J.Obj(If(format, [LF] + Tabs(if fields.NoFields? then depth else depth + 1)),
        FieldsLayout(fields, format, depth + 1))
  }

  /** Elements are kept on one line. */
  function ItemsLayout(items: Items, format: bool, depth: nat): (r: J.Elems)
    ensures items.NoItems? <==> r.NoElems?
  {
    match items
    case NoItems => J.NoElems
    case Cons(v, rest) => J.Elem(Layout(v, format, depth), [], If(format, [SPACE]), ItemsLayout(rest, format, depth))
  }

  /** Every member has a line of its own. */
  function FieldsLayout(fields: Fields, format: bool, depth: nat): (r: J.Members)
    requires depth > 0
    ensures fields.NoFields? <==> r.NoMembers?
  {
    match fields
    case NoFields => J.NoMembers
    case Field(key, v, rest) =>
      J.Member(Encoded(key), [], If(format, [TAB]), Layout(v, format, depth),
        if rest.NoFields? then If(format, [LF] + Tabs(depth - 1)) else [],
          If(format, [LF] + Tabs(depth)), FieldsLayout(rest, format, depth))
  }

  /** What the printer writes for an item. */
  function Printed(item: Item, format: bool): Bytes {
    J.Text(Layout(item, format, 0))
  }

  /** Items made of the values of RFC 8259 only: no invalid items, no raw text, and every number a numeral. */
  predicate Plain(item: Item) {
    match item
    case Invalid => false
    case Raw(_) => false
    case Number(t) => IsNumeral(t)
    case Array(items) => PlainItems(items)
    case Object(fields) => PlainFields(fields)
    case _ => true
  }

  predicate PlainItems(items: Items) {
    match items
    case NoItems => true
    case Cons(v, rest) => Plain(v) && PlainItems(rest)
  }

  predicate PlainFields(fields: Fields) {
    match fields
    case NoFields => true
    case Field(_, v, rest) => Plain(v) && PlainFields(rest)
  }

  /** How many containers are nested in each other. */
  function Nesting(item: Item): nat {
    match item
    case Array(items) => 1 + ItemsNesting(items)
    case Object(fields) => 1 + FieldsNesting(fields)
    case _ => 0
  }

  function ItemsNesting(items: Items): nat {
    match items
    case NoItems => 0
    case Cons(v, rest) => if Nesting(v) > ItemsNesting(rest) then Nesting(v) else ItemsNesting(rest)
  }

  function FieldsNesting(fields: Fields): nat {
    match fields
    case NoFields => 0
    case Field(_, v, rest) => if Nesting(v) > FieldsNesting(rest) then Nesting(v) else FieldsNesting(rest)
  }

  /** The layout is a JSON text of RFC 8259 that denotes the item. */
  lemma {:induction false} LayoutDenotes(item: Item, format: bool, depth: nat)
    requires Plain(item)
    ensures var v := Layout(item, format, depth);
      J.ValueOk(v) && ItemOf(v) == Some(item) && Depth(v) == Nesting(item)
    decreases item
  {
    hide StrtodLength, BodyValue, J.BodyOk;
    match item
    case String(s) =>
      EncodedValue(s);
    case Number(t) =>
      R.NumeralItem(t);
      NumeralLit(t);
    case Array(items) =>
      ItemsDenote(items, format, depth + 1);
    case Object(fields) =>
      FieldsDenote(fields, format, depth + 1);
    case _ =>
  }

  lemma NumeralLit(t: Bytes)
    requires IsNumeral(t)
    ensures J.LitOk(t)
  {
    hide StrtodLength;
    forall i | 0 <= i < |t| ensures J.LitByte(t[i]) {
      assert IsNumberByte(t[i]);
    }
  }

  lemma {:induction false} ItemsDenote(items: Items, format: bool, depth: nat)
    requires PlainItems(items)
    ensures var es := ItemsLayout(items, format, depth);
      J.ElemsOk(es) && ItemsOf(es) == Some(items) && ElemsDepth(es) == ItemsNesting(items)
    decreases items
  {
    if items.Cons? {
      LayoutDenotes(items.head, format, depth);
      ItemsDenote(items.tail, format, depth);
    }
  }

  lemma {:induction false} FieldsDenote(fields: Fields, format: bool, depth: nat)
    requires PlainFields(fields) && depth > 0
    ensures var ms := FieldsLayout(fields, format, depth);
      J.MembersOk(ms) && FieldsOf(ms) == Some(fields) && MembersDepth(ms) == FieldsNesting(fields)
    decreases fields
  {
    hide BodyValue, J.BodyOk;
    if fields.Field? {
      EncodedValue(fields.key);
      LayoutDenotes(fields.value, format, depth);
      FieldsDenote(fields.rest, format, depth);
    }
  }

  predicate NoNul(s: Bytes) {
    forall i :: 0 <= i < |s| ==> s[i] != NUL
  }

  /** A JSON text of RFC 8259 holds no NUL. */
  lemma {:induction false} TextNoNul(v: J.Value)
    requires J.ValueOk(v)
    ensures NoNul(J.Text(v))
    decreases v
  {
    match v
    case Lit(t) =>
      assert forall i :: 0 <= i < |t| ==> J.LitByte(t[i]);
    case Str(raw) =>
      BodyNoNul(raw);
    case Arr(lead, es) =>
      ElemsNoNul(es);
    case Obj(lead, ms) =>
      MembersNoNul(ms);
  }

  lemma {:induction false} BodyNoNul(s: Bytes)
    requires J.BodyOk(s)
    ensures NoNul(s)
    decreases |s|
  {
    if s != [] {
      var n := if s[0] != BACKSLASH then 1 else if IsShortEscape(s[1]) then 2 else 6;
      BodyNoNul(s[n..]);
      assert s == s[..n] + s[n..];
      if n == 6 {
        assert forall i :: 2 <= i < 6 ==> IsHex(s[i]);
      }
      assert NoNul(s[..n]);
    }
  }

  lemma {:induction false} ElemsNoNul(es: J.Elems)
    requires J.ElemsOk(es)
    ensures NoNul(J.ElemsText(es))
    decreases es
  {
    if es.Elem? {
      TextNoNul(es.v);
      ElemsNoNul(es.rest);
    }
  }

  lemma {:induction false} MembersNoNul(ms: J.Members)
    requires J.MembersOk(ms)
    ensures NoNul(J.MembersText(ms))
    decreases ms
  {
    if ms.Member? {
      BodyNoNul(ms.key);
      TextNoNul(ms.v);
      MembersNoNul(ms.rest);
      MemberNoNul(J.Quoted(ms.key), ms.preColon, ms.postColon, J.Text(ms.v),
        ms.post, ms.sep, J.MembersText(ms.rest), ms.rest.NoMembers?);
    }
  }

  lemma MemberNoNul(key: Bytes, a: Bytes, b: Bytes, v: Bytes, post: Bytes, sep: Bytes, rest: Bytes, last: bool)
    requires NoNul(key) && NoNul(a) && NoNul(b) && NoNul(v) && NoNul(post) && NoNul(sep) && NoNul(rest)
    ensures NoNul(key + (a + ([COLON] + (b + (v + (post + (if last then [] else [COMMA] + (sep + rest))))))))
  {
    var tail := if last then [] else [COMMA] + (sep + rest);
    assert NoNul(tail);
    assert NoNul(v + (post + tail));
  }

  /** Parsing the formatted or unformatted print of an item gives the item back. */
  lemma RoundTrip(item: Item, format: bool)
    requires Plain(item) && Nesting(item) <= NESTING_LIMIT
    ensures NoNul(Printed(item, format))
    ensures ParseWithOpts(Printed(item, format), true) == (Some(item), |Printed(item, format)|)
  {
    var v := Layout(item, format, 0);
    LayoutDenotes(item, format, 0);
    TextNoNul(v);
    assert J.DocText(J.Doc([], v, [])) == J.Text(v);
    R.AcceptsStrict(J.Text(v), J.Doc([], v, []));
  }

  // ----- whatever has been parsed can be printed and parsed again -----

  /** What a text denotes is plain, and nested as deep as the text. */
  lemma {:induction false} DenotedPlain(v: J.Value)
    requires ItemOf(v).Some?
    ensures Plain(ItemOf(v).value) && Nesting(ItemOf(v).value) == Depth(v)
    decreases v
  {
    hide BodyValue, StrtodLength;
    match v
    case Arr(_, es) =>
      DenotedItems(es);
    case Obj(_, ms) =>
      DenotedFields(ms);
    case _ =>
  }

  lemma {:induction false} DenotedItems(es: J.Elems)
    requires ItemsOf(es).Some?
    ensures PlainItems(ItemsOf(es).value) && ItemsNesting(ItemsOf(es).value) == ElemsDepth(es)
    decreases es
  {
    hide ItemOf, Plain, Nesting, Depth;
    if es.Elem? {
      DenotedPlain(es.v);
      DenotedItems(es.rest);
    }
  }

  lemma {:induction false} DenotedFields(ms: J.Members)
    requires FieldsOf(ms).Some?
    ensures PlainFields(FieldsOf(ms).value) && FieldsNesting(FieldsOf(ms).value) == MembersDepth(ms)
    decreases ms
  {
    hide ItemOf, Plain, Nesting, Depth, BodyValue;
    if ms.Member? {
      DenotedPlain(ms.v);
      DenotedFields(ms.rest);
    }
  }

  lemma ParsedPlain(text: CString, requireTerminated: bool)
    requires ParseWithOpts(text, requireTerminated).0.Some?
    ensures var item := ParseWithOpts(text, requireTerminated).0.value; Plain(item) && Nesting(item) <= NESTING_LIMIT
  {
    hide ParseValue, ItemOf, Plain, Nesting, Depth, Skip;
    var c := text + [NUL];
    var v := R.ReadValue(c, Skip(c, Start(c)), 0);
    DenotedPlain(v);
  }

  /** Whatever has been parsed, parsing its print gives the same item again. */
  lemma ParsedRoundTrip(text: CString, requireTerminated: bool, format: bool)
    requires ParseWithOpts(text, requireTerminated).0.Some?
    ensures var item := ParseWithOpts(text, requireTerminated).0.value;
      && NoNul(Printed(item, format))
      && ParseWithOpts(Printed(item, format), true) == (Some(item), |Printed(item, format)|)
  {
    hide ParseWithOpts, Plain, Nesting, Printed;
    ParsedPlain(text, requireTerminated);
    RoundTrip(ParseWithOpts(text, requireTerminated).0.value, format);
  }
}
