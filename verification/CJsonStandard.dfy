/** Which documents of RFC 8259 the cJSON parser reads, and what their strings say. */
module CJsonStandard {
  import opened Ascii
  import opened CJsonItem
  import opened CJsonParse
  import opened CJsonRead
  import J = JsonText

  predicate IsHigh(u: nat) {
    0xD800 <= u <= 0xDBFF
  }

  predicate IsLow(u: nat) {
    0xDC00 <= u <= 0xDFFF
  }

  /** The UTF-16 code unit of the \u escape that starts a string body. */
  function Unit(raw: Bytes): (r: nat)
    requires |raw| >= 6 && forall i :: 2 <= i < 6 ==> IsHex(raw[i])
    ensures r < 0x1_0000
  {
    0x1000 * HexValue(raw[2]) + 0x100 * HexValue(raw[3]) + 0x10 * HexValue(raw[4]) + HexValue(raw[5])
  }

  /**
   * The bytes that a string body says, section 7 of RFC 8259, in UTF-8; None if a surrogate stands without its
   * partner.
   */
  function Said(raw: Bytes): Option<Bytes>
    requires J.BodyOk(raw)
  {
    if raw == [] then Some([])
    else if raw[0] != BACKSLASH then Led([raw[0]], Said(raw[1..]))
    else if raw[1] != LOWER_U then Led([Unescaped(raw[1])], Said(raw[2..]))
    else
      var (u, next) := (Unit(raw), raw[6..]);
      if IsLow(u) then None
      else if !IsHigh(u) then Led(Utf8(u), Said(next))
      else if next == [] || next[0] != BACKSLASH || next[1] != LOWER_U || !IsLow(Unit(next)) then None
      else Led(Utf8(SurrogatePair(u, Unit(next))), Said(next[6..]))
  }

  function Led(s: Bytes, rest: Option<Bytes>): Option<Bytes> {
    if rest.None? then None else Some(s + rest.value)
  }

  /** The second pass of parse_string decodes every string body of RFC 8259 as what it says. */
  lemma {:induction false} DecodeSaid(c: Bytes, p: nat, raw: Bytes)
    requires J.BodyOk(raw) && At(c, p, raw) && p + |raw| < |c|
    ensures Decode(c, p, p + |raw|).0 == Said(raw)
    decreases |raw|
  {
    if raw != [] {
      AtIndex(c, p, raw);
      assert c[p + 0] == raw[0];
      if raw[0] != BACKSLASH {
        AtSuffix(c, p, raw, 1);
        DecodeSaid(c, p + 1, raw[1..]);
      } else if raw[1] != LOWER_U {
        assert c[p + 1] == raw[1];
        AtSuffix(c, p, raw, 2);
        DecodeSaid(c, p + 2, raw[2..]);
      } else {
        UnicodeSaid(c, p, raw);
      }
    }
  }

  lemma HexAt(c: Bytes, p: nat, raw: Bytes)
    requires At(c, p, raw) && |raw| >= 6 && forall i :: 2 <= i < 6 ==> IsHex(raw[i])
    ensures p + 6 <= |c| && c[p] == raw[0] && c[p + 1] == raw[1] && Hex4(c, p + 2) == Unit(raw)
  {
    AtIndex(c, p, raw);
    assert c[p + 0] == raw[0] && c[p + 1] == raw[1];
    assert c[p + 2] == raw[2] && c[p + 3] == raw[3] && c[p + 4] == raw[4] && c[p + 5] == raw[5];
  }

  lemma {:induction false} UnicodeSaid(c: Bytes, p: nat, raw: Bytes)
    requires J.BodyOk(raw) && At(c, p, raw) && p + |raw| < |c|
    requires raw != [] && raw[0] == BACKSLASH && raw[1] == LOWER_U
    ensures Decode(c, p, p + |raw|).0 == Said(raw)
    decreases |raw|, 0
  {
    hide At, Utf8, Unit, Hex4, SurrogatePair;
    HexAt(c, p, raw);
    AtSuffix(c, p, raw, 6);
    var u, next := Unit(raw), raw[6..];
    if !IsLow(u) && !IsHigh(u) {
      DecodeSaid(c, p + 6, next);
    } else if IsHigh(u) && next != [] {
      AtIndex(c, p + 6, next);
      assert c[p + 6 + 0] == next[0] && (|next| > 1 ==> c[p + 6 + 1] == next[1]);
      if next[0] == BACKSLASH && next[1] == LOWER_U {
        HexAt(c, p + 6, next);
        if IsLow(Unit(next)) {
          AtSuffix(c, p + 6, next, 6);
          DecodeSaid(c, p + 12, next[6..]);
        }
      }
    }
  }

  /** A string body of RFC 8259 denotes what it says up to the first NUL, if its surrogates are paired. */
  lemma BodySaid(raw: Bytes)
    requires J.BodyOk(raw)
    ensures BodyValue(raw) == if Said(raw).None? then None else Some(Before(Said(raw).value))
  {
    var c := raw + [QUOTE];
    AtIndex(c, 0, c);
    AtSplit(c, 0, raw, [QUOTE]);
    BodyCloses(c, 0, raw);
    DecodeSaid(c, 0, raw);
  }

  // ----- documents -----

  /** A value of RFC 8259: literal names, numbers, and strings whose escapes are well formed. */
  predicate Standard(v: J.Value) {
    match v
    case Lit(t) => t in {NULL_TEXT, FALSE_TEXT, TRUE_TEXT} || IsNumber(t)
    case Str(raw) => J.BodyOk(raw)
    case Arr(_, es) => StandardElems(es)
    case Obj(_, ms) => StandardMembers(ms)
  }

  predicate StandardElems(es: J.Elems) {
    match es
    case NoElems => true
    case Elem(v, _, _, rest) => Standard(v) && StandardElems(rest)
  }

  predicate StandardMembers(ms: J.Members) {
    match ms
    case NoMembers => true
    case Member(key, _, _, v, _, _, rest) => J.BodyOk(key) && Standard(v) && StandardMembers(rest)
  }

  /** What a value needs to be read: numbers of at most 63 bytes, and no surrogate without its partner. */
  predicate Readable(v: J.Value)
    requires Standard(v)
  {
    match v
    case Lit(t) => |t| <= 63
    case Str(raw) => Said(raw).Some?
    case Arr(_, es) => ReadableElems(es)
    case Obj(_, ms) => ReadableMembers(ms)
  }

  predicate ReadableElems(es: J.Elems)
    requires StandardElems(es)
  {
    match es
    case NoElems => true
    case Elem(v, _, _, rest) => Readable(v) && ReadableElems(rest)
  }

  predicate ReadableMembers(ms: J.Members)
    requires StandardMembers(ms)
  {
    match ms
    case NoMembers => true
    case Member(key, _, _, v, _, _, rest) => Said(key).Some? && Readable(v) && ReadableMembers(rest)
  }

  /** A value of RFC 8259 denotes an item exactly if its numbers are short and its surrogates paired. */
  lemma {:induction false} ReadableDenotes(v: J.Value)
    requires Standard(v)
    ensures ItemOf(v).Some? <==> Readable(v)
    decreases v
  {
    hide BodyValue, Said, StrtodLength;
    match v
    case Lit(t) =>
      if IsNumber(t) && |t| <= NUMBER_LIMIT {
        NumberWhole(t);
      }
    case Str(raw) => BodySaid(raw);
    case Arr(_, es) => ReadableElemsDenote(es);
    case Obj(_, ms) => ReadableMembersDenote(ms);
  }

  lemma {:induction false} ReadableElemsDenote(es: J.Elems)
    requires StandardElems(es)
    ensures ItemsOf(es).Some? <==> ReadableElems(es)
    decreases es
  {
    if es.Elem? {
      ReadableDenotes(es.v);
      ReadableElemsDenote(es.rest);
    }
  }

  lemma {:induction false} ReadableMembersDenote(ms: J.Members)
    requires StandardMembers(ms)
    ensures FieldsOf(ms).Some? <==> ReadableMembers(ms)
    decreases ms
  {
    hide BodyValue, Said;
    if ms.Member? {
      BodySaid(ms.key);
      ReadableDenotes(ms.v);
      ReadableMembersDenote(ms.rest);
    }
  }

  /**
   * Every document of RFC 8259 whose numbers have at most 63 bytes, whose surrogates are paired and that is nested
   * at most 1000 deep is parsed to its end as the item it denotes.
   */
  lemma AcceptsJson(text: CString, d: J.Doc)
    requires text == J.DocText(d) && J.DocOk(d) && Standard(d.v) && Readable(d.v) && Depth(d.v) <= 1000
    ensures ItemOf(d.v).Some? && ParseWithOpts(text, true) == (ItemOf(d.v), |text|)
  {
    ReadableDenotes(d.v);
    AcceptsStrict(text, d);
  }
}
