/**
 * JSON texts as trees that keep their layout: every place where section 2 of RFC 8259 allows
 * white space carries the white space that stands there.
 */
module JsonText {
  import opened Ascii

  /** Any literal or number is a `Lit`; a string keeps its body undecoded. */
  datatype Value =
    | Lit(text: Bytes)
    | Str(raw: Bytes)
    | Arr(lead: Bytes, elems: Elems)
    | Obj(lead: Bytes, members: Members)

  /** `post` follows the element; `sep` follows the comma and is unused after the last element. */
  datatype Elems =
    | NoElems
    | Elem(v: Value, post: Bytes, sep: Bytes, rest: Elems)

  datatype Members =
    | NoMembers
    | Member(key: Bytes, preColon: Bytes, postColon: Bytes, v: Value, post: Bytes, sep: Bytes, rest: Members)

  datatype Doc = Doc(before: Bytes, v: Value, after: Bytes)

  function Quoted(raw: Bytes): Bytes {
    [QUOTE] + raw + [QUOTE]
  }

  function Text(v: Value): Bytes {
    match v
    case Lit(t) => t
    case Str(raw) => Quoted(raw)
    case Arr(lead, es) => [LBRACKET] + (lead + (ElemsText(es) + [RBRACKET]))
    case Obj(lead, ms) => [LBRACE] + (lead + (MembersText(ms) + [RBRACE]))
  }

  function ElemsText(es: Elems): Bytes {
    match es
    case NoElems => []
    case Elem(v, post, sep, rest) =>
      Text(v) + (post + (if rest.NoElems? then [] else [COMMA] + (sep + ElemsText(rest))))
  }

  function MembersText(ms: Members): Bytes {
    match ms
    case NoMembers => []
    case Member(key, preColon, postColon, v, post, sep, rest) =>
      Quoted(key) + (preColon + ([COLON] + (postColon + (Text(v) + (post +
        (if rest.NoMembers? then [] else [COMMA] + (sep + MembersText(rest))))))))
  }

  function DocText(d: Doc): Bytes {
    d.before + (Text(d.v) + d.after)
  }

  /** The body of a string: plain bytes and well-formed escapes (section 7 of RFC 8259). */
  predicate BodyOk(s: Bytes) {
    if s == [] then true
    else if s[0] == QUOTE || s[0] == NUL then false
    else if s[0] != BACKSLASH then BodyOk(s[1..])
    else if |s| < 2 then false
    else if IsShortEscape(s[1]) then BodyOk(s[2..])
    else s[1] == LOWER_U && |s| >= 6 && (forall i :: 2 <= i < 6 ==> IsHex(s[i])) && BodyOk(s[6..])
  }

  predicate LitByte(b: Byte) {
    33 <= b < 127 && b != COMMA && b != COLON && b != RBRACKET && b != RBRACE
  }

  /** Covers every number and literal name of RFC 8259. */
  predicate LitOk(t: Bytes) {
    |t| > 0 && t[0] != QUOTE && t[0] != LBRACKET && t[0] != LBRACE && forall i :: 0 <= i < |t| ==> LitByte(t[i])
  }

  predicate ValueOk(v: Value) {
    match v
    case Lit(t) => LitOk(t)
    case Str(raw) => BodyOk(raw)
    case Arr(lead, es) => AllBlank(lead) && ElemsOk(es)
    case Obj(lead, ms) => AllBlank(lead) && MembersOk(ms)
  }

  predicate ElemsOk(es: Elems) {
    match es
    case NoElems => true
    case Elem(v, post, sep, rest) => ValueOk(v) && AllBlank(post) && AllBlank(sep) && ElemsOk(rest)
  }

  predicate MembersOk(ms: Members) {
    match ms
    case NoMembers => true
    case Member(key, preColon, postColon, v, post, sep, rest) =>
      BodyOk(key) && AllBlank(preColon) && AllBlank(postColon) && ValueOk(v)
        && AllBlank(post) && AllBlank(sep) && MembersOk(rest)
  }

  predicate DocOk(d: Doc) {
    AllBlank(d.before) && ValueOk(d.v) && AllBlank(d.after)
  }

  function ElemCount(es: Elems): nat {
    match es
    case NoElems => 0
    case Elem(_, _, _, rest) => 1 + ElemCount(rest)
  }

  function MemberCount(ms: Members): nat {
    match ms
    case NoMembers => 0
    case Member(_, _, _, _, _, _, rest) => 1 + MemberCount(rest)
  }

  /** Where the contents of an array stand. */
  lemma ArrayAt(js: Bytes, v: Value, at: nat)
    requires v.Arr? && At(js, at, Text(v))
    ensures at < |js| && js[at] == LBRACKET && At(js, at + 1, v.lead)
    ensures At(js, at + 1 + |v.lead|, ElemsText(v.elems) + [RBRACKET]) && At(js, at + 1 + |v.lead|, ElemsText(v.elems))
  {
    var body := ElemsText(v.elems) + [RBRACKET];
    AtHead(js, at, LBRACKET, v.lead + body);
    AtSplit(js, at + 1, v.lead, body);
    AtSplit(js, at + 1 + |v.lead|, ElemsText(v.elems), [RBRACKET]);
  }

  lemma ObjectAt(js: Bytes, v: Value, at: nat)
    requires v.Obj? && At(js, at, Text(v))
    ensures at < |js| && js[at] == LBRACE && At(js, at + 1, v.lead)
    ensures At(js, at + 1 + |v.lead|, MembersText(v.members) + [RBRACE])
    ensures At(js, at + 1 + |v.lead|, MembersText(v.members))
  {
    var body := MembersText(v.members) + [RBRACE];
    AtHead(js, at, LBRACE, v.lead + body);
    AtSplit(js, at + 1, v.lead, body);
    AtSplit(js, at + 1 + |v.lead|, MembersText(v.members), [RBRACE]);
  }

  /** Where the parts of an element list stand. */
  lemma ElemAt(js: Bytes, es: Elems, at: nat)
    requires es.Elem? && At(js, at, ElemsText(es))
    ensures At(js, at, Text(es.v))
    ensures es.rest.Elem? ==> At(js, at + |Text(es.v)| + |es.post| + 1 + |es.sep|, ElemsText(es.rest))
  {
    var tail := if es.rest.NoElems? then [] else [COMMA] + (es.sep + ElemsText(es.rest));
    var next := at + |Text(es.v)| + |es.post|;
    AtSplit(js, at, Text(es.v), es.post + tail);
    AtSplit(js, at + |Text(es.v)|, es.post, tail);
    if es.rest.Elem? {
      AtHead(js, next, COMMA, es.sep + ElemsText(es.rest));
      AtSplit(js, next + 1, es.sep, ElemsText(es.rest));
    }
  }

  /** Where the value of the first member starts. */
  function ValueAt(ms: Members, at: nat): nat
    requires ms.Member?
  {
    at + |ms.key| + 2 + |ms.preColon| + 1 + |ms.postColon|
  }

  /** Where the parts of a member list stand. */
  lemma MemberAt(js: Bytes, ms: Members, at: nat)
    requires ms.Member? && At(js, at, MembersText(ms))
    ensures At(js, at, Quoted(ms.key)) && At(js, ValueAt(ms, at), Text(ms.v))
    ensures ms.rest.Member? ==>
      At(js, ValueAt(ms, at) + |Text(ms.v)| + |ms.post| + 1 + |ms.sep|, MembersText(ms.rest))
  {
    var tail := if ms.rest.NoMembers? then [] else [COMMA] + (ms.sep + MembersText(ms.rest));
    var r3 := Text(ms.v) + (ms.post + tail);
    var r2 := ms.postColon + r3;
    var colon := at + |ms.key| + 2 + |ms.preColon|;
    AtSplit(js, at, Quoted(ms.key), ms.preColon + ([COLON] + r2));
    AtSplit(js, at + |ms.key| + 2, ms.preColon, [COLON] + r2);
    AtHead(js, colon, COLON, r2);
    AtSplit(js, colon + 1, ms.postColon, r3);
    AtSplit(js, ValueAt(ms, at), Text(ms.v), ms.post + tail);
    var next := ValueAt(ms, at) + |Text(ms.v)| + |ms.post|;
    AtSplit(js, ValueAt(ms, at) + |Text(ms.v)|, ms.post, tail);
    if ms.rest.Member? {
      AtHead(js, next, COMMA, ms.sep + MembersText(ms.rest));
      AtSplit(js, next + 1, ms.sep, MembersText(ms.rest));
    }
  }
}
