/**
 * The parser accepts exactly the texts that denote an item nested at most NESTING_LIMIT deep: with any
 * control bytes as white space, and any numeral that strtod takes whole.
 */
module CJsonRead {
  import opened Ascii
  import opened CJsonItem
  import opened CJsonParse
  import J = JsonText

  /** Control characters and blanks. */
  predicate Skipped(s: Bytes) {
    forall i :: 0 <= i < |s| ==> 1 <= s[i] <= 32
  }

  /** The layout is one that the parser passes over. */
  predicate Loose(v: J.Value) {
    match v
    case Lit(_) => true
    case Str(_) => true
    case Arr(lead, es) => Skipped(lead) && LooseElems(es)
    case Obj(lead, ms) => Skipped(lead) && LooseMembers(ms)
  }

  predicate LooseElems(es: J.Elems) {
    match es
    case NoElems => true
    case Elem(v, post, sep, rest) => Loose(v) && Skipped(post) && Skipped(sep) && LooseElems(rest)
  }

  predicate LooseMembers(ms: J.Members) {
    match ms
    case NoMembers => true
    case Member(key, preColon, postColon, v, post, sep, rest) =>
      Skipped(preColon) && Skipped(postColon) && Loose(v) && Skipped(post) && Skipped(sep) && LooseMembers(rest)
  }

  predicate LooseDoc(d: J.Doc) {
    Skipped(d.before) && Loose(d.v) && Skipped(d.after)
  }

  // ----- the layout of RFC 8259 is one of them -----

  lemma {:induction false} StrictIsLoose(v: J.Value)
    requires J.ValueOk(v)
    ensures Loose(v)
    decreases v
  {
    match v
    case Lit(_) =>
    case Str(_) =>
    case Arr(lead, es) => StrictElems(es);
    case Obj(lead, ms) => StrictMembers(ms);
  }

  lemma {:induction false} StrictElems(es: J.Elems)
    requires J.ElemsOk(es)
    ensures LooseElems(es)
    decreases es
  {
    if es.Elem? {
      StrictIsLoose(es.v);
      StrictElems(es.rest);
    }
  }

  lemma {:induction false} StrictMembers(ms: J.Members)
    requires J.MembersOk(ms)
    ensures LooseMembers(ms)
    decreases ms
  {
    if ms.Member? {
      StrictIsLoose(ms.v);
      StrictMembers(ms.rest);
    }
  }

  // ----- bodies and white space do not depend on what surrounds them -----

  /** `w` stands at `p` in one buffer and at `q` in another; its last byte is where a body ends. */
  lemma {:induction false} BodyEndLocal(c: Bytes, p: nat, d: Bytes, q: nat, w: Bytes)
    requires At(c, p, w) && At(d, q, w) && |w| > 0 && BodyEnd(c, p) == Some(p + |w| - 1)
    ensures BodyEnd(d, q) == Some(q + |w| - 1)
    decreases |w|
  {
    AtIndex(c, p, w);
    AtIndex(d, q, w);
    if c[p] != QUOTE {
      var k := if c[p] == BACKSLASH then 2 else 1;
      AtSuffix(c, p, w, k);
      AtSuffix(d, q, w, k);
      BodyEndLocal(c, p + k, d, q + k, w[k..]);
    }
  }

  lemma Utf16Local(c: Bytes, p: nat, d: Bytes, q: nat, w: Bytes)
    requires At(c, p, w) && At(d, q, w) && |w| > 1
    ensures p + |w| <= |c| && q + |w| <= |d| && Utf16(c, p, p + |w| - 1) == Utf16(d, q, q + |w| - 1)
  {
    AtIndex(c, p, w);
    AtIndex(d, q, w);
    if |w| >= 7 {
      Hex4Local(c, p, d, q, w, 2);
      if |w| >= 13 {
        Hex4Local(c, p, d, q, w, 8);
        assert c[p + 6] == w[6] && c[p + 7] == w[7] && d[q + 6] == w[6] && d[q + 7] == w[7];
      }
    }
    hide At, Hex4, SurrogatePair;
  }

  lemma Hex4Local(c: Bytes, p: nat, d: Bytes, q: nat, w: Bytes, k: nat)
    requires At(c, p, w) && At(d, q, w) && k + 4 <= |w|
    ensures p + k + 4 <= |c| && q + k + 4 <= |d| && Hex4(c, p + k) == Hex4(d, q + k)
  {
    AtIndex(c, p, w);
    AtIndex(d, q, w);
    assert c[p + k] == w[k] && c[p + (k + 1)] == w[k + 1] && c[p + (k + 2)] == w[k + 2] && c[p + (k + 3)] == w[k + 3];
    assert d[q + k] == w[k] && d[q + (k + 1)] == w[k + 1] && d[q + (k + 2)] == w[k + 2] && d[q + (k + 3)] == w[k + 3];
  }

  lemma {:induction false} DecodeLocal(c: Bytes, p: nat, d: Bytes, q: nat, w: Bytes)
    requires At(c, p, w) && At(d, q, w) && |w| > 0 && p + |w| <= |c| && q + |w| <= |d|
    ensures Decode(c, p, p + |w| - 1).0 == Decode(d, q, q + |w| - 1).0
    decreases |w|
  {
    if |w| > 1 {
      assert c[p + 1] == w[1..][0] && d[q + 1] == w[1..][0];
      var k := if c[p] != BACKSLASH then 1 else if IsShortEscape(c[p + 1]) then 2 else Utf16(c, p, p + |w| - 1).0;
      Utf16Local(c, p, d, q, w);
      if 0 < k < |w| {
        AtSuffix(c, p, w, k);
        AtSuffix(d, q, w, k);
        DecodeLocal(c, p + k, d, q + k, w[k..]);
      }
    }
  }

  lemma QuotedAt(c: Bytes, p: nat, raw: Bytes)
    ensures At(c, p, J.Quoted(raw)) <==> p < |c| && c[p] == QUOTE && At(c, p + 1, raw + [QUOTE])
  {
    assert J.Quoted(raw) == [QUOTE] + (raw + [QUOTE]);
    assert J.Quoted(raw)[1..] == raw + [QUOTE];
  }

  /** The body that stands behind a quote is read wherever it stands. */
  lemma BodyRead(c: Bytes, p: nat, w: Bytes)
    requires At(c, p, w) && |w| > 0
    ensures p + |w| <= |c|
    ensures BodyEnd(c, p) == Some(p + |w| - 1) <==> BodyEnd(w, 0) == Some(|w| - 1)
    ensures Decode(c, p, p + |w| - 1).0 == Decode(w, 0, |w| - 1).0
  {
    AtSelf(w);
    AtEnd(c, p, w);
    if BodyEnd(c, p) == Some(p + |w| - 1) {
      BodyEndLocal(c, p, w, 0, w);
    }
    if BodyEnd(w, 0) == Some(|w| - 1) {
      BodyEndLocal(w, 0, c, p, w);
    }
    DecodeLocal(c, p, w, 0, w);
  }

  lemma AtEnd(c: Bytes, p: nat, w: Bytes)
    requires At(c, p, w)
    ensures p + |w| <= |c|
  {
    AtIndex(c, p, w);
  }

  /** A string of the text is read as the body between its quotes says. */
  lemma StringRead(c: Bytes, p: nat, raw: Bytes, depth: nat)
    requires Terminated(c) && At(c, p, J.Quoted(raw)) && BodyValue(raw).Some?
    ensures p + |raw| + 2 <= |c| && c[p] == QUOTE
    ensures ParseString(c, p, depth) == Ok(BodyValue(raw).value, p + |raw| + 2)
  {
    hide At, J.Quoted, Terminated, BodyEnd, Decode, Before;
    QuotedAt(c, p, raw);
    BodyRead(c, p + 1, raw + [QUOTE]);
  }

  /** A string that is read stands in the text between quotes. */
  lemma ReadString(c: Bytes, p: nat, depth: nat) returns (raw: Bytes)
    requires p < |c| && Terminated(c) && ParseString(c, p, depth).Ok?
    ensures At(c, p, J.Quoted(raw)) && BodyValue(raw).Some?
    ensures ParseString(c, p, depth) == Ok(BodyValue(raw).value, p + |raw| + 2)
  {
    var end := BodyEnd(c, p + 1).value;
    raw := c[p + 1..end];
    Closed(c, p + 1, raw);
    QuotedAt(c, p, raw);
    BodyRead(c, p + 1, raw + [QUOTE]);
  }

  lemma Closed(c: Bytes, p: nat, raw: Bytes)
    requires p + |raw| < |c| && raw == c[p..p + |raw|] && c[p + |raw|] == QUOTE
    ensures At(c, p, raw + [QUOTE])
  {
    AtIndex(c, p, raw + [QUOTE]);
  }

  /** White space up to a byte that is none is passed over exactly. */
  lemma SkipOver(c: Bytes, p: nat, blank: Bytes)
    requires At(c, p, blank) && Skipped(blank) && p + |blank| < |c| && !IsSkipped(c[p + |blank|])
    ensures Skip(c, p) == p + |blank|
  {
    RunOver(c, p, blank);
  }

  lemma {:induction false} RunOver(c: Bytes, p: nat, blank: Bytes)
    requires At(c, p, blank) && Skipped(blank) && p + |blank| <= |c|
    ensures SkipRun(c, p) == SkipRun(c, p + |blank|)
    decreases |blank|
  {
    if blank != [] {
      assert IsSkipped(blank[0]);
      RunOver(c, p + 1, blank[1..]);
    }
  }

  /** White space up to the terminator is passed over exactly, by stepping back. */
  lemma SkipToEnd(c: Bytes, p: nat, blank: Bytes)
    requires Terminated(c) && At(c, p, blank) && Skipped(blank) && p + |blank| == |c| - 1
    ensures Skip(c, p) == |c| - 1
  {
    RunOver(c, p, blank);
  }

  /** What Skip passes over. */
  lemma SkippedAt(c: Bytes, p: nat) returns (blank: Bytes)
    requires p < |c| && Terminated(c)
    ensures Skipped(blank) && At(c, p, blank) && Skip(c, p) == p + |blank|
    ensures c[p + |blank|] == NUL || !IsSkipped(c[p + |blank|])
  {
    blank := c[p..Skip(c, p)];
    AtIndex(c, p, blank);
  }

  // ----- numbers -----

  lemma {:induction false} DigitsPrefix(s: Bytes, i: nat, n: nat)
    requires i <= |s| && DigitsEnd(s, i) <= n <= |s|
    ensures DigitsEnd(s[..n], i) == DigitsEnd(s, i)
    decreases |s| - i
  {
    if i < |s| && IsDigit(s[i]) {
      DigitsPrefix(s, i + 1, n);
    }
  }

  lemma PointPrefix(s: Bytes, i: nat, n: nat)
    requires i <= |s| && PointEnd(s, i) <= n <= |s|
    ensures PointEnd(s[..n], i) == PointEnd(s, i)
  {
    if i < |s| && s[i] == POINT {
      DigitsPrefix(s, i + 1, n);
    }
  }

  lemma ExponentPrefix(s: Bytes, i: nat)
    requires i <= |s|
    ensures ExponentEnd(s[..ExponentEnd(s, i)], i) == ExponentEnd(s, i)
  {
    var n := ExponentEnd(s, i);
    if n > i {
      var d := if i + 1 < |s| && IsSign(s[i + 1]) then i + 2 else i + 1;
      DigitsPrefix(s, d, n);
    }
  }

  /** strtod takes the same from a text that ends where it stopped. */
  lemma StrtodPrefix(s: Bytes)
    requires StrtodLength(s) > 0
    ensures StrtodLength(s[..StrtodLength(s)]) == StrtodLength(s)
  {
    var n := StrtodLength(s);
    var a := if |s| > 0 && IsSign(s[0]) then 1 else 0;
    var b := DigitsEnd(s, a);
    DigitsPrefix(s, a, n);
    PointPrefix(s, b, n);
    ExponentPrefix(s, PointEnd(s, b));
  }

  lemma NumberRead(c: Bytes, p: nat, t: Bytes, depth: nat)
    requires Terminated(c) && At(c, p, t) && IsNumeral(t) && p + |t| < |c| && !IsNumberByte(c[p + |t|])
    ensures ParseNumber(c, p, depth) == Ok(Number(t), p + |t|)
  {
    hide StrtodLength, ParseNumber, Terminated;
    SpanIs(c, p, t, NUMBER_LIMIT);
    AtSlice(c, p, t);
    NumberStep(c, p, depth, |t|, |t|);
  }

  lemma NumberStep(c: Bytes, p: nat, depth: nat, m: nat, n: nat)
    requires Terminated(c) && p + m < |c| && NumberSpan(c, p, NUMBER_LIMIT) == m && StrtodLength(c[p..p + m]) == n > 0
    ensures n <= m && ParseNumber(c, p, depth) == Ok(Number(c[p..p + n]), p + n)
  {
    hide StrtodLength, Terminated;
  }

  lemma AtSlice(c: Bytes, p: nat, t: Bytes)
    requires At(c, p, t)
    ensures p + |t| <= |c| && c[p..p + |t|] == t
  {
    AtIndex(c, p, t);
  }

  lemma {:induction false} SpanIs(c: Bytes, p: nat, t: Bytes, room: nat)
    requires At(c, p, t) && (forall i :: 0 <= i < |t| ==> IsNumberByte(t[i])) && |t| <= room
    requires p + |t| < |c| && !IsNumberByte(c[p + |t|])
    ensures NumberSpan(c, p, room) == |t|
    decreases |t|
  {
    if t != [] {
      assert IsNumberByte(t[0]);
      SpanIs(c, p + 1, t[1..], room - 1);
    }
  }

  lemma LitRead(c: Bytes, p: nat, t: Bytes, depth: nat)
    requires Terminated(c) && At(c, p, t) && LitItem(t).Some? && Stops(c, p + |t|) && depth <= NESTING_LIMIT
    ensures ParseValue(c, p, depth) == Ok(LitItem(t).value, p + |t|) && !IsSkipped(c[p])
  {
    if t == FALSE_TEXT || t == TRUE_TEXT || t == NULL_TEXT {
      assert c[p] == t[0];
    } else {
      assert c[p] == t[0];
      NumberRead(c, p, t, depth);
    }
  }

  lemma PrefixNumeral(s: Bytes)
    requires |s| <= NUMBER_LIMIT && StrtodLength(s) > 0 && (IsDigit(s[0]) || s[0] == MINUS)
    requires forall i :: 0 <= i < |s| ==> IsNumberByte(s[i])
    ensures IsNumeral(s[..StrtodLength(s)])
  {
    StrtodPrefix(s);
  }

  lemma Reslice(c: Bytes, p: nat, m: nat, n: nat)
    requires n <= m && p + m <= |c|
    ensures c[p..p + m][..n] == c[p..p + n] && At(c, p, c[p..p + n])
  {
    AtIndex(c, p, c[p..p + n]);
  }

  lemma NumeralItem(t: Bytes)
    requires IsNumeral(t)
    ensures LitItem(t) == Some(Number(t))
  {
    hide StrtodLength;
    assert NULL_TEXT[0] == 110 && FALSE_TEXT[0] == 102 && TRUE_TEXT[0] == 116;
  }

  lemma NumeralAt(c: Bytes, p: nat, m: nat, n: nat)
    requires p + m <= |c| && 0 < n <= m <= NUMBER_LIMIT && StrtodLength(c[p..p + m]) == n
      && (c[p] == MINUS || IsDigit(c[p]))
    requires forall k :: p <= k < p + m ==> IsNumberByte(c[k])
    ensures IsNumeral(c[p..p + n])
  {
    hide StrtodLength, IsNumeral;
    Reslice(c, p, m, n);
    PrefixNumeral(c[p..p + m]);
  }

  lemma SliceAt(c: Bytes, p: nat, n: nat)
    requires p + n <= |c|
    ensures At(c, p, c[p..p + n])
  {
    AtIndex(c, p, c[p..p + n]);
  }

  /** A number that is read is a numeral of the text. */
  lemma ReadNumber(c: Bytes, p: nat, depth: nat) returns (t: Bytes)
    requires p < |c| && Terminated(c) && ParseNumber(c, p, depth).Ok? && (c[p] == MINUS || IsDigit(c[p]))
    ensures At(c, p, t) && IsNumeral(t) && LitItem(t) == Some(Number(t))
    ensures ParseNumber(c, p, depth) == Ok(Number(t), p + |t|)
  {
    var m := NumberSpan(c, p, NUMBER_LIMIT);
    var n := StrtodLength(c[p..p + m]);
    t := c[p..p + n];
    SpanEnds(c, p, NUMBER_LIMIT);
    SpanBytes(c, p, NUMBER_LIMIT);
    NumberStep(c, p, depth, m, n);
    hide StrtodLength, IsNumeral, LitItem, ParseNumber, Terminated, NumberSpan;
    NumeralAt(c, p, m, n);
    NumeralItem(t);
    SliceAt(c, p, n);
  }

  // ----- every text that denotes an item is read as that item -----

  /** `q` is where a value may end: no number byte stands there. */
  predicate Stops(c: Bytes, q: nat) {
    q < |c| && !IsNumberByte(c[q])
  }

  lemma LayoutStops(c: Bytes, q: nat, blank: Bytes)
    requires Skipped(blank) && At(c, q, blank) && Stops(c, q + |blank|)
    ensures Stops(c, q)
  {
  }

  /** A value starts with a byte that is neither passed over nor the end of a container. */
  lemma ValueStarts(c: Bytes, p: nat, v: J.Value)
    requires At(c, p, J.Text(v)) && ItemOf(v).Some?
    ensures p < |c| && !IsSkipped(c[p]) && c[p] != RBRACKET && c[p] != RBRACE && c[p] < 128
  {
    hide StrtodLength;
    assert NULL_TEXT[0] == 110 && FALSE_TEXT[0] == 102 && TRUE_TEXT[0] == 116;
    assert c[p] == J.Text(v)[0];
  }

  /** What follows an element or member: its trailing white space, then a comma or the end of the container. */
  lemma Trailing(c: Bytes, q: nat, post: Bytes, tail: Bytes, b: Byte)
    requires At(c, q, post + tail) && Skipped(post) && q + |post| < |c|
      && c[q + |post|] == b && (b == COMMA || b == RBRACKET || b == RBRACE)
    ensures Stops(c, q) && Skip(c, q) == q + |post|
  {
    AtSplit(c, q, post, tail);
    SkipOver(c, q, post);
    LayoutStops(c, q, post);
  }

  lemma CommaAt(c: Bytes, q: nat, post: Bytes, sep: Bytes, rest: Bytes)
    requires At(c, q, post + ([COMMA] + (sep + rest)))
    ensures At(c, q, post) && q + |post| + 1 + |sep| + |rest| <= |c| && c[q + |post|] == COMMA
    ensures At(c, q + |post| + 1, sep) && At(c, q + |post| + 1 + |sep|, rest)
  {
    AtSplit(c, q, post, [COMMA] + (sep + rest));
    AtHead(c, q + |post|, COMMA, sep + rest);
    AtSplit(c, q + |post| + 1, sep, rest);
    AtEnd(c, q + |post| + 1 + |sep|, rest);
  }

  lemma CommaSkips(c: Bytes, q: nat, post: Bytes, sep: Bytes)
    requires Skipped(post) && Skipped(sep) && At(c, q, post) && At(c, q + |post| + 1, sep)
    requires q + |post| + 1 + |sep| < |c| && c[q + |post|] == COMMA && !IsSkipped(c[q + |post| + 1 + |sep|])
    ensures Stops(c, q) && Skip(c, q) == q + |post| && Skip(c, q + |post| + 1) == q + |post| + 1 + |sep|
  {
    SkipOver(c, q, post);
    LayoutStops(c, q, post);
    SkipOver(c, q + |post| + 1, sep);
  }

  lemma {:induction false} ValueRead(c: Bytes, p: nat, v: J.Value, depth: nat)
    requires Terminated(c) && At(c, p, J.Text(v)) && Loose(v) && ItemOf(v).Some? && Stops(c, p + |J.Text(v)|)
    requires depth + Depth(v) <= NESTING_LIMIT
    ensures p < |c| && ParseValue(c, p, depth) == Ok(ItemOf(v).value, p + |J.Text(v)|)
    decreases v, 1
  {
    hide ParseValue, LitItem, BodyValue, Terminated, Stops;
    ValueStarts(c, p, v);
    match v
    case Lit(t) =>
      LitRead(c, p, t, depth);
    case Str(raw) =>
      StringRead(c, p, raw, depth);
      ValueStep(c, p, depth);
    case Arr(_, _) =>
      ArrayRead(c, p, v, depth);
    case Obj(_, _) =>
      ObjectRead(c, p, v, depth);
  }

  /** How parse_value goes on from the first byte. */
  lemma ValueStep(c: Bytes, p: nat, depth: nat)
    requires p < |c| && Terminated(c) && depth <= NESTING_LIMIT
    ensures c[p] == QUOTE ==> ParseValue(c, p, depth) == Stringed(ParseString(c, p, depth))
    ensures c[p] == LBRACKET ==> ParseValue(c, p, depth) == ParseArray(c, p, depth)
    ensures c[p] == LBRACE ==> ParseValue(c, p, depth) == ParseObject(c, p, depth)
  {
    assert NULL_TEXT[0] == 110 && FALSE_TEXT[0] == 102 && TRUE_TEXT[0] == 116;
  }

  lemma {:induction false} ArrayRead(c: Bytes, p: nat, v: J.Value, depth: nat)
    requires v.Arr? && Terminated(c) && At(c, p, J.Text(v)) && Loose(v) && ItemOf(v).Some?
    requires depth + Depth(v) <= NESTING_LIMIT
    ensures p < |c| && ParseValue(c, p, depth) == Ok(ItemOf(v).value, p + |J.Text(v)|)
    decreases v, 0
  {
    hide ParseValue, ParseArray, ParseElems, Terminated, J.ElemsText, Skip;
    var es, at := v.elems, p + 1 + |v.lead|;
    J.ArrayAt(c, v, p);
    AtSplit(c, at, J.ElemsText(es), [RBRACKET]);
    ValueStep(c, p, depth);
    if es.Elem? {
      ElemStarts(c, at, es);
      SkipOver(c, p + 1, v.lead);
      SkipOver(c, at, []);
      ElemsRead(c, at - 1, at, es, depth + 1);
      ArrayStep(c, p, depth, at, ItemsOf(es).value, at + |J.ElemsText(es)|);
    } else {
      assert J.ElemsText(es) == [] by { hide *; EmptyElems(es); }
      SkipOver(c, p + 1, v.lead);
      EmptyArrayStep(c, p, depth, at);
    }
  }

  lemma EmptyElems(es: J.Elems)
    requires es.NoElems?
    ensures J.ElemsText(es) == []
  {
  }

  lemma EmptyArrayStep(c: Bytes, p: nat, depth: nat, at: nat)
    requires Terminated(c) && p + 1 < |c| && c[p] == LBRACKET && depth < NESTING_LIMIT && Skip(c, p + 1) == at
    requires c[at] == RBRACKET
    ensures ParseArray(c, p, depth) == Ok(Array(NoItems), at + 1)
  {
  }

  lemma ArrayStep(c: Bytes, p: nat, depth: nat, at: nat, items: Items, end: nat)
    requires Terminated(c) && p + 1 < |c| && c[p] == LBRACKET && depth < NESTING_LIMIT && Skip(c, p + 1) == at
    requires c[at] != RBRACKET
    requires ParseElems(c, at - 1, depth + 1) == Ok(items, end)
    ensures ParseArray(c, p, depth) == Ok(Array(items), end + 1)
  {
    hide ParseElems;
  }

  lemma {:induction false} ObjectRead(c: Bytes, p: nat, v: J.Value, depth: nat)
    requires v.Obj? && Terminated(c) && At(c, p, J.Text(v)) && Loose(v) && ItemOf(v).Some?
    requires depth + Depth(v) <= NESTING_LIMIT
    ensures p < |c| && ParseValue(c, p, depth) == Ok(ItemOf(v).value, p + |J.Text(v)|)
    decreases v, 0
  {
    hide ParseValue, ParseObject, ParseFields, Terminated, J.MembersText, Skip;
    var ms, at := v.members, p + 1 + |v.lead|;
    J.ObjectAt(c, v, p);
    AtSplit(c, at, J.MembersText(ms), [RBRACE]);
    ValueStep(c, p, depth);
    if ms.Member? {
      MemberStarts(c, at, ms);
      SkipOver(c, p + 1, v.lead);
      SkipOver(c, at, []);
      MembersRead(c, at - 1, at, ms, depth + 1);
      ObjectStep(c, p, depth, at, FieldsOf(ms).value, at + |J.MembersText(ms)|);
    } else {
      assert J.MembersText(ms) == [] by { hide *; EmptyMembers(ms); }
      SkipOver(c, p + 1, v.lead);
      EmptyObjectStep(c, p, depth, at);
    }
  }

  lemma EmptyMembers(ms: J.Members)
    requires ms.NoMembers?
    ensures J.MembersText(ms) == []
  {
  }

  lemma EmptyObjectStep(c: Bytes, p: nat, depth: nat, at: nat)
    requires Terminated(c) && p + 1 < |c| && c[p] == LBRACE && depth < NESTING_LIMIT && Skip(c, p + 1) == at
    requires c[at] == RBRACE
    ensures ParseObject(c, p, depth) == Ok(Object(NoFields), at + 1)
  {
  }

  lemma ObjectStep(c: Bytes, p: nat, depth: nat, at: nat, fields: Fields, end: nat)
    requires Terminated(c) && p + 1 < |c| && c[p] == LBRACE && depth < NESTING_LIMIT && Skip(c, p + 1) == at
    requires c[at] != RBRACE
    requires ParseFields(c, at - 1, depth + 1) == Ok(fields, end)
    ensures ParseObject(c, p, depth) == Ok(Object(fields), end + 1)
  {
    hide ParseFields;
  }

  lemma ElemStarts(c: Bytes, at: nat, es: J.Elems)
    requires es.Elem? && At(c, at, J.ElemsText(es)) && ItemsOf(es).Some?
    ensures at < |c| && !IsSkipped(c[at]) && c[at] != RBRACKET
  {
    J.ElemAt(c, es, at);
    ValueStarts(c, at, es.v);
  }

  lemma MemberStarts(c: Bytes, at: nat, ms: J.Members)
    requires ms.Member? && At(c, at, J.MembersText(ms))
    ensures at < |c| && c[at] == QUOTE
  {
    J.MemberAt(c, ms, at);
    QuotedAt(c, at, ms.key);
  }

  /** Where the next element starts. */
  function NextElem(es: J.Elems, at: nat): nat
    requires es.Elem?
  {
    at + |J.Text(es.v)| + |es.post| + 1 + |es.sep|
  }

  /** What stands after the first element. */
  lemma ElemLayout(c: Bytes, at: nat, es: J.Elems)
    requires es.Elem? && At(c, at, J.ElemsText(es)) && Skipped(es.post) && Skipped(es.sep)
    requires es.rest.NoElems? ==> at + |J.ElemsText(es)| < |c| && c[at + |J.ElemsText(es)|] == RBRACKET
    requires es.rest.Elem? ==> ItemsOf(es.rest).Some?
    ensures At(c, at, J.Text(es.v)) && Stops(c, at + |J.Text(es.v)|)
    ensures var s := at + |J.Text(es.v)| + |es.post|;
      && s < |c| && Skip(c, at + |J.Text(es.v)|) == s && c[s] == (if es.rest.NoElems? then RBRACKET else COMMA)
      && (es.rest.Elem? ==>
        s + 1 < |c| && Skip(c, s + 1) == NextElem(es, at) && At(c, NextElem(es, at), J.ElemsText(es.rest)))
      && at + |J.ElemsText(es)| == if es.rest.NoElems? then s else NextElem(es, at) + |J.ElemsText(es.rest)|
  {
    hide J.Text, J.ElemsText, Stops, Skip, At, ItemsOf, Skipped;
    if es.rest.NoElems? {
      ElemLast(c, at, es, at + |J.Text(es.v)|);
    } else {
      ElemMore(c, at, es, at + |J.Text(es.v)|);
    }
  }

  lemma ElemLast(c: Bytes, at: nat, es: J.Elems, q: nat)
    requires es.Elem? && At(c, at, J.ElemsText(es)) && Skipped(es.post) && es.rest.NoElems?
    requires at + |J.ElemsText(es)| < |c| && c[at + |J.ElemsText(es)|] == RBRACKET
    requires q == at + |J.Text(es.v)|
    ensures var s := q + |es.post|;
      && At(c, at, J.Text(es.v)) && Stops(c, q) && s < |c| && Skip(c, q) == s && c[s] == RBRACKET
      && at + |J.ElemsText(es)| == s
  {
    hide *;
    ElemTail(c, at, es, []);
    Trailing(c, q, es.post, [], RBRACKET);
  }

  lemma ElemMore(c: Bytes, at: nat, es: J.Elems, q: nat)
    requires es.Elem? && At(c, at, J.ElemsText(es)) && Skipped(es.post) && Skipped(es.sep) && es.rest.Elem?
    requires ItemsOf(es.rest).Some?
    requires q == at + |J.Text(es.v)|
    ensures var s := q + |es.post|;
      && At(c, at, J.Text(es.v)) && Stops(c, q) && s + 1 < |c| && Skip(c, q) == s
      && c[s] == COMMA && Skip(c, s + 1) == s + 1 + |es.sep|
      && At(c, s + 1 + |es.sep|, J.ElemsText(es.rest))
      && at + |J.ElemsText(es)| == s + 1 + |es.sep| + |J.ElemsText(es.rest)|
  {
    hide *;
    var rest := J.ElemsText(es.rest);
    ElemTail(c, at, es, [COMMA] + (es.sep + rest));
    CommaAt(c, q, es.post, es.sep, rest);
    ElemStarts(c, q + |es.post| + 1 + |es.sep|, es.rest);
    CommaSkips(c, q, es.post, es.sep);
  }

  lemma ElemTail(c: Bytes, at: nat, es: J.Elems, tail: Bytes)
    requires es.Elem? && At(c, at, J.ElemsText(es))
    requires tail == if es.rest.NoElems? then [] else [COMMA] + (es.sep + J.ElemsText(es.rest))
    ensures At(c, at, J.Text(es.v)) && At(c, at + |J.Text(es.v)|, es.post + tail)
    ensures at + |J.ElemsText(es)| == at + |J.Text(es.v)| + |es.post| + |tail|
  {
    AtSplit(c, at, J.Text(es.v), es.post + tail);
  }

  /** parse_array after one element has been read. */
  lemma ElemsStep(c: Bytes, p: nat, depth: nat, v: Item, end: nat, s: nat)
    requires Terminated(c) && p + 1 < |c| && depth <= NESTING_LIMIT && end < |c|
    requires ParseValue(c, Skip(c, p + 1), depth) == Ok(v, end) && Skip(c, end) == s
    ensures c[s] == RBRACKET ==> ParseElems(c, p, depth) == Ok(Cons(v, NoItems), s)
    ensures c[s] == COMMA && ParseElems(c, s, depth).Ok? ==>
      ParseElems(c, p, depth) == Ok(Cons(v, ParseElems(c, s, depth).value), ParseElems(c, s, depth).offset)
  {
    hide ParseValue, Skip;
  }

  lemma {:induction false} ElemsRead(c: Bytes, p: nat, at: nat, es: J.Elems, depth: nat)
    requires Terminated(c) && p + 1 < |c| && Skip(c, p + 1) == at && es.Elem? && At(c, at, J.ElemsText(es))
    requires LooseElems(es) && ItemsOf(es).Some? && depth + ElemsDepth(es) <= NESTING_LIMIT
    requires at + |J.ElemsText(es)| < |c| && c[at + |J.ElemsText(es)|] == RBRACKET
    ensures ParseElems(c, p, depth) == Ok(ItemsOf(es).value, at + |J.ElemsText(es)|)
    decreases es, 1
  {
    hide ParseValue, ParseElems, J.ElemsText, J.Text, Terminated, Skip, At, Stops;
    var end := at + |J.Text(es.v)|;
    ElemLayout(c, at, es);
    ValueRead(c, at, es.v, depth);
    ElemsStep(c, p, depth, ItemOf(es.v).value, end, end + |es.post|);
    if es.rest.Elem? {
      ElemsRead(c, end + |es.post|, NextElem(es, at), es.rest, depth);
    }
  }

  /** Where the next member starts. */
  function NextMember(ms: J.Members, at: nat): nat
    requires ms.Member?
  {
    J.ValueAt(ms, at) + |J.Text(ms.v)| + |ms.post| + 1 + |ms.sep|
  }

  /** What stands in front of the value of the first member. */
  lemma MemberLayout(c: Bytes, at: nat, ms: J.Members)
    requires ms.Member? && At(c, at, J.MembersText(ms)) && Skipped(ms.preColon) && Skipped(ms.postColon)
    requires ItemOf(ms.v).Some?
    ensures At(c, at, J.Quoted(ms.key)) && At(c, J.ValueAt(ms, at), J.Text(ms.v))
    ensures var colon := at + |ms.key| + 2 + |ms.preColon|;
      && colon + 1 < |c| && Skip(c, at + |ms.key| + 2) == colon && c[colon] == COLON
      && Skip(c, colon + 1) == J.ValueAt(ms, at)
  {
    hide ItemOf, J.Text;
    var tail := if ms.rest.NoMembers? then [] else [COMMA] + (ms.sep + J.MembersText(ms.rest));
    var r2 := ms.postColon + (J.Text(ms.v) + (ms.post + tail));
    var colon := at + |ms.key| + 2 + |ms.preColon|;
    J.MemberAt(c, ms, at);
    AtSplit(c, at, J.Quoted(ms.key), ms.preColon + ([COLON] + r2));
    AtSplit(c, at + |ms.key| + 2, ms.preColon, [COLON] + r2);
    AtHead(c, colon, COLON, r2);
    AtSplit(c, colon + 1, ms.postColon, J.Text(ms.v) + (ms.post + tail));
    ValueStarts(c, J.ValueAt(ms, at), ms.v);
    SkipOver(c, at + |ms.key| + 2, ms.preColon);
    SkipOver(c, colon + 1, ms.postColon);
  }

  /** What stands behind the value of the first member. */
  lemma MemberEnds(c: Bytes, at: nat, ms: J.Members)
    requires ms.Member? && At(c, at, J.MembersText(ms)) && Skipped(ms.post) && Skipped(ms.sep)
    requires ms.rest.NoMembers? ==> at + |J.MembersText(ms)| < |c| && c[at + |J.MembersText(ms)|] == RBRACE
    ensures Stops(c, J.ValueAt(ms, at) + |J.Text(ms.v)|)
    ensures var s := J.ValueAt(ms, at) + |J.Text(ms.v)| + |ms.post|;
      && s < |c| && Skip(c, J.ValueAt(ms, at) + |J.Text(ms.v)|) == s
      && c[s] == (if ms.rest.NoMembers? then RBRACE else COMMA)
      && (ms.rest.Member? ==>
        s + 1 < |c| && Skip(c, s + 1) == NextMember(ms, at) && At(c, NextMember(ms, at), J.MembersText(ms.rest)))
      && at + |J.MembersText(ms)| == if ms.rest.NoMembers? then s else NextMember(ms, at) + |J.MembersText(ms.rest)|
  {
    hide J.Text;
    var q := J.ValueAt(ms, at) + |J.Text(ms.v)|;
    if ms.rest.NoMembers? {
      MemberTail(c, at, ms, []);
      Trailing(c, q, ms.post, [], RBRACE);
    } else {
      MemberMore(c, at, ms, q, q + |ms.post|);
    }
  }

  lemma MemberMore(c: Bytes, at: nat, ms: J.Members, q: nat, s: nat)
    requires ms.Member? && At(c, at, J.MembersText(ms)) && Skipped(ms.post) && Skipped(ms.sep) && ms.rest.Member?
    requires q == J.ValueAt(ms, at) + |J.Text(ms.v)| && s == q + |ms.post|
    ensures Stops(c, q) && s + 1 < |c| && Skip(c, q) == s && c[s] == COMMA && Skip(c, s + 1) == s + 1 + |ms.sep|
    ensures At(c, s + 1 + |ms.sep|, J.MembersText(ms.rest))
    ensures at + |J.MembersText(ms)| == s + 1 + |ms.sep| + |J.MembersText(ms.rest)|
  {
    hide J.MembersText, J.Text, J.ValueAt, At, Stops, Skip, Skipped;
    var rest := J.MembersText(ms.rest);
    MemberTail(c, at, ms, [COMMA] + (ms.sep + rest));
    CommaAt(c, q, ms.post, ms.sep, rest);
    MemberStarts(c, s + 1 + |ms.sep|, ms.rest);
    CommaSkips(c, q, ms.post, ms.sep);
  }

  lemma MemberTail(c: Bytes, at: nat, ms: J.Members, tail: Bytes)
    requires ms.Member? && At(c, at, J.MembersText(ms))
    requires tail == if ms.rest.NoMembers? then [] else [COMMA] + (ms.sep + J.MembersText(ms.rest))
    ensures At(c, J.ValueAt(ms, at) + |J.Text(ms.v)|, ms.post + tail)
    ensures at + |J.MembersText(ms)| == J.ValueAt(ms, at) + |J.Text(ms.v)| + |ms.post| + |tail|
  {
    hide J.Text;
    var r3 := J.Text(ms.v) + (ms.post + tail);
    var r2 := ms.postColon + r3;
    var colon := at + |ms.key| + 2 + |ms.preColon|;
    AtSplit(c, at, J.Quoted(ms.key), ms.preColon + ([COLON] + r2));
    AtSplit(c, at + |ms.key| + 2, ms.preColon, [COLON] + r2);
    AtHead(c, colon, COLON, r2);
    AtSplit(c, colon + 1, ms.postColon, r3);
    AtSplit(c, J.ValueAt(ms, at), J.Text(ms.v), ms.post + tail);
  }

  /** parse_object after one key has been read. */
  lemma FieldsStep(c: Bytes, p: nat, depth: nat, key: CString, afterKey: nat, colon: nat, v: Item, end: nat, s: nat)
    requires Terminated(c) && p + 1 < |c| && depth <= NESTING_LIMIT && afterKey < |c| && end < |c|
    requires ParseString(c, Skip(c, p + 1), depth) == Ok(key, afterKey)
    requires Skip(c, afterKey) == colon && colon + 1 < |c| && c[colon] == COLON
    requires ParseValue(c, Skip(c, colon + 1), depth) == Ok(v, end) && Skip(c, end) == s
    ensures c[s] == RBRACE ==> ParseFields(c, p, depth) == Ok(Field(key, v, NoFields), s)
    ensures c[s] == COMMA && ParseFields(c, s, depth).Ok? ==>
      ParseFields(c, p, depth) == Ok(Field(key, v, ParseFields(c, s, depth).value), ParseFields(c, s, depth).offset)
  {
    hide ParseValue, ParseString, Skip;
  }

  lemma {:induction false} MembersRead(c: Bytes, p: nat, at: nat, ms: J.Members, depth: nat)
    requires Terminated(c) && p + 1 < |c| && Skip(c, p + 1) == at && ms.Member? && At(c, at, J.MembersText(ms))
    requires LooseMembers(ms) && FieldsOf(ms).Some? && depth + MembersDepth(ms) <= NESTING_LIMIT
    requires at + |J.MembersText(ms)| < |c| && c[at + |J.MembersText(ms)|] == RBRACE
    ensures ParseFields(c, p, depth) == Ok(FieldsOf(ms).value, at + |J.MembersText(ms)|)
    decreases ms, 1
  {
    hide ParseValue, ParseString, ParseFields, BodyValue, J.MembersText, J.Text, Terminated, Skip, At, Stops;
    var end := J.ValueAt(ms, at) + |J.Text(ms.v)|;
    MemberLayout(c, at, ms);
    MemberEnds(c, at, ms);
    StringRead(c, at, ms.key, depth);
    ValueRead(c, J.ValueAt(ms, at), ms.v, depth);
    FieldsStep(c, p, depth, BodyValue(ms.key).value, at + |ms.key| + 2,
      at + |ms.key| + 2 + |ms.preColon|, ItemOf(ms.v).value, end, end + |ms.post|);
    if ms.rest.Member? {
      MembersRead(c, end + |ms.post|, NextMember(ms, at), ms.rest, depth);
    }
  }

  /** The text of a document, after a byte order mark if there is one. */
  function Marked(mark: bool, d: J.Doc): Bytes {
    (if mark then BYTE_ORDER_MARK else []) + J.DocText(d)
  }

  lemma DocAt(c: Bytes, p: nat, d: J.Doc)
    requires At(c, p, J.DocText(d))
    ensures At(c, p, d.before) && At(c, p + |d.before|, J.Text(d.v)) && At(c, p + |d.before| + |J.Text(d.v)|, d.after)
  {
    AtSplit(c, p, d.before, J.Text(d.v) + d.after);
    AtSplit(c, p + |d.before|, J.Text(d.v), d.after);
  }

  lemma DocRead(c: Bytes, p: nat, d: J.Doc)
    requires Terminated(c) && p < |c| && At(c, p, J.DocText(d)) && p + |J.DocText(d)| == |c| - 1
    requires LooseDoc(d) && ItemOf(d.v).Some? && Depth(d.v) <= NESTING_LIMIT
    ensures ParseValue(c, Skip(c, p), 0) == Ok(ItemOf(d.v).value, p + |d.before| + |J.Text(d.v)|)
    ensures p + |d.before| + |J.Text(d.v)| < |c| && Skip(c, p + |d.before| + |J.Text(d.v)|) == |c| - 1
  {
    hide ParseValue, ItemOf, Loose;
    var at := p + |d.before|;
    var end := at + |J.Text(d.v)|;
    DocAt(c, p, d);
    ValueStarts(c, at, d.v);
    SkipOver(c, p, d.before);
    DocStops(c, end, d.after);
    ValueRead(c, at, d.v, 0);
    SkipToEnd(c, end, d.after);
  }

  lemma DocStops(c: Bytes, end: nat, after: Bytes)
    requires Terminated(c) && At(c, end, after) && Skipped(after) && end + |after| == |c| - 1
    ensures Stops(c, end)
  {
    LayoutStops(c, end, after);
  }

  /** The text that follows a value does not start with a byte order mark. */
  lemma NoMark(text: CString, d: J.Doc)
    requires text == J.DocText(d) && Skipped(d.before) && ItemOf(d.v).Some?
    ensures !At(text + [NUL], 0, BYTE_ORDER_MARK)
  {
    hide StrtodLength;
    var c := text + [NUL];
    AtSelf(text);
    DocAt(text, 0, d);
    ValueStarts(text, |d.before|, d.v);
    if d.before != [] {
      assert c[0] == d.before[0];
    }
  }

  /** cJSON_ParseWithOpts reads every text that denotes an item, whatever its white space, as that item. */
  lemma Accepts(text: CString, mark: bool, d: J.Doc)
    requires text == Marked(mark, d) && LooseDoc(d) && ItemOf(d.v).Some? && Depth(d.v) <= 1000
    ensures ParseWithOpts(text, true) == (ItemOf(d.v), |text|)
    ensures ParseWithOpts(text, false).0 == ItemOf(d.v)
  {
    hide ParseValue, ItemOf, Loose, At, Depth, Skip;
    var c := text + [NUL];
    var p := if mark then 3 else 0;
    MarkedAt(text, mark, d);
    DocRead(c, p, d);
  }

  lemma MarkedAt(text: CString, mark: bool, d: J.Doc)
    requires text == Marked(mark, d) && Skipped(d.before) && ItemOf(d.v).Some?
    ensures var c := text + [NUL]; Start(c) == (if mark then 3 else 0) && At(c, Start(c), J.DocText(d))
    ensures Start(text + [NUL]) + |J.DocText(d)| == |text|
  {
    hide ItemOf, Loose, J.DocText;
    var c := text + [NUL];
    var front := if mark then BYTE_ORDER_MARK else [];
    AtSelf(c);
    AtSplit(c, 0, text, [NUL]);
    AtSplit(c, 0, front, J.DocText(d));
    if mark {
      DocNonempty(d);
    } else {
      assert text == J.DocText(d);
      NoMark(text, d);
    }
  }

  lemma DocNonempty(d: J.Doc)
    requires ItemOf(d.v).Some?
    ensures |J.DocText(d)| > 0
  {
    AtSelf(J.DocText(d));
    DocAt(J.DocText(d), 0, d);
    ValueStarts(J.DocText(d), |d.before|, d.v);
  }

  /**
   * Without the demand for a terminator, whatever follows the value does not matter, unless it could go on a number;
   * the end of the value is reported.
   */
  lemma AcceptsFirst(text: CString, mark: bool, before: Bytes, v: J.Value, rest: Bytes)
    requires text == Marked(mark, J.Doc(before, v, rest)) && Skipped(before) && Loose(v) && ItemOf(v).Some?
    requires Depth(v) <= 1000 && (rest == [] || !IsNumberByte(rest[0]))
    ensures ParseWithOpts(text, false) == (ItemOf(v), |text| - |rest|)
  {
    hide ParseValue, ItemOf, Loose, At, Depth, Skip, IsNumberByte;
    var c, d := text + [NUL], J.Doc(before, v, rest);
    MarkedAt(text, mark, d);
    var p := Start(c);
    DocAt(c, p, d);
    var at := p + |before|;
    var end := at + |J.Text(v)|;
    ValueStarts(c, at, v);
    SkipOver(c, p, before);
    RestStops(c, end, rest);
    ValueRead(c, at, v, 0);
  }

  lemma RestStops(c: Bytes, end: nat, rest: Bytes)
    requires Terminated(c) && At(c, end, rest) && end + |rest| == |c| - 1 && (rest == [] || !IsNumberByte(rest[0]))
    ensures Stops(c, end)
  {
    if rest != [] {
      assert c[end] == rest[0];
    }
  }

  /** Documents with the white space of RFC 8259 in particular. */
  lemma AcceptsStrict(text: CString, d: J.Doc)
    requires text == J.DocText(d) && J.DocOk(d) && ItemOf(d.v).Some? && Depth(d.v) <= NESTING_LIMIT
    ensures ParseWithOpts(text, true) == (ItemOf(d.v), |text|)
  {
    StrictIsLoose(d.v);
    assert Marked(false, d) == text;
    Accepts(text, false, d);
  }

  // ----- nothing else is read -----

  lemma {:induction false} ReadValue(c: Bytes, p: nat, depth: nat) returns (v: J.Value)
    requires p < |c| && Terminated(c) && depth <= NESTING_LIMIT && ParseValue(c, p, depth).Ok?
    ensures At(c, p, J.Text(v)) && Loose(v) && depth + Depth(v) <= NESTING_LIMIT && ItemOf(v).Some?
    ensures ParseValue(c, p, depth) == Ok(ItemOf(v).value, p + |J.Text(v)|)
    decreases |c| - p, 2
  {
    hide ParseArray, ParseObject, ParseString, ParseNumber, StrtodLength, Terminated, BodyValue;
    if At(c, p, NULL_TEXT) {
      v := J.Lit(NULL_TEXT);
    } else if At(c, p, FALSE_TEXT) {
      v := J.Lit(FALSE_TEXT);
    } else if At(c, p, TRUE_TEXT) {
      v := J.Lit(TRUE_TEXT);
    } else if c[p] == QUOTE {
      var raw := ReadString(c, p, depth);
      v := J.Str(raw);
    } else if c[p] == MINUS || IsDigit(c[p]) {
      var t := ReadNumber(c, p, depth);
      v := J.Lit(t);
    } else if c[p] == LBRACKET {
      v := ReadArray(c, p, depth);
    } else {
      v := ReadObject(c, p, depth);
    }
  }

  lemma {:induction false} ReadArray(c: Bytes, p: nat, depth: nat) returns (v: J.Value)
    requires p < |c| && Terminated(c) && depth <= NESTING_LIMIT && ParseArray(c, p, depth).Ok?
    ensures At(c, p, J.Text(v)) && Loose(v) && depth + Depth(v) <= NESTING_LIMIT && ItemOf(v).Some?
    ensures ParseArray(c, p, depth) == Ok(ItemOf(v).value, p + |J.Text(v)|)
    decreases |c| - p, 1
  {
    hide ParseElems, Terminated, J.ElemsText, Skip;
    var lead := SkippedAt(c, p + 1);
    var q := Skip(c, p + 1);
    var es := J.NoElems;
    if c[q] != RBRACKET {
      SkipInside(c, p + 1);
      es := ReadElems(c, q - 1, depth + 1);
    } else {
      EmptyElems(es);
    }
    v := J.Arr(lead, es);
    BracketsAt(c, p, LBRACKET, lead, J.ElemsText(es), RBRACKET);
  }

  lemma BracketsAt(c: Bytes, p: nat, left: Byte, lead: Bytes, body: Bytes, right: Byte)
    requires p < |c| && c[p] == left && At(c, p + 1, lead) && At(c, p + 1 + |lead|, body)
    requires p + 1 + |lead| + |body| < |c| && c[p + 1 + |lead| + |body|] == right
    ensures At(c, p, [left] + (lead + (body + [right])))
  {
    AtSplit(c, p + 1 + |lead|, body, [right]);
    AtSplit(c, p + 1, lead, body + [right]);
    AtSplit(c, p, [left], lead + (body + [right]));
  }

  lemma {:induction false} ReadElems(c: Bytes, p: nat, depth: nat) returns (es: J.Elems)
    requires p + 1 < |c| && Terminated(c) && depth <= NESTING_LIMIT && ParseElems(c, p, depth).Ok?
    ensures es.Elem? && At(c, Skip(c, p + 1), J.ElemsText(es)) && LooseElems(es)
    ensures depth + ElemsDepth(es) <= NESTING_LIMIT && ItemsOf(es).Some?
    ensures ParseElems(c, p, depth) == Ok(ItemsOf(es).value, Skip(c, p + 1) + |J.ElemsText(es)|)
    decreases |c| - (p + 1), 3
  {
    hide ParseValue, Terminated, J.Text, At, Skip;
    var at := Skip(c, p + 1);
    var v := ReadValue(c, at, depth);
    var q := at + |J.Text(v)|;
    var post := SkippedAt(c, q);
    var s := Skip(c, q);
    if c[s] == COMMA {
      var sep := SkippedAt(c, s + 1);
      var rest := ReadElems(c, s, depth);
      es := J.Elem(v, post, sep, rest);
      CommaIs(c, q, post, sep, J.ElemsText(rest));
      AtSplit(c, at, J.Text(v), post + ([COMMA] + (sep + J.ElemsText(rest))));
    } else {
      es := J.Elem(v, post, [], J.NoElems);
      assert post + [] == post;
      AtSplit(c, at, J.Text(v), post);
    }
  }

  lemma AtOne(c: Bytes, p: nat, b: Byte)
    requires p < |c| && c[p] == b
    ensures At(c, p, [b])
  {
  }

  lemma CommaIs(c: Bytes, q: nat, post: Bytes, sep: Bytes, rest: Bytes)
    requires At(c, q, post) && q + |post| < |c| && c[q + |post|] == COMMA
    requires At(c, q + |post| + 1, sep) && At(c, q + |post| + 1 + |sep|, rest)
    ensures At(c, q, post + ([COMMA] + (sep + rest)))
  {
    hide At;
    AtOne(c, q + |post|, COMMA);
    AtSplit(c, q + |post| + 1, sep, rest);
    AtSplit(c, q + |post|, [COMMA], sep + rest);
    AtSplit(c, q, post, [COMMA] + (sep + rest));
  }

  lemma {:induction false} ReadObject(c: Bytes, p: nat, depth: nat) returns (v: J.Value)
    requires p < |c| && Terminated(c) && depth <= NESTING_LIMIT && ParseObject(c, p, depth).Ok?
    ensures At(c, p, J.Text(v)) && Loose(v) && depth + Depth(v) <= NESTING_LIMIT && ItemOf(v).Some?
    ensures ParseObject(c, p, depth) == Ok(ItemOf(v).value, p + |J.Text(v)|)
    decreases |c| - p, 1
  {
    hide ParseFields, Terminated, J.MembersText, Skip;
    var lead := SkippedAt(c, p + 1);
    var q := Skip(c, p + 1);
    var ms := J.NoMembers;
    if c[q] != RBRACE {
      SkipInside(c, p + 1);
      ms := ReadMembers(c, q - 1, depth + 1);
    } else {
      EmptyMembers(ms);
    }
    v := J.Obj(lead, ms);
    BracketsAt(c, p, LBRACE, lead, J.MembersText(ms), RBRACE);
  }

  lemma {:induction false} ReadMembers(c: Bytes, p: nat, depth: nat) returns (ms: J.Members)
    requires p + 1 < |c| && Terminated(c) && depth <= NESTING_LIMIT && ParseFields(c, p, depth).Ok?
    ensures ms.Member? && At(c, Skip(c, p + 1), J.MembersText(ms)) && LooseMembers(ms)
    ensures depth + MembersDepth(ms) <= NESTING_LIMIT
      && FieldsOf(ms).Some?
    ensures ParseFields(c, p, depth) == Ok(FieldsOf(ms).value, Skip(c, p + 1) + |J.MembersText(ms)|)
    decreases |c| - (p + 1), 3
  {
    hide ParseValue, ParseString, BodyValue, Terminated, J.Text, At, Skip;
    var at := Skip(c, p + 1);
    var key := ReadString(c, at, depth);
    var preColon := SkippedAt(c, at + |key| + 2);
    var colon := Skip(c, at + |key| + 2);
    var postColon := SkippedAt(c, colon + 1);
    var valueAt := Skip(c, colon + 1);
    var v := ReadValue(c, valueAt, depth);
    var q := valueAt + |J.Text(v)|;
    var post := SkippedAt(c, q);
    var s := Skip(c, q);
    if c[s] == COMMA {
      var sep := SkippedAt(c, s + 1);
      var rest := ReadMembers(c, s, depth);
      ms := J.Member(key, preColon, postColon, v, post, sep, rest);
      CommaIs(c, q, post, sep, J.MembersText(rest));
      MemberIs(c, at, key, preColon, postColon, J.Text(v), post + ([COMMA] + (sep + J.MembersText(rest))));
    } else {
      ms := J.Member(key, preColon, postColon, v, post, [], J.NoMembers);
      assert post + [] == post;
      MemberIs(c, at, key, preColon, postColon, J.Text(v), post);
    }
  }

  lemma MemberIs(c: Bytes, at: nat, key: Bytes, preColon: Bytes, postColon: Bytes, value: Bytes, tail: Bytes)
    requires At(c, at, J.Quoted(key)) && At(c, at + |key| + 2, preColon)
    requires var colon := at + |key| + 2 + |preColon|;
      && colon < |c| && c[colon] == COLON && At(c, colon + 1, postColon) && At(c, colon + 1 + |postColon|, value)
      && At(c, colon + 1 + |postColon| + |value|, tail)
    ensures At(c, at, J.Quoted(key) + (preColon + ([COLON] + (postColon + (value + tail)))))
  {
    hide At;
    var colon := at + |key| + 2 + |preColon|;
    AtSplit(c, colon + 1 + |postColon|, value, tail);
    AtSplit(c, colon + 1, postColon, value + tail);
    AtOne(c, colon, COLON);
    AtSplit(c, colon, [COLON], postColon + (value + tail));
    AtSplit(c, at + |key| + 2, preColon, [COLON] + (postColon + (value + tail)));
    AtSplit(c, at, J.Quoted(key), preColon + ([COLON] + (postColon + (value + tail))));
  }

  /** Whatever cJSON_ParseWithOpts accepts when it requires the terminator denotes the item that it returns. */
  lemma AcceptsOnly(text: CString) returns (mark: bool, d: J.Doc)
    requires ParseWithOpts(text, true).0.Some?
    ensures text == Marked(mark, d) && LooseDoc(d) && Depth(d.v) <= 1000
    ensures ItemOf(d.v) == ParseWithOpts(text, true).0
  {
    hide ParseValue, ItemOf, Loose, Depth, Skip;
    var c := text + [NUL];
    var p := Start(c);
    mark := p == 3;
    var before := SkippedAt(c, p);
    var at := Skip(c, p);
    var v := ReadValue(c, at, 0);
    var end := at + |J.Text(v)|;
    var after := SkippedAt(c, end);
    d := J.Doc(before, v, after);
    AtSplit(c, at, J.Text(v), after);
    AtSplit(c, p, before, J.Text(v) + after);
    WholeText(text, mark, J.DocText(d), end + |after|);
  }

  lemma WholeText(text: CString, mark: bool, rest: Bytes, end: nat)
    requires var c := text + [NUL];
      Start(c) == (if mark then 3 else 0) && At(c, Start(c), rest) && end < |c| && c[end] == NUL
    requires end == Start(text + [NUL]) + |rest|
    ensures text == (if mark then BYTE_ORDER_MARK else []) + rest
  {
    var c := text + [NUL];
    var front := if mark then BYTE_ORDER_MARK else [];
    AtIndex(c, 0, front);
    AtIndex(c, |front|, rest);
    assert end == |text|;
    forall i | 0 <= i < |text| ensures text[i] == (front + rest)[i] {
      if i >= |front| {
        assert c[|front| + (i - |front|)] == rest[i - |front|];
      } else {
        assert c[0 + i] == front[i];
      }
    }
  }

  /** Without the demand for a terminator, what is accepted starts with a text that denotes the item returned. */
  lemma FirstOnly(text: CString) returns (mark: bool, before: Bytes, v: J.Value, rest: Bytes)
    requires ParseWithOpts(text, false).0.Some?
    ensures text == Marked(mark, J.Doc(before, v, rest)) && Skipped(before) && Loose(v) && Depth(v) <= 1000
    ensures ParseWithOpts(text, false) == (ItemOf(v), |text| - |rest|)
  {
    hide ParseValue, ItemOf, Loose, Depth, Skip;
    var c := text + [NUL];
    var p := Start(c);
    mark := p == 3;
    before := SkippedAt(c, p);
    var at := Skip(c, p);
    v := ReadValue(c, at, 0);
    var end := at + |J.Text(v)|;
    rest := text[end..];
    RestAt(text, end);
    AtSplit(c, at, J.Text(v), rest);
    AtSplit(c, p, before, J.Text(v) + rest);
    WholeText(text, mark, J.DocText(J.Doc(before, v, rest)), end + |rest|);
  }

  lemma RestAt(text: CString, end: nat)
    requires end <= |text|
    ensures At(text + [NUL], end, text[end..])
  {
    AtIndex(text + [NUL], end, text[end..]);
  }
}
