/** The bytes that the writer puts, compact and pretty, without reference to the document that its calls describe. */
module JWriteStyle {
  import opened Ascii
  import opened JsonStyle
  import J = JsonText
  import W = JWriteSpec
  import D = JWriteDenotation
  import S = JWriteSession
  import T = JWriteTokens

  /** A new line, indented by four blanks for every level. */
  function Line(level: nat): Bytes {
    [LF] + seq(4 * level, i => SPACE)
  }

  /**
   * The format of a pretty document: every value or member on a line of its own, indented by as many levels as
   * containers are open, a blank behind every colon, and the closing bracket of a container that is not empty on a line
   * of its own. The closing bracket of the root always has a line of its own.
   */
  function Prettifying(p: Place, b: Byte): Bytes {
    if p.quoted then [b]
    else if b == RBRACE || b == RBRACKET then
      (if !p.start then Line(if p.open == [] then 0 else |p.open| - 1) else if |p.open| == 1 then [LF] else []) + [b]
    else if b == COLON then [COLON, SPACE]
    else if p.start then Line(|p.open|) + [b]
    else [b]
  }

  lemma Strings()
    ensures Verbatim(Prettifying)
  {
  }

  lemma LineIs(level: nat)
    ensures W.NewLine(true, level) == Line(level) && AllBlank(Line(level)) && Line(0) == [LF]
    ensures W.NewLine(false, level) == []
  {
  }

  /** Strings that need no escapes, and raw text that is a number or literal name. */
  predicate SimplePayload(p: W.Payload) {
    match p
    case Raw(text) => |text| > 0 && forall i :: 0 <= i < |text| ==> IsPlain(text[i])
    case Quoted(body) => T.PlainBody(body)
    case _ => true
  }

  predicate SimpleCall(c: W.Call) {
    match c
    case PutMember(key, p) => T.PlainBody(key) && SimplePayload(p)
    case PutElement(p) => SimplePayload(p)
    case End => true
  }

  predicate Simple(calls: seq<W.Call>) {
    forall i :: 0 <= i < |calls| ==> SimpleCall(calls[i])
  }

  /** A place outside strings where a value or key may stand. */
  predicate AtEntry(p: Place) {
    !p.quoted && !p.escaped && |p.open| > 0
  }

  /** What the format puts in front of a value or key. */
  function Before(p: Place): Bytes {
    if p.start then Line(|p.open|) else []
  }

  lemma BeforeBlank(p: Place)
    ensures AllBlank(Before(p))
  {
  }

  function ValueOf(pretty: bool, level: nat, p: W.Payload, calls: seq<W.Call>): Bytes {
    J.Text(D.ReadValue(pretty, level, p, calls).0)
  }

  lemma {:induction false} ValueStyles(p: Place, payload: W.Payload, calls: seq<W.Call>)
    requires AtEntry(p) && SimplePayload(payload) && Simple(calls)
    ensures Styles(Prettifying, p, p.(start := false), ValueOf(false, |p.open|, payload, calls),
      Before(p) + ValueOf(true, |p.open|, payload, calls))
    ensures D.ReadValue(false, |p.open|, payload, calls).1 == D.ReadValue(true, |p.open|, payload, calls).1
    ensures Simple(D.ReadValue(true, |p.open|, payload, calls).1)
    decreases |calls|, 3
  {
    hide Styles, Before, Line, W.NewLine, J.Quoted;
    match payload
    case Raw(text) =>
      RawStyles(p, text);
    case Quoted(body) =>
      StringStyles(p, body);
    case NewObject =>
      ObjectStyles(p, calls);
    case NewArray =>
      ArrayStyles(p, calls);
  }

  lemma RawStyles(p: Place, text: Bytes)
    requires AtEntry(p) && |text| > 0 && forall i :: 0 <= i < |text| ==> IsPlain(text[i])
    ensures Styles(Prettifying, p, p.(start := false), text, Before(p) + text)
  {
    hide Styles, Line;
    BeforeBlank(p);
    assert [] + [text[0]] == [text[0]];
    StylesLit(Prettifying, p, text, Before(p));
  }

  lemma StringStyles(p: Place, body: Bytes)
    requires AtEntry(p) && T.PlainBody(body)
    ensures Styles(Prettifying, p, p.(start := false), J.Quoted(body), Before(p) + J.Quoted(body))
  {
    hide Styles, Line;
    BeforeBlank(p);
    T.PlainBodyOk(body);
    Strings();
    assert [] + [QUOTE] == [QUOTE];
    StylesString(Prettifying, p, body, Before(p));
  }

  /** A bracket, comma or colon with what the format puts around it. */
  lemma Mark(p: Place, b: Byte, before: Bytes, behind: Bytes)
    requires !p.quoted && !IsBlank(b) && b != QUOTE && AllBlank(before) && AllBlank(behind)
    requires Prettifying(p, b) == before + ([b] + behind)
    ensures Styles(Prettifying, p, After(p, b), [b], before + ([b] + behind))
  {
    StylesByte(Prettifying, p, b, before, behind);
  }

  function Entered(p: Place, isObject: bool): Place {
    p.(open := p.open + [isObject], start := true)
  }

  lemma Left(p: Place, isObject: bool, b: Byte)
    requires !p.quoted && (b == RBRACE || b == RBRACKET)
    ensures After(Entered(p, isObject), b) == After(Entered(p, isObject).(start := false), b) == p.(start := false)
  {
    assert (p.open + [isObject])[..|p.open|] == p.open;
  }

  lemma Opens(p: Place, b: Byte)
    requires !p.quoted && (b == LBRACE || b == LBRACKET)
    ensures Styles(Prettifying, p, Entered(p, b == LBRACE), [b], Before(p) + [b])
  {
    hide Styles, Line;
    BeforeBlank(p);
    assert [b] + [] == [b] && [] + [b] == [b];
    Mark(p, b, Before(p), []);
  }

  /** The closing bracket of a container. */
  lemma Closes(q: Place, b: Byte, line: Bytes)
    requires !q.quoted && |q.open| > 0 && (b == RBRACE || b == RBRACKET)
    requires line == if !q.start then Line(|q.open| - 1) else if |q.open| == 1 then [LF] else []
    ensures Styles(Prettifying, q, After(q, b), [b], line + [b])
  {
    hide Styles, Line;
    LineIs(|q.open| - 1);
    assert [b] + [] == [b];
    Mark(q, b, line, []);
  }

  /** A container put together from its brackets and what stands between them. */
  lemma Contained(p: Place, isObject: bool, left: Byte, right: Byte, t: Bytes, u: Bytes, line: Bytes)
    requires !p.quoted && left == (if isObject then LBRACE else LBRACKET)
    requires right == if isObject then RBRACE else RBRACKET
    requires var q := Entered(p, isObject);
      if t == [] then u == [] && line == if |p.open| == 0 then [LF] else []
      else Styles(Prettifying, q, q.(start := false), t, u) && line == Line(|p.open|)
    ensures Styles(Prettifying, p, p.(start := false),
      [left] + (t + [right]), Before(p) + ([left] + (u + (line + [right]))))
  {
    hide Styles, Line, Before;
    var q := Entered(p, isObject);
    var r := if t == [] then q else q.(start := false);
    Opens(p, left);
    Left(p, isObject, right);
    Closes(r, right, line);
    if t == [] {
      StylesNothing(Prettifying, q);
    }
    StylesCat(Prettifying, q, r, p.(start := false), t, u, [right], line + [right]);
    StylesCat(Prettifying, p, q, p.(start := false), [left], Before(p) + [left], t + [right], u + (line + [right]));
    assert (Before(p) + [left]) + (u + (line + [right])) == Before(p) + ([left] + (u + (line + [right])));
  }

  lemma {:induction false} ArrayStyles(p: Place, calls: seq<W.Call>)
    requires AtEntry(p) && Simple(calls)
    ensures Styles(Prettifying, p, p.(start := false), ValueOf(false, |p.open|, W.NewArray, calls),
      Before(p) + ValueOf(true, |p.open|, W.NewArray, calls))
    ensures D.ReadValue(false, |p.open|, W.NewArray, calls).1 == D.ReadValue(true, |p.open|, W.NewArray, calls).1
    ensures Simple(D.ReadValue(true, |p.open|, W.NewArray, calls).1)
    decreases |calls|, 2
  {
    hide Styles, Before, W.NewLine, Line, D.ReadValue, D.ReadElems, J.Text, J.ElemsText, D.ElemsBare, Simple;
    var n, q := |p.open|, Entered(p, false);
    ElemsStyles(q, calls);
    LineIs(n);
    LineIs(n + 1);
    D.ElemsBareText(true, n + 1, calls);
    D.ElemsBareText(false, n + 1, calls);
    NestedArray(true, n, calls);
    NestedArray(false, n, calls);
    var t, u := ElemsOf(false, n + 1, calls), ElemsOf(true, n + 1, calls);
    var some := D.ReadElems(true, n + 1, calls).0.Elem?;
    var lead, line := if some then Line(n + 1) else [], if some then Line(n) else [];
    NoElems(true, n + 1, calls);
    Contained(p, false, LBRACKET, RBRACKET, t, lead + u, line);
    Around(LBRACKET, lead, u, line, RBRACKET);
    assert t + [] == t && [] + (t + [RBRACKET]) == t + [RBRACKET];
  }

  lemma NestedArray(pretty: bool, level: nat, calls: seq<W.Call>)
    requires Simple(calls)
    ensures var items := D.ReadElems(pretty, level + 1, calls).0;
      ValueOf(pretty, level, W.NewArray, calls)
        == [LBRACKET] + ((if items.Elem? then W.NewLine(pretty, level + 1) else []) + (J.ElemsText(items) + [RBRACKET]))
    ensures D.ReadValue(pretty, level, W.NewArray, calls).1 == D.SkipEnd(D.ReadElems(pretty, level + 1, calls).1)
    ensures var rest := D.ReadElems(pretty, level + 1, calls).1; Simple(rest) ==> Simple(D.SkipEnd(rest))
  {
  }

  lemma Around(left: Byte, lead: Bytes, u: Bytes, line: Bytes, right: Byte)
    ensures [left] + (lead + ((u + line) + [right])) == [left] + ((lead + u) + (line + [right]))
  {
  }

  function ElemsOf(pretty: bool, level: nat, calls: seq<W.Call>): Bytes
    requires level > 0
  {
    D.ElemsBare(D.ReadElems(pretty, level, calls).0)
  }

  /** The elements of an array, each behind its line break. */
  lemma {:induction false} ElemsStyles(p: Place, calls: seq<W.Call>)
    requires AtEntry(p) && p.start && Simple(calls)
    ensures var (es, n) := (D.ReadElems(true, |p.open|, calls).0, |p.open|);
      && (es.NoElems? <==> D.ReadElems(false, n, calls).0.NoElems?) && (es.NoElems? <==> ElemsOf(false, n, calls) == [])
      && (es.Elem? ==>
        Styles(Prettifying, p, p.(start := false), ElemsOf(false, n, calls), Line(n) + ElemsOf(true, n, calls)))
    ensures D.ReadElems(false, |p.open|, calls).1 == D.ReadElems(true, |p.open|, calls).1
    ensures Simple(D.ReadElems(true, |p.open|, calls).1)
    decreases |calls|, 1
  {
    hide Styles, W.NewLine, Line, J.Text;
    if calls != [] && calls[0].PutElement? {
      var n, payload, q := |p.open|, calls[0].payload, p.(start := false);
      LineIs(n);
      assert SimpleCall(calls[0]);
      ValueStyles(p, payload, calls[1..]);
      var rest := D.ReadValue(true, n, payload, calls[1..]).1;
      var v, v' := ValueOf(false, n, payload, calls[1..]), ValueOf(true, n, payload, calls[1..]);
      ElemsStyles(p, rest);
      var t, u := ElemsOf(false, n, rest), ElemsOf(true, n, rest);
      StylesNonempty(p, q, v, Line(n) + v');
      if D.ReadElems(true, n, rest).0.Elem? {
        CommaStyles(p, q, v, Line(n) + v', t, Line(n) + u);
        More(v, t, Line(n), v', u);
      } else {
        assert v + [] == v && v' + [] == v';
      }
    }
  }

  /** A byte cannot be styled away. */
  lemma StylesNonempty(p: Place, q: Place, t: Bytes, u: Bytes)
    requires Styles(Prettifying, p, q, t, u) && p.start && !q.start
    ensures t != []
  {
  }

  lemma More(v: Bytes, t: Bytes, line: Bytes, v': Bytes, u: Bytes)
    ensures v + ([COMMA] + t) == v + ([COMMA] + ([] + t))
    ensures (line + v') + ([COMMA] + (line + u)) == line + (v' + ([COMMA] + (line + u)))
  {
    assert [] + t == t;
  }

  lemma CommaStyles(p: Place, q: Place, t: Bytes, u: Bytes, t': Bytes, u': Bytes)
    requires AtEntry(p) && p.start && q == p.(start := false)
    requires Styles(Prettifying, p, q, t, u) && Styles(Prettifying, p, q, t', u')
    ensures Styles(Prettifying, p, q, t + ([COMMA] + t'), u + ([COMMA] + u'))
  {
    hide Styles, Line;
    assert [] + ([COMMA] + []) == [COMMA];
    Mark(q, COMMA, [], []);
    StylesCat(Prettifying, q, p, q, [COMMA], [COMMA], t', u');
    StylesCat(Prettifying, p, q, q, t, u, [COMMA] + t', [COMMA] + u');
  }

  lemma {:induction false} ObjectStyles(p: Place, calls: seq<W.Call>)
    requires AtEntry(p) && Simple(calls)
    ensures Styles(Prettifying, p, p.(start := false), ValueOf(false, |p.open|, W.NewObject, calls),
      Before(p) + ValueOf(true, |p.open|, W.NewObject, calls))
    ensures D.ReadValue(false, |p.open|, W.NewObject, calls).1 == D.ReadValue(true, |p.open|, W.NewObject, calls).1
    ensures Simple(D.ReadValue(true, |p.open|, W.NewObject, calls).1)
    decreases |calls|, 2
  {
    hide Styles, Before, W.NewLine, Line, D.ReadValue, D.ReadMembers, J.Text, J.MembersText, D.MembersBare, Simple;
    var n, q := |p.open|, Entered(p, true);
    MembersStyles(q, calls);
    LineIs(n);
    LineIs(n + 1);
    D.MembersBareText(true, n + 1, calls);
    D.MembersBareText(false, n + 1, calls);
    NestedObject(true, n, calls);
    NestedObject(false, n, calls);
    var t, u := MembersOf(false, n + 1, calls), MembersOf(true, n + 1, calls);
    var some := D.ReadMembers(true, n + 1, calls).0.Member?;
    var lead, line := if some then Line(n + 1) else [], if some then Line(n) else [];
    NoMembers(true, n + 1, calls);
    Contained(p, true, LBRACE, RBRACE, t, lead + u, line);
    Around(LBRACE, lead, u, line, RBRACE);
    assert t + [] == t && [] + (t + [RBRACE]) == t + [RBRACE];
  }

  lemma NestedObject(pretty: bool, level: nat, calls: seq<W.Call>)
    requires Simple(calls)
    ensures var items := D.ReadMembers(pretty, level + 1, calls).0;
      ValueOf(pretty, level, W.NewObject, calls)
        == [LBRACE] + ((if items.Member? then W.NewLine(pretty, level + 1) else []) + (J.MembersText(items) + [RBRACE]))
    ensures D.ReadValue(pretty, level, W.NewObject, calls).1 == D.SkipEnd(D.ReadMembers(pretty, level + 1, calls).1)
    ensures var rest := D.ReadMembers(pretty, level + 1, calls).1; Simple(rest) ==> Simple(D.SkipEnd(rest))
  {
  }

  function MembersOf(pretty: bool, level: nat, calls: seq<W.Call>): Bytes
    requires level > 0
  {
    D.MembersBare(D.ReadMembers(pretty, level, calls).0)
  }

  lemma {:induction false} MembersStyles(p: Place, calls: seq<W.Call>)
    requires AtEntry(p) && p.start && Simple(calls)
    ensures var (ms, n) := (D.ReadMembers(true, |p.open|, calls).0, |p.open|);
      && (ms.NoMembers? <==> D.ReadMembers(false, n, calls).0.NoMembers?)
      && (ms.NoMembers? <==> MembersOf(false, n, calls) == [])
      && (ms.Member? ==>
        Styles(Prettifying, p, p.(start := false), MembersOf(false, n, calls), Line(n) + MembersOf(true, n, calls)))
    ensures D.ReadMembers(false, |p.open|, calls).1 == D.ReadMembers(true, |p.open|, calls).1
    ensures Simple(D.ReadMembers(true, |p.open|, calls).1)
    decreases |calls|, 1
  {
    hide Styles, W.NewLine, Line, J.Text, J.Quoted;
    if calls != [] && calls[0].PutMember? {
      var n, key, payload, q := |p.open|, calls[0].key, calls[0].payload, p.(start := false);
      LineIs(n);
      assert SimpleCall(calls[0]);
      KeyStyles(p, key);
      ValueStyles(q, payload, calls[1..]);
      var rest := D.ReadValue(true, n, payload, calls[1..]).1;
      var k := J.Quoted(key);
      var v, v' := ValueOf(false, n, payload, calls[1..]), ValueOf(true, n, payload, calls[1..]);
      NoLine(q, v');
      StylesCat(Prettifying, p, q, q, k + [COLON], Line(n) + k + [COLON, SPACE], v, v');
      MembersStyles(p, rest);
      var t, u := MembersOf(false, n, rest), MembersOf(true, n, rest);
      if D.ReadMembers(true, n, rest).0.Member? {
        CommaStyles(p, q, (k + [COLON]) + v, (Line(n) + k + [COLON, SPACE]) + v', t, Line(n) + u);
        MoreMembers(k, v, t, Line(n), v', u);
      } else {
        LastMember(k, v, Line(n), v');
      }
    }
  }

  lemma NoLine(q: Place, v: Bytes)
    requires !q.start
    ensures Before(q) + v == v
  {
  }

  lemma MoreMembers(k: Bytes, v: Bytes, t: Bytes, line: Bytes, v': Bytes, u: Bytes)
    ensures ((k + [COLON]) + v) + ([COMMA] + t) == k + ([COLON] + ([] + (v + ([COMMA] + ([] + t)))))
    ensures ((line + k + [COLON, SPACE]) + v') + ([COMMA] + (line + u))
      == line + (k + ([COLON] + ([SPACE] + (v' + ([COMMA] + (line + u))))))
  {
    assert [] + t == t && [] + (v + ([COMMA] + t)) == v + ([COMMA] + t);
    assert (line + k + [COLON, SPACE]) + v' == line + (k + ([COLON] + ([SPACE] + v')));
  }

  lemma LastMember(k: Bytes, v: Bytes, line: Bytes, v': Bytes)
    ensures (k + [COLON]) + v == k + ([COLON] + ([] + (v + [])))
    ensures (line + k + [COLON, SPACE]) + v' == line + (k + ([COLON] + ([SPACE] + (v' + []))))
  {
    assert v + [] == v && [] + v == v && v' + [] == v';
  }

  /** The key and the colon of a member. */
  lemma KeyStyles(p: Place, key: Bytes)
    requires AtEntry(p) && p.start && T.PlainBody(key)
    ensures Styles(Prettifying, p, p.(start := false), J.Quoted(key) + [COLON],
      Line(|p.open|) + J.Quoted(key) + [COLON, SPACE])
  {
    hide Styles, Line, J.Quoted;
    var q := p.(start := false);
    StringStyles(p, key);
    assert [] + ([COLON] + [SPACE]) == [COLON, SPACE];
    Mark(q, COLON, [], [SPACE]);
    StylesCat(Prettifying, p, q, q, J.Quoted(key), Line(|p.open|) + J.Quoted(key), [COLON], [COLON, SPACE]);
  }

  /**
   * What the writer puts, byte by byte: a compact document has no white space outside strings; the pretty one is the
   * compact one with the white space of the format put in; and taking that out again gives the compact one.
   */
  lemma DocumentStyle(root: W.NodeKind, calls: seq<W.Call>)
    requires Simple(calls)
    ensures var (t, u) := (J.Text(D.Denote(root, false, calls)), J.Text(D.Denote(root, true, calls)));
      Squeezed(OUTSIDE, t) == t && Squeezed(OUTSIDE, u) == t && Restyled(Prettifying, OUTSIDE, t) == u
  {
    hide Squeezed, Restyled, Through, D.Denote;
    NoLine(OUTSIDE, J.Text(D.Denote(root, true, calls)));
    if root == W.ObjectNode {
      RootObject(calls);
    } else {
      RootArray(calls);
    }
  }

  lemma RootAround(left: Byte, lead: Bytes, u: Bytes, right: Byte, some: bool)
    requires !some ==> lead == u == []
    ensures [left] + ((if some then lead else [LF]) + ((u + if some then [LF] else []) + [right]))
      == [left] + ((lead + u) + ([LF] + [right]))
  {
    if some {
      Around(left, lead, u, [LF], right);
    }
  }

  lemma ObjectText(pretty: bool, calls: seq<W.Call>)
    ensures var items := D.ReadMembers(pretty, 1, calls).0;
      J.Text(D.Denote(W.ObjectNode, pretty, calls))
        == [LBRACE] + (W.NewLine(pretty, if items.Member? then 1 else 0) + (J.MembersText(items) + [RBRACE]))
  {
  }

  lemma RootObject(calls: seq<W.Call>)
    requires Simple(calls)
    ensures Styles(Prettifying, OUTSIDE, OUTSIDE, J.Text(D.Denote(W.ObjectNode, false, calls)),
      Before(OUTSIDE) + J.Text(D.Denote(W.ObjectNode, true, calls)))
  {
    hide Before, W.NewLine, Line, Styles, J.Text, D.Denote, D.ReadMembers, D.MembersBare, J.MembersText, Simple;
    LineIs(0);
    LineIs(1);
    MembersStyles(Entered(OUTSIDE, true), calls);
    D.MembersBareText(true, 1, calls);
    D.MembersBareText(false, 1, calls);
    ObjectText(true, calls);
    ObjectText(false, calls);
    var t, u := MembersOf(false, 1, calls), MembersOf(true, 1, calls);
    var some := D.ReadMembers(true, 1, calls).0.Member?;
    var lead := if some then Line(1) else [];
    NoMembers(true, 1, calls);
    Contained(OUTSIDE, true, LBRACE, RBRACE, t, lead + u, [LF]);
    RootAround(LBRACE, lead, u, RBRACE, some);
    assert t + [] == t && [] + (t + [RBRACE]) == t + [RBRACE];
  }

  lemma NoMembers(pretty: bool, level: nat, calls: seq<W.Call>)
    requires level > 0
    ensures D.ReadMembers(pretty, level, calls).0.NoMembers? ==> MembersOf(pretty, level, calls) == []
  {
  }

  lemma ArrayText(pretty: bool, calls: seq<W.Call>)
    ensures var items := D.ReadElems(pretty, 1, calls).0;
      J.Text(D.Denote(W.ArrayNode, pretty, calls))
        == [LBRACKET] + (W.NewLine(pretty, if items.Elem? then 1 else 0) + (J.ElemsText(items) + [RBRACKET]))
  {
  }

  lemma RootArray(calls: seq<W.Call>)
    requires Simple(calls)
    ensures Styles(Prettifying, OUTSIDE, OUTSIDE, J.Text(D.Denote(W.ArrayNode, false, calls)),
      Before(OUTSIDE) + J.Text(D.Denote(W.ArrayNode, true, calls)))
  {
    hide Before, W.NewLine, Line, Styles, J.Text, D.Denote, D.ReadElems, D.ElemsBare, J.ElemsText, Simple;
    LineIs(0);
    LineIs(1);
    ElemsStyles(Entered(OUTSIDE, false), calls);
    D.ElemsBareText(true, 1, calls);
    D.ElemsBareText(false, 1, calls);
    ArrayText(true, calls);
    ArrayText(false, calls);
    var t, u := ElemsOf(false, 1, calls), ElemsOf(true, 1, calls);
    var some := D.ReadElems(true, 1, calls).0.Elem?;
    var lead := if some then Line(1) else [];
    NoElems(true, 1, calls);
    Contained(OUTSIDE, false, LBRACKET, RBRACKET, t, lead + u, [LF]);
    RootAround(LBRACKET, lead, u, RBRACKET, some);
    assert t + [] == t && [] + (t + [RBRACKET]) == t + [RBRACKET];
  }

  lemma NoElems(pretty: bool, level: nat, calls: seq<W.Call>)
    requires level > 0
    ensures D.ReadElems(pretty, level, calls).0.NoElems? ==> ElemsOf(pretty, level, calls) == []
  {
  }

  /** What jwClose leaves in a pretty session is what it leaves in a compact one, with the white space of the format. */
  lemma SessionStyle(limit: nat, small: nat, root: W.NodeKind, calls: seq<W.Call>)
    requires Simple(calls)
    requires W.Session(limit, root, true, calls).error == W.Session(small, root, false, calls).error == W.Ok
    ensures var (t, u) := (W.Session(small, root, false, calls).text, W.Session(limit, root, true, calls).text);
      Squeezed(OUTSIDE, t) == t && Squeezed(OUTSIDE, u) == t && Restyled(Prettifying, OUTSIDE, t) == u
  {
    hide W.Session, D.Denote, Squeezed, Restyled;
    S.SessionResult(limit, root, true, calls);
    S.SessionResult(small, root, false, calls);
    DocumentStyle(root, calls);
    assert forall text: Bytes :: text[..|text|] == text;
  }
}
