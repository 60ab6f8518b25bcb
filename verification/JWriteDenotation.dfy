/** What a sequence of writer calls means as JSON, and that the writer writes exactly that. */
module JWriteDenotation {
  import opened Ascii
  import opened JWriteSpec
  import J = JsonText

  /** The first structural error of a sequence of calls, by kinds and nesting alone. */
  function Structure(kinds: seq<NodeKind>, calls: seq<Call>): Error
    requires |kinds| > 0
    decreases |calls|, 0
  {
    if calls == [] then (if |kinds| == 1 then Ok else NestError)
    else
      match calls[0]
      case End => if |kinds| == 1 then StackEmpty else Structure(kinds[..|kinds| - 1], calls[1..])
      case PutMember(_, p) =>
        if kinds[|kinds| - 1] != ObjectNode then NotObject else StructureIn(kinds, p, calls[1..])
      case PutElement(p) =>
        if kinds[|kinds| - 1] != ArrayNode then NotArray else StructureIn(kinds, p, calls[1..])
  }

  function StructureIn(kinds: seq<NodeKind>, p: Payload, calls: seq<Call>): Error
    requires |kinds| > 0
    decreases |calls|, 1
  {
    if p.Raw? || p.Quoted? then Structure(kinds, calls)
    else if |kinds| >= 32 then StackFull
    else Structure(kinds + [if p.NewObject? then ObjectNode else ArrayNode], calls)
  }

  /** The value that a payload starts, read from the calls that follow; `level` is how deep it is nested. */
  function ReadValue(pretty: bool, level: nat, p: Payload, calls: seq<Call>): (r: (J.Value, seq<Call>))
    ensures |r.1| <= |calls|
    decreases |calls|, 1
  {
    match p
    case Raw(text) => (J.Lit(text), calls)
    case Quoted(body) => (J.Str(body), calls)
    case NewObject =>
      var (ms, rest) := ReadMembers(pretty, level + 1, calls);
      (J.Obj(Lead(pretty, level + 1, ms.Member?), ms), SkipEnd(rest))
    case NewArray =>
      var (es, rest) := ReadElems(pretty, level + 1, calls);
      (J.Arr(Lead(pretty, level + 1, es.Elem?), es), SkipEnd(rest))
  }

  function SkipEnd(calls: seq<Call>): (r: seq<Call>)
    ensures |r| <= |calls|
  {
    if calls != [] && calls[0].End? then calls[1..] else calls
  }

  /** White space after an opening bracket: none in an empty container. */
  function Lead(pretty: bool, level: nat, nonempty: bool): Bytes {
    if nonempty then NewLine(pretty, level) else []
  }

  /** The elements written up to the next unmatched end. */
  function ReadElems(pretty: bool, level: nat, calls: seq<Call>): (r: (J.Elems, seq<Call>))
    requires level > 0
    ensures |r.1| <= |calls|
    decreases |calls|, 0
  {
    if calls == [] || !calls[0].PutElement? then (J.NoElems, calls)
    else
      var (v, rest) := ReadValue(pretty, level, calls[0].payload, calls[1..]);
      var (es, rest') := ReadElems(pretty, level, rest);
      (J.Elem(v, if es.NoElems? then NewLine(pretty, level - 1) else [], NewLine(pretty, level), es), rest')
  }

  function ReadMembers(pretty: bool, level: nat, calls: seq<Call>): (r: (J.Members, seq<Call>))
    requires level > 0
    ensures |r.1| <= |calls|
    decreases |calls|, 0
  {
    if calls == [] || !calls[0].PutMember? then (J.NoMembers, calls)
    else
      var (v, rest) := ReadValue(pretty, level, calls[0].payload, calls[1..]);
      var (ms, rest') := ReadMembers(pretty, level, rest);
      (J.Member(calls[0].key, [], if pretty then [SPACE] else [], v,
         if ms.NoMembers? then NewLine(pretty, level - 1) else [], NewLine(pretty, level), ms), rest')
  }

  /** The document that a whole sequence of calls describes. */
  function Denote(root: NodeKind, pretty: bool, calls: seq<Call>): J.Value {
    if root == ObjectNode then
      var ms := ReadMembers(pretty, 1, calls).0;
      J.Obj(NewLine(pretty, if ms.Member? then 1 else 0), ms)
    else
      var es := ReadElems(pretty, 1, calls).0;
      J.Arr(NewLine(pretty, if es.Elem? then 1 else 0), es)
  }

  function Kinds(stack: seq<Node>): (r: seq<NodeKind>)
    ensures |r| == |stack|
  {
    seq(|stack|, i requires 0 <= i < |stack| => stack[i].kind)
  }

  /** `n` more values in the current container. */
  function Counted(stack: seq<Node>, n: nat): (r: seq<Node>)
    requires |stack| > 0
    ensures |r| == |stack| && Kinds(r) == Kinds(stack)
  {
    var last := |stack| - 1;
    assert Kinds(stack[last := stack[last].(count := stack[last].count + n)]) == Kinds(stack);
    stack[last := stack[last].(count := stack[last].count + n)]
  }

  /** The text of the elements without the white space before the closing bracket. */
  function ElemsBare(es: J.Elems): Bytes {
    match es
    case NoElems => []
    case Elem(v, _, sep, rest) => J.Text(v) + if rest.NoElems? then [] else [COMMA] + (sep + ElemsBare(rest))
  }

  function MembersBare(ms: J.Members): Bytes {
    match ms
    case NoMembers => []
    case Member(key, _, postColon, v, _, sep, rest) =>
      J.Quoted(key)
        + ([COLON] + (postColon + (J.Text(v) + if rest.NoMembers? then [] else [COMMA] + (sep + MembersBare(rest)))))
  }

  lemma {:induction false} ElemsBareText(pretty: bool, level: nat, calls: seq<Call>)
    requires level > 0
    ensures var es := ReadElems(pretty, level, calls).0;
      J.ElemsText(es) == ElemsBare(es) + if es.Elem? then NewLine(pretty, level - 1) else []
    decreases |calls|
  {
    if calls != [] && calls[0].PutElement? {
      ElemsBareText(pretty, level, ReadValue(pretty, level, calls[0].payload, calls[1..]).1);
    }
  }

  lemma MemberRegroup(q: Bytes, space: Bytes, v: Bytes, post: Bytes, tail: Bytes, bare: Bytes, line: Bytes)
    requires post + tail == bare + line
    ensures q + ([] + ([COLON] + (space + (v + (post + tail))))) == q + ([COLON] + (space + (v + bare))) + line
  {
    assert v + (bare + line) == v + bare + line;
    assert space + (v + bare + line) == space + (v + bare) + line;
  }

  lemma {:induction false} MembersBareText(pretty: bool, level: nat, calls: seq<Call>)
    requires level > 0
    ensures var ms := ReadMembers(pretty, level, calls).0;
      J.MembersText(ms) == MembersBare(ms) + if ms.Member? then NewLine(pretty, level - 1) else []
    decreases |calls|
  {
    if calls != [] && calls[0].PutMember? {
      var (v, rest) := ReadValue(pretty, level, calls[0].payload, calls[1..]);
      MembersBareText(pretty, level, rest);
      var line, sep := NewLine(pretty, level - 1), NewLine(pretty, level);
      var space := if pretty then [SPACE] else [];
      BareStep(calls[0].key, space, v, sep, line, ReadMembers(pretty, level, rest).0);
      hide J.MembersText, MembersBare, NewLine, ReadValue;
    }
  }

  lemma BareStep(key: Bytes, space: Bytes, v: J.Value, sep: Bytes, line: Bytes, rest: J.Members)
    requires J.MembersText(rest) == MembersBare(rest) + if rest.Member? then line else []
    ensures var ms := J.Member(key, [], space, v, if rest.NoMembers? then line else [], sep, rest);
      J.MembersText(ms) == MembersBare(ms) + line
  {
    hide J.Text, J.Quoted;
    if rest.Member? {
      var bare := MembersBare(rest);
      assert [] + ([COMMA] + (sep + (bare + line))) == [COMMA] + (sep + bare) + line;
      MemberRegroup(J.Quoted(key), space, J.Text(v), [], [COMMA] + (sep + (bare + line)), [COMMA] + (sep + bare), line);
    } else {
      MemberRegroup(J.Quoted(key), space, J.Text(v), line, [], [], line);
    }
  }

  /** What stands between the text so far and the next value of the current container. */
  function Gap(w: Writer): Bytes
    requires Valid(w)
  {
    (if Top(w).count > 0 then [COMMA] else []) + NewLine(w.pretty, |w.stack|)
  }

  /** `u` is `w` after more text and, in its current container, `n` more values. */
  predicate Wrote(w: Writer, u: Writer, s: Bytes, n: nat) {
    && Valid(w) && Valid(u)
    && u.text == w.text + s && u.stack == Counted(w.stack, n)
    && u.limit == w.limit && u.pretty == w.pretty && w.error == u.error == Ok
  }

  lemma WroteMore(w: Writer, u: Writer, t: Writer, a: Bytes, b: Bytes, m: nat, n: nat)
    requires Wrote(w, u, a, m) && Wrote(u, t, b, n)
    ensures Wrote(w, t, a + b, m + n)
  {
  }

  lemma WroteAll(w: Writer, u: Writer, t: Writer, a: Bytes, b: Bytes, c: Bytes, n: nat)
    requires Wrote(w, u, a, 1) && Wrote(u, t, b, n) && c == a + b
    ensures Wrote(w, t, c, 1 + n)
  {
    WroteMore(w, u, t, a, b, 1, n);
  }

  lemma PutWrote(w: Writer, s: Bytes)
    requires Valid(w) && w.error == Ok && |w.text| + |s| <= w.limit
    ensures Wrote(w, Put(w, s), s, 0)
  {
  }

  /** The comma and the line break before a value. */
  lemma GapWrote(w: Writer) returns (u: Writer)
    requires Valid(w) && w.error == Ok && |w.text| + |Gap(w)| <= w.limit
    ensures u == Pretty(Separate(w.(callNo := w.callNo + 1))) && Wrote(w, u, Gap(w), 1)
  {
    var w1 := Separate(w.(callNo := w.callNo + 1));
    var comma := if Top(w).count > 0 then [COMMA] else [];
    assert Wrote(w, w1, comma, 1);
    u := Pretty(w1);
    PutWrote(w1, NewLine(w.pretty, |w.stack|));
    WroteMore(w, w1, u, comma, NewLine(w.pretty, |w.stack|), 1, 0);
  }

  lemma ElementHeadWrote(w: Writer)
    requires Valid(w) && w.error == Ok && Top(w).kind == ArrayNode && |w.text| + |Gap(w)| <= w.limit
    ensures Wrote(w, ElementHead(w), Gap(w), 1)
  {
    var u := GapWrote(w);
  }

  lemma MemberHeadWrote(w: Writer, key: CString)
    requires Valid(w) && w.error == Ok && Top(w).kind == ObjectNode
    requires |w.text| + |Gap(w)| + |KeyText(w.pretty, key)| <= w.limit
    ensures Wrote(w, MemberHead(w, key), Gap(w) + KeyText(w.pretty, key), 1)
  {
    var u := GapWrote(w);
    PutWrote(u, KeyText(w.pretty, key));
    WroteMore(w, u, MemberHead(w, key), Gap(w), KeyText(w.pretty, key), 1, 0);
  }

  /** What the elements that the calls write add to the text. */
  function ElemsAdded(w: Writer, calls: seq<Call>): Bytes
    requires Valid(w)
  {
    var es := ReadElems(w.pretty, |w.stack|, calls).0;
    if es.NoElems? then [] else Gap(w) + ElemsBare(es)
  }

  function MembersAdded(w: Writer, calls: seq<Call>): Bytes
    requires Valid(w)
  {
    var ms := ReadMembers(w.pretty, |w.stack|, calls).0;
    if ms.NoMembers? then [] else Gap(w) + MembersBare(ms)
  }

  /** What elements add after an earlier one. */
  function MoreElems(pretty: bool, level: nat, calls: seq<Call>): Bytes
    requires level > 0
  {
    var es := ReadElems(pretty, level, calls).0;
    if es.NoElems? then [] else [COMMA] + (NewLine(pretty, level) + ElemsBare(es))
  }

  function MoreMembers(pretty: bool, level: nat, calls: seq<Call>): Bytes
    requires level > 0
  {
    var ms := ReadMembers(pretty, level, calls).0;
    if ms.NoMembers? then [] else [COMMA] + (NewLine(pretty, level) + MembersBare(ms))
  }

  lemma ElemsAddedSplit(w: Writer, calls: seq<Call>)
    requires Valid(w) && calls != [] && calls[0].PutElement?
    ensures var (v, rest) := ReadValue(w.pretty, |w.stack|, calls[0].payload, calls[1..]);
      var (all, later) := (ReadElems(w.pretty, |w.stack|, calls), ReadElems(w.pretty, |w.stack|, rest));
      && ElemsAdded(w, calls) == Gap(w) + J.Text(v) + MoreElems(w.pretty, |w.stack|, rest)
      && all.1 == later.1 && J.ElemCount(all.0) == 1 + J.ElemCount(later.0)
  {
  }

  lemma MembersAddedSplit(w: Writer, calls: seq<Call>)
    requires Valid(w) && calls != [] && calls[0].PutMember?
    ensures var (v, rest) := ReadValue(w.pretty, |w.stack|, calls[0].payload, calls[1..]);
      var (all, later) := (ReadMembers(w.pretty, |w.stack|, calls), ReadMembers(w.pretty, |w.stack|, rest));
      && MembersAdded(w, calls)
        == Gap(w) + KeyText(w.pretty, calls[0].key) + J.Text(v) + MoreMembers(w.pretty, |w.stack|, rest)
      && all.1 == later.1 && J.MemberCount(all.0) == 1 + J.MemberCount(later.0)
  {
    var (v, rest) := ReadValue(w.pretty, |w.stack|, calls[0].payload, calls[1..]);
    var ms := ReadMembers(w.pretty, |w.stack|, rest).0;
    var tail := MoreMembers(w.pretty, |w.stack|, rest);
    var space := if w.pretty then [SPACE] else [];
    assert tail == if ms.NoMembers? then [] else [COMMA] + (NewLine(w.pretty, |w.stack|) + MembersBare(ms));
    assert MembersBare(ReadMembers(w.pretty, |w.stack|, calls).0)
      == J.Quoted(calls[0].key) + ([COLON] + (space + (J.Text(v) + tail)));
    KeyRegroup(Gap(w), J.Quoted(calls[0].key), space, J.Text(v), tail);
  }

  lemma KeyRegroup(gap: Bytes, q: Bytes, space: Bytes, v: Bytes, tail: Bytes)
    ensures gap + (q + ([COLON] + (space + (v + tail)))) == gap + (q + ([COLON] + space)) + v + tail
  {
    assert [COLON] + (space + (v + tail)) == [COLON] + space + v + tail;
    assert q + ([COLON] + space + v + tail) == q + ([COLON] + space) + v + tail;
  }

  lemma MoreIsAdded(w: Writer, calls: seq<Call>)
    requires Valid(w) && Top(w).count > 0
    ensures ElemsAdded(w, calls) == MoreElems(w.pretty, |w.stack|, calls)
    ensures MembersAdded(w, calls) == MoreMembers(w.pretty, |w.stack|, calls)
  {
  }

  /** Whatever is called afterwards, the calls bring the writer from `w` to `u` and leave `rest` to do. */
  ghost predicate Brings(w: Writer, calls: seq<Call>, u: Writer, rest: seq<Call>) {
    Valid(w) && Valid(u) && forall more: seq<Call> :: DoAll(w, calls + more) == DoAll(u, rest + more)
  }

  lemma BringsStep(w: Writer, calls: seq<Call>)
    requires Valid(w) && calls != []
    ensures Brings(w, calls, Do(w, calls[0]), calls[1..])
  {
    forall more: seq<Call> ensures DoAll(w, calls + more) == DoAll(Do(w, calls[0]), calls[1..] + more) {
      assert (calls + more)[1..] == calls[1..] + more;
    }
  }

  lemma BringsOn(w: Writer, a: seq<Call>, u: Writer, b: seq<Call>, t: Writer, c: seq<Call>)
    requires Brings(w, a, u, b) && Brings(u, b, t, c)
    ensures Brings(w, a, t, c)
  {
  }

  predicate WellFormed(w: Writer, calls: seq<Call>) {
    Valid(w) && Structure(Kinds(w.stack), calls) == Ok
  }

  lemma NoElemsWritten(w: Writer, calls: seq<Call>)
    requires WellFormed(w, calls) && w.error == Ok && Top(w).kind == ArrayNode && (calls == [] || !calls[0].PutElement?)
    ensures var (items, rest) := ReadElems(w.pretty, |w.stack|, calls);
      rest == calls && Wrote(w, w, ElemsAdded(w, calls), J.ElemCount(items)) && (calls == [] || calls[0].End?)
  {
    assert Kinds(w.stack)[|w.stack| - 1] == ArrayNode;
    assert Counted(w.stack, 0) == w.stack;
  }

  lemma {:induction false} ElemsWritten(w: Writer, calls: seq<Call>) returns (u: Writer)
    requires WellFormed(w, calls) && w.error == Ok && Top(w).kind == ArrayNode
    requires |w.text| + |ElemsAdded(w, calls)| <= w.limit
    ensures var (es, rest) := ReadElems(w.pretty, |w.stack|, calls);
      && Wrote(w, u, ElemsAdded(w, calls), J.ElemCount(es))
      && Brings(w, calls, u, rest) && WellFormed(u, rest) && (rest == [] || rest[0].End?)
    decreases |calls|, 1
  {
    if calls == [] || !calls[0].PutElement? {
      NoElemsWritten(w, calls);
      u := w;
    } else {
      ElemsAddedSplit(w, calls);
      var u1 := ElemWritten(w, calls);
      var rest := ReadValue(w.pretty, |w.stack|, calls[0].payload, calls[1..]).1;
      MoreIsAdded(u1, rest);
      u := ElemsWritten(u1, rest);
      ElemsCombined(w, calls, u1, u);
    }
  }

  lemma ElemsCombined(w: Writer, calls: seq<Call>, u1: Writer, u: Writer)
    requires Valid(w) && calls != [] && calls[0].PutElement?
    requires var (v, rest) := ReadValue(w.pretty, |w.stack|, calls[0].payload, calls[1..]);
      && Wrote(w, u1, Gap(w) + J.Text(v), 1) && Brings(w, calls, u1, rest)
      && Wrote(u1, u, ElemsAdded(u1, rest), J.ElemCount(ReadElems(w.pretty, |w.stack|, rest).0))
      && Brings(u1, rest, u, ReadElems(w.pretty, |w.stack|, rest).1)
    ensures Wrote(w, u, ElemsAdded(w, calls), J.ElemCount(ReadElems(w.pretty, |w.stack|, calls).0))
    ensures Brings(w, calls, u, ReadElems(w.pretty, |w.stack|, calls).1)
  {
    var (v, rest) := ReadValue(w.pretty, |w.stack|, calls[0].payload, calls[1..]);
    ElemsAddedSplit(w, calls);
    MoreIsAdded(u1, rest);
    BringsOn(w, calls, u1, rest, u, ReadElems(w.pretty, |w.stack|, calls).1);
    WroteAll(w, u1, u, Gap(w) + J.Text(v), ElemsAdded(u1, rest), ElemsAdded(w, calls),
      J.ElemCount(ReadElems(w.pretty, |w.stack|, rest).0));
  }

  lemma {:induction false} ElemWritten(w: Writer, calls: seq<Call>) returns (u: Writer)
    requires WellFormed(w, calls) && w.error == Ok && Top(w).kind == ArrayNode && calls != [] && calls[0].PutElement?
    requires |w.text| + |Gap(w)| + |J.Text(ReadValue(w.pretty, |w.stack|, calls[0].payload, calls[1..]).0)| <= w.limit
    ensures var (v, rest) := ReadValue(w.pretty, |w.stack|, calls[0].payload, calls[1..]);
      Wrote(w, u, Gap(w) + J.Text(v), 1) && Brings(w, calls, u, rest) && WellFormed(u, rest)
    decreases |calls|, 0
  {
    var p := calls[0].payload;
    var w1 := ElementHead(w);
    ElementHeadWrote(w);
    u := ValueWritten(w1, p, calls[1..]);
    BringsStep(w, calls);
    BringsOn(w, calls, PutPayload(w1, p), calls[1..], u, ReadValue(w.pretty, |w.stack|, p, calls[1..]).1);
    WroteMore(w, w1, u, Gap(w), J.Text(ReadValue(w.pretty, |w.stack|, p, calls[1..]).0), 1, 0);
  }

  lemma NoMembersWritten(w: Writer, calls: seq<Call>)
    requires WellFormed(w, calls) && w.error == Ok && Top(w).kind == ObjectNode && (calls == [] || !calls[0].PutMember?)
    ensures var (items, rest) := ReadMembers(w.pretty, |w.stack|, calls);
      rest == calls && Wrote(w, w, MembersAdded(w, calls), J.MemberCount(items)) && (calls == [] || calls[0].End?)
  {
    assert Kinds(w.stack)[|w.stack| - 1] == ObjectNode;
    assert Counted(w.stack, 0) == w.stack;
  }

  lemma {:induction false} MembersWritten(w: Writer, calls: seq<Call>) returns (u: Writer)
    requires WellFormed(w, calls) && w.error == Ok && Top(w).kind == ObjectNode
    requires |w.text| + |MembersAdded(w, calls)| <= w.limit
    ensures var (ms, rest) := ReadMembers(w.pretty, |w.stack|, calls);
      && Wrote(w, u, MembersAdded(w, calls), J.MemberCount(ms))
      && Brings(w, calls, u, rest) && WellFormed(u, rest) && (rest == [] || rest[0].End?)
    decreases |calls|, 1
  {
    if calls == [] || !calls[0].PutMember? {
      NoMembersWritten(w, calls);
      u := w;
    } else {
      MembersAddedSplit(w, calls);
      var u1 := MemberWritten(w, calls);
      var rest := ReadValue(w.pretty, |w.stack|, calls[0].payload, calls[1..]).1;
      MoreIsAdded(u1, rest);
      u := MembersWritten(u1, rest);
      MembersCombined(w, calls, u1, u);
    }
  }

  lemma MembersCombined(w: Writer, calls: seq<Call>, u1: Writer, u: Writer)
    requires Valid(w) && calls != [] && calls[0].PutMember?
    requires var (v, rest) := ReadValue(w.pretty, |w.stack|, calls[0].payload, calls[1..]);
      && Wrote(w, u1, Gap(w) + KeyText(w.pretty, calls[0].key) + J.Text(v), 1) && Brings(w, calls, u1, rest)
      && Wrote(u1, u, MembersAdded(u1, rest), J.MemberCount(ReadMembers(w.pretty, |w.stack|, rest).0))
      && Brings(u1, rest, u, ReadMembers(w.pretty, |w.stack|, rest).1)
    ensures Wrote(w, u, MembersAdded(w, calls), J.MemberCount(ReadMembers(w.pretty, |w.stack|, calls).0))
    ensures Brings(w, calls, u, ReadMembers(w.pretty, |w.stack|, calls).1)
  {
    var (v, rest) := ReadValue(w.pretty, |w.stack|, calls[0].payload, calls[1..]);
    MembersAddedSplit(w, calls);
    MoreIsAdded(u1, rest);
    BringsOn(w, calls, u1, rest, u, ReadMembers(w.pretty, |w.stack|, calls).1);
    WroteAll(w, u1, u, Gap(w) + KeyText(w.pretty, calls[0].key) + J.Text(v),
      MembersAdded(u1, rest), MembersAdded(w, calls),
      J.MemberCount(ReadMembers(w.pretty, |w.stack|, rest).0));
  }

  lemma {:induction false} MemberWritten(w: Writer, calls: seq<Call>) returns (u: Writer)
    requires WellFormed(w, calls) && w.error == Ok && Top(w).kind == ObjectNode && calls != [] && calls[0].PutMember?
    requires |w.text| + |Gap(w)| + |KeyText(w.pretty, calls[0].key)|
      + |J.Text(ReadValue(w.pretty, |w.stack|, calls[0].payload, calls[1..]).0)| <= w.limit
    ensures var (v, rest) := ReadValue(w.pretty, |w.stack|, calls[0].payload, calls[1..]);
      Wrote(w, u, Gap(w) + KeyText(w.pretty, calls[0].key) + J.Text(v), 1)
        && Brings(w, calls, u, rest) && WellFormed(u, rest)
    decreases |calls|, 0
  {
    var p := calls[0].payload;
    var w1 := MemberHead(w, calls[0].key);
    MemberHeadWrote(w, calls[0].key);
    u := ValueWritten(w1, p, calls[1..]);
    BringsStep(w, calls);
    BringsOn(w, calls, PutPayload(w1, p), calls[1..], u, ReadValue(w.pretty, |w.stack|, p, calls[1..]).1);
    WroteMore(w, w1, u, Gap(w) + KeyText(w.pretty, calls[0].key),
      J.Text(ReadValue(w.pretty, |w.stack|, p, calls[1..]).0), 1, 0);
  }

  /** A value after its head: `w` is the writer when the payload is put. */
  lemma {:induction false} ValueWritten(w: Writer, p: Payload, calls: seq<Call>) returns (u: Writer)
    requires Valid(w) && StructureIn(Kinds(w.stack), p, calls) == Ok && w.error == Ok
    requires |w.text| + |J.Text(ReadValue(w.pretty, |w.stack|, p, calls).0)| <= w.limit
    ensures var (v, rest) := ReadValue(w.pretty, |w.stack|, p, calls);
      && Wrote(w, u, J.Text(v), 0)
      && Brings(PutPayload(w, p), calls, u, rest) && WellFormed(u, rest)
    decreases |calls|, 3
  {
    match p
    case Raw(_) => u := PutPayload(w, p);
    case Quoted(_) => u := PutPayload(w, p);
    case NewArray => u := ArrayWritten(w, calls);
    case NewObject => u := ObjectWritten(w, calls);
  }

  /** The writer inside a container that was just opened. */
  lemma Pushed(w: Writer, kind: NodeKind, calls: seq<Call>) returns (u: Writer)
    requires Valid(w) && w.error == Ok && |w.text| < w.limit
    requires StructureIn(Kinds(w.stack), if kind == ArrayNode then NewArray else NewObject, calls) == Ok
    ensures u == PutPayload(w, if kind == ArrayNode then NewArray else NewObject)
    ensures u == w.(text := w.text + [OpenBracket(kind)], stack := w.stack + [Node(kind, 0)])
    ensures WellFormed(u, calls) && Top(u).kind == kind
  {
    u := PutPayload(w, if kind == ArrayNode then NewArray else NewObject);
    assert Kinds(u.stack) == Kinds(w.stack) + [kind];
  }

  /** Text between brackets, put together in the order in which it was written. */
  lemma Between(before: Bytes, left: Byte, inside: Bytes, line: Bytes, right: Byte)
    ensures before + [left] + inside + line + [right] == before + ([left] + inside + line + [right])
  {
  }

  /** Ending a container into which `n` values were written after `w` had opened it. */
  lemma Popped(w: Writer, w1: Writer, u1: Writer, n: nat, calls: seq<Call>) returns (u: Writer)
    requires Valid(w) && Valid(w1) && w1.stack == w.stack + [Node(Top(w1).kind, 0)] && w1.pretty == w.pretty
    requires w1.limit == w.limit
    requires Valid(u1) && u1.error == Ok && u1.stack == Counted(w1.stack, n) && u1.pretty == w.pretty
    requires u1.limit == w.limit
    requires w.error == Ok
    requires WellFormed(u1, calls) && (calls == [] || calls[0].End?)
    requires |u1.text| + (if n > 0 then |NewLine(w.pretty, |w.stack|)| else 0) < w.limit
    ensures calls != [] && calls[0].End?
    ensures WellFormed(u, calls[1..]) && Brings(u1, calls, u, calls[1..])
    ensures u.stack == w.stack && u.pretty == w.pretty && u.limit == w.limit && u.error == Ok
    ensures u.text == u1.text + (if n > 0 then NewLine(w.pretty, |w.stack|) else []) + [CloseBracket(Top(w1).kind)]
  {
    u := EndNode(u1);
    BringsStep(u1, calls);
    assert u1.stack[..|u1.stack| - 1] == w.stack;
    assert Kinds(u1.stack)[..|u1.stack| - 1] == Kinds(w.stack);
  }

  lemma {:induction false} ArrayWritten(w: Writer, calls: seq<Call>) returns (u: Writer)
    requires Valid(w) && StructureIn(Kinds(w.stack), NewArray, calls) == Ok && w.error == Ok
    requires |w.text| + |J.Text(ReadValue(w.pretty, |w.stack|, NewArray, calls).0)| <= w.limit
    ensures var (v, rest) := ReadValue(w.pretty, |w.stack|, NewArray, calls);
      && Wrote(w, u, J.Text(v), 0)
      && Brings(PutPayload(w, NewArray), calls, u, rest) && WellFormed(u, rest)
    decreases |calls|, 2
  {
    var w1 := Pushed(w, ArrayNode, calls);
    var n, rest := ArrayParts(w, w1, calls);
    var u1 := ElemsWritten(w1, calls);
    u := Popped(w, w1, u1, n, rest);
    BringsOn(w1, calls, u1, rest, u, rest[1..]);
    Between(w.text, LBRACKET, ElemsAdded(w1, calls), if n > 0 then NewLine(w.pretty, |w.stack|) else [], RBRACKET);
    assert Counted(w.stack, 0) == w.stack;
  }

  /** The text of an array in terms of what is written into it after the opening bracket; it has `n` elements. */
  lemma ArrayParts(w: Writer, w1: Writer, calls: seq<Call>) returns (n: nat, rest: seq<Call>)
    requires Valid(w) && Valid(w1) && w1.stack == w.stack + [Node(ArrayNode, 0)] && w1.pretty == w.pretty
    ensures n == J.ElemCount(ReadElems(w1.pretty, |w1.stack|, calls).0)
    ensures rest == ReadElems(w1.pretty, |w1.stack|, calls).1
    ensures ReadValue(w.pretty, |w.stack|, NewArray, calls).1 == SkipEnd(rest)
    ensures J.Text(ReadValue(w.pretty, |w.stack|, NewArray, calls).0)
      == [LBRACKET] + ElemsAdded(w1, calls) + (if n > 0 then NewLine(w.pretty, |w.stack|) else []) + [RBRACKET]
  {
    var es := ReadElems(w.pretty, |w.stack| + 1, calls).0;
    n, rest := J.ElemCount(es), ReadElems(w.pretty, |w.stack| + 1, calls).1;
    ElemsBareText(w.pretty, |w.stack| + 1, calls);
    ElemCountPositive(es);
    var lead := Lead(w.pretty, |w.stack| + 1, es.Elem?);
    assert ElemsAdded(w1, calls) == lead + ElemsBare(es);
    assert ReadValue(w.pretty, |w.stack|, NewArray, calls).0 == J.Arr(lead, es);
    var line := if n > 0 then NewLine(w.pretty, |w.stack|) else [];
    ArrayText(lead, es, ElemsBare(es), line);
  }

  lemma Regroup(left: Byte, lead: Bytes, bare: Bytes, line: Bytes, right: Byte)
    ensures [left] + (lead + ((bare + line) + [right])) == [left] + (lead + bare) + line + [right]
  {
  }

  lemma ArrayText(lead: Bytes, es: J.Elems, bare: Bytes, line: Bytes)
    requires J.ElemsText(es) == bare + line
    ensures J.Text(J.Arr(lead, es)) == [LBRACKET] + (lead + bare) + line + [RBRACKET]
  {
    Regroup(LBRACKET, lead, bare, line, RBRACKET);
  }

  lemma ObjectText(lead: Bytes, ms: J.Members, bare: Bytes, line: Bytes)
    requires J.MembersText(ms) == bare + line
    ensures J.Text(J.Obj(lead, ms)) == [LBRACE] + (lead + bare) + line + [RBRACE]
  {
    Regroup(LBRACE, lead, bare, line, RBRACE);
  }

  lemma ObjectParts(w: Writer, w1: Writer, calls: seq<Call>) returns (n: nat, rest: seq<Call>)
    requires Valid(w) && Valid(w1) && w1.stack == w.stack + [Node(ObjectNode, 0)] && w1.pretty == w.pretty
    ensures n == J.MemberCount(ReadMembers(w1.pretty, |w1.stack|, calls).0)
    ensures rest == ReadMembers(w1.pretty, |w1.stack|, calls).1
    ensures ReadValue(w.pretty, |w.stack|, NewObject, calls).1 == SkipEnd(rest)
    ensures J.Text(ReadValue(w.pretty, |w.stack|, NewObject, calls).0)
      == [LBRACE] + MembersAdded(w1, calls) + (if n > 0 then NewLine(w.pretty, |w.stack|) else []) + [RBRACE]
  {
    var ms := ReadMembers(w.pretty, |w.stack| + 1, calls).0;
    n, rest := J.MemberCount(ms), ReadMembers(w.pretty, |w.stack| + 1, calls).1;
    MembersBareText(w.pretty, |w.stack| + 1, calls);
    MemberCountPositive(ms);
    var lead := Lead(w.pretty, |w.stack| + 1, ms.Member?);
    assert MembersAdded(w1, calls) == lead + MembersBare(ms);
    assert ReadValue(w.pretty, |w.stack|, NewObject, calls).0 == J.Obj(lead, ms);
    var line := if n > 0 then NewLine(w.pretty, |w.stack|) else [];
    ObjectText(lead, ms, MembersBare(ms), line);
  }

  lemma ElemCountPositive(es: J.Elems)
    ensures es.Elem? <==> J.ElemCount(es) > 0
  {
  }

  lemma MemberCountPositive(ms: J.Members)
    ensures ms.Member? <==> J.MemberCount(ms) > 0
  {
  }

  lemma {:induction false} ObjectWritten(w: Writer, calls: seq<Call>) returns (u: Writer)
    requires Valid(w) && StructureIn(Kinds(w.stack), NewObject, calls) == Ok && w.error == Ok
    requires |w.text| + |J.Text(ReadValue(w.pretty, |w.stack|, NewObject, calls).0)| <= w.limit
    ensures var (v, rest) := ReadValue(w.pretty, |w.stack|, NewObject, calls);
      && Wrote(w, u, J.Text(v), 0)
      && Brings(PutPayload(w, NewObject), calls, u, rest) && WellFormed(u, rest)
    decreases |calls|, 2
  {
    var w1 := Pushed(w, ObjectNode, calls);
    var n, rest := ObjectParts(w, w1, calls);
    var u1 := MembersWritten(w1, calls);
    u := Popped(w, w1, u1, n, rest);
    BringsOn(w1, calls, u1, rest, u, rest[1..]);
    Between(w.text, LBRACE, MembersAdded(w1, calls), if n > 0 then NewLine(w.pretty, |w.stack|) else [], RBRACE);
    assert Counted(w.stack, 0) == w.stack;
  }
}
