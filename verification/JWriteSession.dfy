/** Whole documents: what jwClose returns and what the buffer then holds, for every sequence of calls. */
module JWriteSession {
  import opened Ascii
  import opened JWriteSpec
  import opened JWriteDenotation
  import J = JsonText

  /** After an error every call leaves the writer as it is. */
  lemma {:induction false} ErrorSticks(w: Writer, calls: seq<Call>)
    requires Valid(w) && w.error != Ok
    ensures DoAll(w, calls) == w
    decreases |calls|
  {
    if calls != [] {
      ErrorSticks(w, calls[1..]);
    }
  }

  /** `b` is `a` after more writing. */
  predicate Extends(a: Writer, b: Writer) {
    Valid(a) && Valid(b) && a.text <= b.text && a.limit == b.limit && a.pretty == b.pretty
  }

  lemma PutExtends(w: Writer, s: Bytes)
    requires Valid(w)
    ensures Extends(w, Put(w, s))
  {
  }

  lemma CheckedExtends(w: Writer, kind: NodeKind)
    requires Valid(w)
    ensures Extends(w, Checked(w, kind))
  {
    var w1 := w.(callNo := w.callNo + 1);
    PutExtends(w1.(stack := Separate(w1).stack), [COMMA]);
  }

  lemma BeforeValueExtends(w: Writer, kind: NodeKind)
    requires Valid(w)
    ensures Extends(w, BeforeValue(w, kind))
  {
    CheckedExtends(w, kind);
    var w1 := Checked(w, kind);
    PutExtends(w1, NewLine(w1.pretty, |w1.stack|));
    ExtendsOn(w, w1, BeforeValue(w, kind));
  }

  lemma MemberHeadExtends(w: Writer, key: CString)
    requires Valid(w)
    ensures Extends(w, MemberHead(w, key))
  {
    BeforeValueExtends(w, ObjectNode);
    PutExtends(BeforeValue(w, ObjectNode), KeyText(w.pretty, key));
    ExtendsOn(w, BeforeValue(w, ObjectNode), Put(BeforeValue(w, ObjectNode), KeyText(w.pretty, key)));
  }

  lemma EndExtends(w: Writer)
    requires Valid(w)
    ensures Extends(w, EndNode(w))
  {
    var popped := if |w.stack| == 1 then w.(error := StackEmpty) else w.(stack := w.stack[..|w.stack| - 1]);
    PutExtends(popped, NewLine(w.pretty, |popped.stack|));
    PutExtends(if Top(w).count > 0 then Pretty(popped) else popped, [CloseBracket(Top(w).kind)]);
  }

  lemma PayloadExtends(w: Writer, p: Payload)
    requires Valid(w)
    ensures Extends(w, PutPayload(w, p))
  {
    match p
    case Raw(text) => PutExtends(w, text);
    case Quoted(body) => PutExtends(w, J.Quoted(body));
    case NewObject => PutExtends(w, [LBRACE]);
    case NewArray => PutExtends(w, [LBRACKET]);
  }

  lemma ExtendsOn(a: Writer, b: Writer, c: Writer)
    requires Extends(a, b) && Extends(b, c)
    ensures Extends(a, c)
  {
  }

  lemma DoExtends(w: Writer, c: Call)
    requires Valid(w)
    ensures Extends(w, Do(w, c))
  {
    match c
    case End => EndExtends(w);
    case PutMember(key, p) =>
      MemberHeadExtends(w, key);
      PayloadExtends(MemberHead(w, key), p);
      ExtendsOn(w, MemberHead(w, key), Do(w, c));
    case PutElement(p) =>
      BeforeValueExtends(w, ArrayNode);
      PayloadExtends(ElementHead(w), p);
      ExtendsOn(w, ElementHead(w), Do(w, c));
  }

  /** Whatever was written stays written. */
  lemma {:induction false} TextGrows(w: Writer, calls: seq<Call>)
    requires Valid(w)
    ensures Extends(w, DoAll(w, calls))
    decreases |calls|
  {
    if calls != [] {
      DoExtends(w, calls[0]);
      TextGrows(Do(w, calls[0]), calls[1..]);
    }
  }

  /** A document that is well structured and fits is written completely. */
  lemma SessionFits(limit: nat, root: NodeKind, pretty: bool, calls: seq<Call>)
    requires Structure([root], calls) == Ok && |J.Text(Denote(root, pretty, calls))| <= limit
    ensures var w := Session(limit, root, pretty, calls);
      w.error == Ok && w.text == J.Text(Denote(root, pretty, calls))
  {
    var w := Open(limit, root, pretty);
    assert Kinds(w.stack) == [root];
    if root == ObjectNode {
      ObjectSessionFits(w, calls);
    } else {
      ArraySessionFits(w, calls);
    }
  }

  /** The text of a root container as the writer puts it: `added` inside the brackets, then the closing of jwClose. */
  lemma RootText(left: Byte, lead: Bytes, bare: Bytes, line: Bytes, lf: Bytes, right: Byte, added: Bytes)
    requires (added == lead + bare && line == lf) || (added == bare == line == [] && lead == lf)
    ensures [left] + (lead + bare) + line + [right] == [left] + added + (lf + [right])
  {
  }

  lemma NoIndent(pretty: bool)
    ensures NewLine(pretty, 0) == if pretty then [LF] else []
  {
  }

  /** The writer that jwOpen leaves, before any call. */
  lemma Opening(w: Writer, root: NodeKind)
    requires w == Open(w.limit, root, w.pretty) && w.limit > 0
    ensures w.text == [OpenBracket(root)] && |w.stack| == 1 && Gap(w) == NewLine(w.pretty, 1)
  {
  }

  /** The text of a root object in terms of what is written between its brackets. */
  lemma ObjectSessionText(w: Writer, calls: seq<Call>)
    requires w == Open(w.limit, ObjectNode, w.pretty) && w.limit > 0
    ensures J.Text(Denote(ObjectNode, w.pretty, calls))
      == w.text + MembersAdded(w, calls) + ((if w.pretty then [LF] else []) + [RBRACE])
  {
    Opening(w, ObjectNode);
    hide J.Text, NewLine, Open, Gap, ReadMembers, MembersBare;
    var items := ReadMembers(w.pretty, 1, calls).0;
    NoIndent(w.pretty);
    MembersBareText(w.pretty, 1, calls);
    RootObject(NewLine(w.pretty, if items.Member? then 1 else 0), items,
      if w.pretty then [LF] else [], MembersAdded(w, calls));
  }

  lemma RootObject(lead: Bytes, items: J.Members, lf: Bytes, added: Bytes)
    requires if items.Member? then J.MembersText(items) == MembersBare(items) + lf && added == lead + MembersBare(items)
             else added == [] && lead == lf
    ensures J.Text(J.Obj(lead, items)) == [LBRACE] + added + (lf + [RBRACE])
  {
    var line := if items.Member? then lf else [];
    ObjectText(lead, items, MembersBare(items), line);
    RootText(LBRACE, lead, MembersBare(items), line, lf, RBRACE, added);
  }

  lemma ObjectSessionFits(w: Writer, calls: seq<Call>)
    requires w == Open(w.limit, ObjectNode, w.pretty) && WellFormed(w, calls)
    requires 0 < |J.Text(Denote(ObjectNode, w.pretty, calls))| <= w.limit
    ensures Close(DoAll(w, calls)).error == Ok
    ensures Close(DoAll(w, calls)).text == J.Text(Denote(ObjectNode, w.pretty, calls))
  {
    ObjectSessionText(w, calls);
    var u := MembersWritten(w, calls);
    Ended(w, calls, u, ReadMembers(w.pretty, 1, calls).1);
  }

  /** The text of a root array in terms of what is written between its brackets. */
  lemma ArraySessionText(w: Writer, calls: seq<Call>)
    requires w == Open(w.limit, ArrayNode, w.pretty) && w.limit > 0
    ensures J.Text(Denote(ArrayNode, w.pretty, calls))
      == w.text + ElemsAdded(w, calls) + ((if w.pretty then [LF] else []) + [RBRACKET])
  {
    Opening(w, ArrayNode);
    hide J.Text, NewLine, Open, Gap, ReadElems, ElemsBare;
    var items := ReadElems(w.pretty, 1, calls).0;
    NoIndent(w.pretty);
    ElemsBareText(w.pretty, 1, calls);
    RootArray(NewLine(w.pretty, if items.Elem? then 1 else 0), items,
      if w.pretty then [LF] else [], ElemsAdded(w, calls));
  }

  lemma RootArray(lead: Bytes, items: J.Elems, lf: Bytes, added: Bytes)
    requires if items.Elem? then J.ElemsText(items) == ElemsBare(items) + lf && added == lead + ElemsBare(items)
             else added == [] && lead == lf
    ensures J.Text(J.Arr(lead, items)) == [LBRACKET] + added + (lf + [RBRACKET])
  {
    var line := if items.Elem? then lf else [];
    ArrayText(lead, items, ElemsBare(items), line);
    RootText(LBRACKET, lead, ElemsBare(items), line, lf, RBRACKET, added);
  }

  lemma ArraySessionFits(w: Writer, calls: seq<Call>)
    requires w == Open(w.limit, ArrayNode, w.pretty) && WellFormed(w, calls)
    requires 0 < |J.Text(Denote(ArrayNode, w.pretty, calls))| <= w.limit
    ensures Close(DoAll(w, calls)).error == Ok
    ensures Close(DoAll(w, calls)).text == J.Text(Denote(ArrayNode, w.pretty, calls))
  {
    ArraySessionText(w, calls);
    var u := ElemsWritten(w, calls);
    Ended(w, calls, u, ReadElems(w.pretty, 1, calls).1);
  }

  /** At the root nothing but the end of the calls stops the reading. */
  lemma Ended(w: Writer, calls: seq<Call>, u: Writer, rest: seq<Call>)
    requires Brings(w, calls, u, rest) && WellFormed(u, rest) && (rest == [] || rest[0].End?) && |u.stack| == 1
    ensures rest == [] && DoAll(w, calls) == u
  {
    assert calls + [] == calls && rest + [] == rest;
    assert DoAll(w, calls + []) == DoAll(u, rest + []);
  }

  /** Well-structured calls are read to their end as the contents of the root. */
  lemma RestOfRoot(root: NodeKind, pretty: bool, calls: seq<Call>)
    requires Structure([root], calls) == Ok
    ensures (if root == ObjectNode then ReadMembers(pretty, 1, calls).1 else ReadElems(pretty, 1, calls).1) == []
  {
    var added := if root == ObjectNode
      then MembersAdded(Open(1, root, pretty), calls) else ElemsAdded(Open(1, root, pretty), calls);
    var w := Open(1 + |added|, root, pretty);
    assert Kinds(w.stack) == [root];
    if root == ObjectNode {
      var u := MembersWritten(w, calls);
      Ended(w, calls, u, ReadMembers(pretty, 1, calls).1);
    } else {
      var u := ElemsWritten(w, calls);
      Ended(w, calls, u, ReadElems(pretty, 1, calls).1);
    }
  }

  /**
   * `a` is the writer `b` with a smaller buffer: the same as long as the text fits, a full buffer with an error after
   * that.
   */
  predicate Truncated(a: Writer, b: Writer) {
    && Valid(a) && Valid(b) && a.limit <= b.limit && b.error == Ok && a.pretty == b.pretty
    && if |b.text| <= a.limit then a == b.(limit := a.limit) else a.error == BufFull && a.text == b.text[..a.limit]
  }

  lemma TruncatedPut(a: Writer, b: Writer, s: Bytes)
    requires Truncated(a, b) && |b.text| + |s| <= b.limit
    ensures Truncated(Put(a, s), Put(b, s))
  {
    var room := a.limit - |a.text|;
    if |b.text| + |s| > a.limit {
      if |b.text| <= a.limit {
        assert (b.text + s)[..a.limit] == b.text + s[..room];
      } else {
        assert (b.text + s)[..a.limit] == b.text[..a.limit];
      }
    }
  }

  /** A writer that has stopped stays behind one that goes on. */
  lemma TruncatedStopped(a: Writer, b: Writer, c: Writer)
    requires Truncated(a, b) && |b.text| > a.limit && Valid(c)
    requires b.text <= c.text && c.error == Ok && c.limit == b.limit && c.pretty == b.pretty
    ensures Truncated(a, c)
  {
    assert c.text[..|b.text|] == b.text;
    assert c.text[..a.limit] == b.text[..a.limit];
  }

  lemma TruncatedChecked(a: Writer, b: Writer, kind: NodeKind)
    requires Truncated(a, b) && |b.text| <= a.limit && Checked(b, kind).error == Ok
    ensures Truncated(Checked(a, kind), Checked(b, kind)) && |Checked(a, kind).stack| == |Checked(b, kind).stack|
  {
    var b1 := b.(callNo := b.callNo + 1, stack := Separate(b).stack);
    var a1 := a.(callNo := b.callNo + 1, stack := b1.stack);
    if Top(b).count > 0 {
      TruncatedPut(a1, b1, [COMMA]);
    }
  }

  lemma PrettyTruncated(a: Writer, b: Writer)
    requires Truncated(a, b) && Pretty(b).error == Ok
    requires |b.text| <= a.limit || |a.stack| == |b.stack|
    ensures Truncated(Pretty(a), Pretty(b))
  {
    TruncatedPut(a, b, NewLine(b.pretty, |b.stack|));
  }

  lemma TruncatedBeforeValue(a: Writer, b: Writer, kind: NodeKind)
    requires Truncated(a, b) && |b.text| <= a.limit && BeforeValue(b, kind).error == Ok
    ensures Truncated(BeforeValue(a, kind), BeforeValue(b, kind))
  {
    TruncatedChecked(a, b, kind);
    PrettyTruncated(Checked(a, kind), Checked(b, kind));
  }

  lemma TruncatedElementHead(a: Writer, b: Writer)
    requires Truncated(a, b) && |b.text| <= a.limit && ElementHead(b).error == Ok
    ensures Truncated(ElementHead(a), ElementHead(b))
  {
    TruncatedBeforeValue(a, b, ArrayNode);
  }

  lemma TruncatedMemberHead(a: Writer, b: Writer, key: CString)
    requires Truncated(a, b) && |b.text| <= a.limit && MemberHead(b, key).error == Ok
    ensures Truncated(MemberHead(a, key), MemberHead(b, key))
  {
    TruncatedBeforeValue(a, b, ObjectNode);
    TruncatedPut(BeforeValue(a, ObjectNode), BeforeValue(b, ObjectNode), KeyText(b.pretty, key));
  }

  lemma TruncatedPayload(a: Writer, b: Writer, p: Payload)
    requires Truncated(a, b) && PutPayload(b, p).error == Ok
    ensures Truncated(PutPayload(a, p), PutPayload(b, p))
  {
    if |b.text| > a.limit {
      TruncatedStopped(a, b, PutPayload(b, p));
    } else {
      var s := match p
        case Raw(text) => text
        case Quoted(body) => J.Quoted(body)
        case NewObject => [LBRACE]
        case NewArray => [LBRACKET];
      TruncatedPut(a, b, s);
    }
  }

  lemma TruncatedEnd(a: Writer, b: Writer)
    requires Truncated(a, b) && |b.text| <= a.limit && EndNode(b).error == Ok
    ensures Truncated(EndNode(a), EndNode(b))
  {
    var stack := b.stack[..|b.stack| - 1];
    var (a1, b1) := (a.(stack := stack), b.(stack := stack));
    if Top(b).count > 0 {
      PrettyTruncated(a1, b1);
    }
    TruncatedPut(if Top(b).count > 0 then Pretty(a1) else a1,
      if Top(b).count > 0 then Pretty(b1) else b1, [CloseBracket(Top(b).kind)]);
  }

  lemma TruncatedDo(a: Writer, b: Writer, c: Call)
    requires Truncated(a, b) && Do(b, c).error == Ok
    ensures Truncated(Do(a, c), Do(b, c))
  {
    if |b.text| > a.limit {
      DoExtends(b, c);
      TruncatedStopped(a, b, Do(b, c));
    } else {
      match c
      case End => TruncatedEnd(a, b);
      case PutMember(key, p) =>
        TruncatedMemberHead(a, b, key);
        TruncatedPayload(MemberHead(a, key), MemberHead(b, key), p);
      case PutElement(p) =>
        TruncatedElementHead(a, b);
        TruncatedPayload(ElementHead(a), ElementHead(b), p);
    }
  }

  lemma {:induction false} TruncatedAll(a: Writer, b: Writer, calls: seq<Call>)
    requires Truncated(a, b) && DoAll(b, calls).error == Ok
    ensures Truncated(DoAll(a, calls), DoAll(b, calls))
    decreases |calls|
  {
    if calls != [] {
      if Do(b, calls[0]).error != Ok {
        ErrorSticks(Do(b, calls[0]), calls[1..]);
      }
      TruncatedDo(a, b, calls[0]);
      TruncatedAll(Do(a, calls[0]), Do(b, calls[0]), calls[1..]);
    }
  }

  lemma TruncatedClose(a: Writer, b: Writer)
    requires Truncated(a, b) && Close(b).error == Ok
    ensures Truncated(Close(a), Close(b))
  {
    if |b.text| > a.limit {
      TruncatedStopped(a, b, Close(b));
    } else {
      TruncatedPut(a, b, (if b.pretty then [LF] else []) + [CloseBracket(b.stack[0].kind)]);
    }
  }

  /** Once an error is set jwClose cannot return OK, and a structural error is an error in the end. */
  lemma {:induction false} OkMeansStructured(w: Writer, calls: seq<Call>)
    requires Valid(w) && Close(DoAll(w, calls)).error == Ok
    ensures w.error == Ok && Structure(Kinds(w.stack), calls) == Ok
    decreases |calls|
  {
    if w.error != Ok {
      ErrorSticks(w, calls);
    } else if calls != [] {
      OkMeansStructured(Do(w, calls[0]), calls[1..]);
      DoKinds(w, calls[0]);
      StructureStep(Kinds(w.stack), calls, Kinds(Do(w, calls[0]).stack));
    }
  }

  lemma StructureStep(kinds: seq<NodeKind>, calls: seq<Call>, after: seq<NodeKind>)
    requires |kinds| > 0 && |after| > 0 && calls != [] && KindsMove(kinds, calls[0], after)
    ensures Structure(kinds, calls) == Structure(after, calls[1..])
  {
    assert kinds + [] == kinds;
  }

  /** The kinds of the open containers before and after a call in its right place. */
  predicate KindsMove(kinds: seq<NodeKind>, c: Call, after: seq<NodeKind>)
    requires |kinds| > 0
  {
    match c
    case End => |kinds| > 1 && after == kinds[..|kinds| - 1]
    case PutMember(_, p) => kinds[|kinds| - 1] == ObjectNode && after == kinds + Opened(p) && |after| <= STACK_DEPTH
    case PutElement(p) => kinds[|kinds| - 1] == ArrayNode && after == kinds + Opened(p) && |after| <= STACK_DEPTH
  }

  lemma EndKinds(w: Writer)
    requires Valid(w) && w.error == Ok && EndNode(w).error == Ok
    ensures |w.stack| > 1 && Kinds(EndNode(w).stack) == Kinds(w.stack)[..|w.stack| - 1]
  {
    assert Kinds(w.stack)[..|w.stack| - 1] == Kinds(w.stack[..|w.stack| - 1]);
  }

  /** What a call that leaves no error did to the kinds of the open containers. */
  lemma DoKinds(w: Writer, c: Call)
    requires Valid(w) && w.error == Ok && Do(w, c).error == Ok
    ensures KindsMove(Kinds(w.stack), c, Kinds(Do(w, c).stack))
  {
    hide MemberHead, ElementHead, PutPayload, EndNode;
    match c
    case End => EndKinds(w);
    case PutMember(key, p) =>
      PayloadKinds(MemberHead(w, key), p);
      MemberHeadKinds(w, key);
    case PutElement(p) =>
      PayloadKinds(ElementHead(w), p);
      ElementHeadKinds(w);
  }

  lemma MemberHeadKinds(w: Writer, key: CString)
    requires Valid(w) && w.error == Ok && MemberHead(w, key).error == Ok
    ensures Kinds(MemberHead(w, key).stack) == Kinds(w.stack) && Top(w).kind == ObjectNode
  {
    assert MemberHead(w, key).stack == Counted(w.stack, 1);
  }

  lemma ElementHeadKinds(w: Writer)
    requires Valid(w) && w.error == Ok && ElementHead(w).error == Ok
    ensures Kinds(ElementHead(w).stack) == Kinds(w.stack) && Top(w).kind == ArrayNode
  {
    assert ElementHead(w).stack == Counted(w.stack, 1);
  }

  function Opened(p: Payload): seq<NodeKind> {
    match p
    case NewObject => [ObjectNode]
    case NewArray => [ArrayNode]
    case _ => []
  }

  lemma PayloadKinds(w: Writer, p: Payload)
    requires Valid(w) && PutPayload(w, p).error == Ok
    ensures Kinds(PutPayload(w, p).stack) == Kinds(w.stack) + Opened(p) && w.error == Ok
  {
  }

  lemma OpenTruncated(limit: nat, n: nat, root: NodeKind, pretty: bool)
    requires limit <= n && 0 < n
    ensures Truncated(Open(limit, root, pretty), Open(n, root, pretty)) && Open(limit, root, pretty).limit == limit
  {
  }

  lemma CloseLimit(w: Writer)
    requires Valid(w)
    ensures Close(w).limit == w.limit && (Close(w).error == Ok ==> w.error == Ok)
  {
  }

  /** A document that a large buffer holds completely is cut off by a smaller one exactly where that is full. */
  lemma SessionTruncated(limit: nat, n: nat, root: NodeKind, pretty: bool, calls: seq<Call>)
    requires limit <= n && 0 < n && Session(n, root, pretty, calls).error == Ok
    ensures Truncated(Session(limit, root, pretty, calls), Session(n, root, pretty, calls))
    ensures Session(limit, root, pretty, calls).limit == limit
  {
    var a, b := Open(limit, root, pretty), Open(n, root, pretty);
    OpenTruncated(limit, n, root, pretty);
    CloseLimit(DoAll(b, calls));
    CloseLimit(DoAll(a, calls));
    TextGrows(a, calls);
    TruncatedAll(a, b, calls);
    TruncatedClose(DoAll(a, calls), DoAll(b, calls));
  }

  /**
   * jwClose returns OK exactly for the well-structured calls whose document fits into the buffer. For any
   * well-structured calls the buffer holds the document, or as much of it as fits, and what does not fit
   * is reported.
   */
  lemma SessionResult(limit: nat, root: NodeKind, pretty: bool, calls: seq<Call>)
    ensures var (w, text) := (Session(limit, root, pretty, calls), J.Text(Denote(root, pretty, calls)));
      && (w.error == Ok <==> Structure([root], calls) == Ok && |text| <= limit)
      && (Structure([root], calls) == Ok ==> w.text == text[..if |text| <= limit then |text| else limit])
      && (Structure([root], calls) == Ok && |text| > limit ==> w.error == BufFull)
  {
    var text := J.Text(Denote(root, pretty, calls));
    var w := Open(limit, root, pretty);
    if Session(limit, root, pretty, calls).error == Ok {
      OkMeansStructured(w, calls);
      assert Kinds(w.stack) == [root];
    }
    if Structure([root], calls) == Ok {
      if |text| <= limit {
        SessionFits(limit, root, pretty, calls);
      } else {
        SessionFits(|text|, root, pretty, calls);
        SessionTruncated(limit, |text|, root, pretty, calls);
      }
    }
  }
}
