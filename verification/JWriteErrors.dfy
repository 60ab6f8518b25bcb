/** Which error jwClose returns, and what jwErrorPos says, for every sequence of calls. */
module JWriteErrors {
  import opened Ascii
  import opened JWriteSpec
  import opened JWriteDenotation
  import opened JWriteSession
  import J = JsonText

  // ----- the code -----

  lemma PutError(w: Writer, s: Bytes)
    requires Valid(w)
    ensures Put(w, s).error == w.error || Put(w, s).error == BufFull
    ensures Put(w, s).stack == w.stack && Put(w, s).callNo == w.callNo
  {
  }

  /** A call that is the first to fail leaves the code of the structural error that it makes, or BUF_FULL. */
  lemma FirstError(w: Writer, calls: seq<Call>)
    requires Valid(w) && w.error == Ok && calls != [] && Do(w, calls[0]).error != Ok
    ensures var e := Do(w, calls[0]).error; e == BufFull || e == Structure(Kinds(w.stack), calls)
  {
    hide Put, Pretty;
    match calls[0]
    case End => EndError(w, calls);
    case PutMember(key, p) =>
      MemberHeadError(w, key);
      PayloadError(MemberHead(w, key), p);
    case PutElement(p) =>
      ElementHeadError(w);
      PayloadError(ElementHead(w), p);
  }

  lemma EndError(w: Writer, calls: seq<Call>)
    requires Valid(w) && w.error == Ok && calls != [] && calls[0].End?
    ensures var e := EndNode(w).error; e == Ok || e == BufFull || (e == StackEmpty && |w.stack| == 1)
  {
    var popped := if |w.stack| == 1 then w.(error := StackEmpty) else w.(stack := w.stack[..|w.stack| - 1]);
    PutError(popped, NewLine(w.pretty, |popped.stack|));
    PutError(if Top(w).count > 0 then Pretty(popped) else popped, [CloseBracket(Top(w).kind)]);
  }

  lemma CheckedError(w: Writer, kind: NodeKind)
    requires Valid(w) && w.error == Ok
    ensures var e := BeforeValue(w, kind).error;
      e == BufFull || e == if Top(w).kind == kind then Ok else if kind == ObjectNode then NotObject else NotArray
    ensures |BeforeValue(w, kind).stack| == |w.stack|
  {
    var w1 := w.(callNo := w.callNo + 1);
    PutError(w1.(stack := Separate(w1).stack), [COMMA]);
    PutError(Checked(w, kind), NewLine(w.pretty, |w.stack|));
  }

  lemma MemberHeadError(w: Writer, key: CString)
    requires Valid(w) && w.error == Ok
    ensures var e := MemberHead(w, key).error; e == BufFull || e == if Top(w).kind == ObjectNode then Ok else NotObject
    ensures |MemberHead(w, key).stack| == |w.stack|
  {
    hide Put;
    CheckedError(w, ObjectNode);
    PutError(BeforeValue(w, ObjectNode), KeyText(w.pretty, key));
  }

  lemma ElementHeadError(w: Writer)
    requires Valid(w) && w.error == Ok
    ensures var e := ElementHead(w).error; e == BufFull || e == if Top(w).kind == ArrayNode then Ok else NotArray
    ensures |ElementHead(w).stack| == |w.stack|
  {
    CheckedError(w, ArrayNode);
  }

  lemma PayloadError(w: Writer, p: Payload)
    requires Valid(w)
    ensures w.error != Ok ==> PutPayload(w, p) == w
    ensures w.error == Ok ==>
      var e := PutPayload(w, p).error;
      e == BufFull || e == if (p.NewObject? || p.NewArray?) && |w.stack| >= STACK_DEPTH then StackFull else Ok
  {
  }

  /** jwClose returns the first structural error of the calls, or BUF_FULL. */
  lemma {:induction false} CodeFrom(w: Writer, calls: seq<Call>)
    requires Valid(w) && w.error == Ok
    ensures var e := Close(DoAll(w, calls)).error; e == BufFull || e == Structure(Kinds(w.stack), calls)
    decreases |calls|
  {
    hide Do, Put;
    if calls == [] {
      PutError(w, (if w.pretty then [LF] else []) + [CloseBracket(w.stack[0].kind)]);
    } else if Do(w, calls[0]).error != Ok {
      FirstError(w, calls);
      ErrorSticks(Do(w, calls[0]), calls[1..]);
    } else {
      CodeFrom(Do(w, calls[0]), calls[1..]);
      DoKinds(w, calls[0]);
      StructureStep(Kinds(w.stack), calls, Kinds(Do(w, calls[0]).stack));
    }
  }

  /** Bytes that are enough for a call, whatever the nesting. */
  function Cost(c: Call): nat {
    match c
    case End => 200
    case PutMember(key, p) => 200 + |key| + PayloadCost(p)
    case PutElement(p) => 200 + PayloadCost(p)
  }

  function PayloadCost(p: Payload): nat {
    match p
    case Raw(text) => |text|
    case Quoted(body) => |body| + 2
    case _ => 1
  }

  function Costs(calls: seq<Call>): nat {
    if calls == [] then 3 else Cost(calls[0]) + Costs(calls[1..])
  }

  /** The buffer has room for `n` more bytes. */
  predicate Room(w: Writer, n: nat)
  {
    Valid(w) && |w.text| + n <= w.limit
  }

  lemma PutRoom(w: Writer, s: Bytes, n: nat)
    requires Room(w, |s| + n)
    ensures Room(Put(w, s), n) && Put(w, s).error == w.error
    ensures Put(w, s).stack == w.stack && Put(w, s).pretty == w.pretty
  {
  }

  lemma BeforeValueRoom(w: Writer, kind: NodeKind, n: nat)
    requires Room(w, 150 + n)
    ensures Room(BeforeValue(w, kind), n) && BeforeValue(w, kind).pretty == w.pretty
    ensures BeforeValue(w, kind).error == Checked(w, kind).error
    ensures Checked(w, kind).error ==
      if Top(w).kind == kind then w.error else if kind == ObjectNode then NotObject else NotArray
  {
    hide Put, Checked;
    CheckedRoom(w, kind, 149 + n);
    var line := NewLine(w.pretty, |w.stack|);
    PutRoom(Checked(w, kind), line, 149 + n - |line|);
  }

  lemma CheckedRoom(w: Writer, kind: NodeKind, n: nat)
    requires Room(w, 1 + n)
    ensures Room(Checked(w, kind), n) && Checked(w, kind).pretty == w.pretty && |Checked(w, kind).stack| == |w.stack|
    ensures Checked(w, kind).error ==
      if Top(w).kind == kind then w.error else if kind == ObjectNode then NotObject else NotArray
  {
  }

  lemma DoRoom(w: Writer, c: Call, n: nat)
    requires Room(w, Cost(c) + n) && w.error != BufFull
    ensures Room(Do(w, c), n) && Do(w, c).error != BufFull
  {
    hide Put, BeforeValue, Checked;
    if w.error == Ok {
      match c
      case End => EndRoom(w, n);
      case PutMember(key, p) =>
        BeforeValueRoom(w, ObjectNode, 50 + |key| + PayloadCost(p) + n);
        var text := KeyText(w.pretty, key);
        PutRoom(BeforeValue(w, ObjectNode), text, 50 + |key| + PayloadCost(p) + n - |text|);
        PayloadRoom(MemberHead(w, key), p, n);
      case PutElement(p) =>
        BeforeValueRoom(w, ArrayNode, PayloadCost(p) + n);
        PayloadRoom(ElementHead(w), p, n);
    }
  }

  lemma EndRoom(w: Writer, n: nat)
    requires Room(w, 200 + n) && w.error == Ok
    ensures Room(EndNode(w), n) && EndNode(w).error != BufFull
  {
    hide Put;
    var popped := if |w.stack| == 1 then w.(error := StackEmpty) else w.(stack := w.stack[..|w.stack| - 1]);
    var line := NewLine(w.pretty, |popped.stack|);
    PutRoom(popped, line, 1 + n);
    PutRoom(if Top(w).count > 0 then Pretty(popped) else popped, [CloseBracket(Top(w).kind)], n);
  }

  lemma PayloadRoom(w: Writer, p: Payload, n: nat)
    requires Room(w, PayloadCost(p) + n) && w.error != BufFull
    ensures Room(PutPayload(w, p), n) && PutPayload(w, p).error != BufFull
  {
    hide Put;
    if w.error == Ok {
      match p
      case Raw(text) => PutRoom(w, text, n);
      case Quoted(body) => PutRoom(w, J.Quoted(body), n);
      case NewObject => PutRoom(w, [LBRACE], n);
      case NewArray => PutRoom(w, [LBRACKET], n);
    }
  }

  lemma {:induction false} NeverFull(w: Writer, calls: seq<Call>)
    requires Room(w, Costs(calls)) && w.error != BufFull
    ensures Close(DoAll(w, calls)).error != BufFull
    decreases |calls|
  {
    hide Do, Put;
    if calls == [] {
      if w.error == Ok && |w.stack| == 1 {
        PutRoom(w, (if w.pretty then [LF] else []) + [CloseBracket(w.stack[0].kind)], 0);
      }
    } else {
      DoRoom(w, calls[0], Costs(calls[1..]));
      NeverFull(Do(w, calls[0]), calls[1..]);
    }
  }

  /**
   * The code that jwClose returns is that of the first structural error of the calls, or BUF_FULL; and if the buffer is
   * large enough it is always that of the first structural error.
   */
  lemma SessionCode(limit: nat, root: NodeKind, pretty: bool, calls: seq<Call>)
    ensures var e := Session(limit, root, pretty, calls).error; e == BufFull || e == Structure([root], calls)
    ensures limit >= 1 + Costs(calls) ==> Session(limit, root, pretty, calls).error == Structure([root], calls)
  {
    hide Put, DoAll, Close;
    var w := Open(limit, root, pretty);
    var w0 := Writer([], limit, Ok, 1, [Node(root, 0)], pretty);
    PutError(w0, [OpenBracket(root)]);
    assert Kinds(w.stack) == [root];
    if w.error == Ok {
      CodeFrom(w, calls);
    } else {
      ErrorSticks(w, calls);
      CloseSticks(w);
    }
    if limit >= 1 + Costs(calls) {
      PutRoom(w0, [OpenBracket(root)], Costs(calls));
      NeverFull(w, calls);
    }
  }

  lemma CloseSticks(w: Writer)
    requires Valid(w) && w.error != Ok
    ensures Close(w) == w
  {
  }

  // ----- what the failing call still writes -----

  /** A new line, indented by four blanks for every level. */
  function Line(pretty: bool, level: nat): Bytes {
    if pretty then ['\n' as int] + seq(4 * level, i => ' ' as int) else []
  }

  lemma LineIs(pretty: bool, level: nat)
    ensures NewLine(pretty, level) == Line(pretty, level)
  {
  }

  /** A member that is put into an array: the line break, the key and the colon are written, the value is not. */
  lemma MemberIntoArray(w: Writer, key: CString, p: Payload)
    requires Room(w, 200 + |key|) && w.error == Ok && Top(w).kind == ArrayNode
    ensures var u := Do(w, PutMember(key, p));
      && u.error == NotObject && u.stack == w.stack
      && u.text == w.text + (Line(w.pretty, |w.stack|)
        + (['\"' as int] + key + ['\"' as int] + ([':' as int] + if w.pretty then [' ' as int] else [])))
  {
    var u := w.(callNo := w.callNo + 1, error := NotObject);
    LineIs(w.pretty, |w.stack|);
    PutPut(u, NewLine(w.pretty, |w.stack|), KeyText(w.pretty, key));
  }

  /** An element that is put into an object: only the line break is written. */
  lemma ElementIntoObject(w: Writer, p: Payload)
    requires Room(w, 200) && w.error == Ok && Top(w).kind == ObjectNode
    ensures var u := Do(w, PutElement(p));
      u.error == NotArray && u.stack == w.stack && u.text == w.text + Line(w.pretty, |w.stack|)
  {
    LineIs(w.pretty, |w.stack|);
  }

  /** jwEnd at the root: the closing bracket is written, on a line of its own if there is something in the root. */
  lemma EndOfRoot(w: Writer)
    requires Room(w, 200) && w.error == Ok && |w.stack| == 1
    ensures var u := Do(w, End);
      && u.error == StackEmpty && u.stack == w.stack
      && u.text == w.text + ((if Top(w).count > 0 then Line(w.pretty, 1) else [])
        + [if Top(w).kind == ObjectNode then '}' as int else ']' as int])
  {
    LineIs(w.pretty, 1);
    PutPut(w.(error := StackEmpty), NewLine(w.pretty, 1), [CloseBracket(Top(w).kind)]);
  }

  // ----- the position -----

  /** The calls that put a member or an element. */
  function Puts(calls: seq<Call>): nat {
    if calls == [] then 0 else (if calls[0].End? then 0 else 1) + Puts(calls[1..])
  }

  lemma DoCounts(w: Writer, c: Call)
    requires Valid(w)
    ensures Do(w, c).callNo == w.callNo + if w.error != Ok || c.End? then 0 else 1
  {
    hide Put, BeforeValue;
    match c
    case End => EndCounts(w);
    case PutMember(key, p) =>
      BeforeValueCounts(w, ObjectNode);
      PutError(BeforeValue(w, ObjectNode), KeyText(w.pretty, key));
      PayloadCounts(MemberHead(w, key), p);
    case PutElement(p) =>
      BeforeValueCounts(w, ArrayNode);
      PayloadCounts(ElementHead(w), p);
  }

  lemma BeforeValueCounts(w: Writer, kind: NodeKind)
    requires Valid(w)
    ensures BeforeValue(w, kind).callNo == w.callNo + 1
  {
  }

  lemma PayloadCounts(w: Writer, p: Payload)
    requires Valid(w)
    ensures PutPayload(w, p).callNo == w.callNo
  {
  }

  lemma EndCounts(w: Writer)
    requires Valid(w)
    ensures EndNode(w).callNo == w.callNo
  {
  }

  lemma {:induction false} DoAllCat(w: Writer, a: seq<Call>, b: seq<Call>)
    requires Valid(w)
    ensures DoAll(w, a + b) == DoAll(DoAll(w, a), b)
    decreases |a|
  {
    hide Do;
    if a == [] {
      assert a + b == b;
    } else {
      assert (a + b)[0] == a[0] && (a + b)[1..] == a[1..] + b;
      DoAllCat(Do(w, a[0]), a[1..], b);
    }
  }

  lemma {:induction false} CallsCounted(w: Writer, calls: seq<Call>)
    requires Valid(w) && DoAll(w, calls).error == Ok
    ensures w.error == Ok && DoAll(w, calls).callNo == w.callNo + Puts(calls)
    decreases |calls|
  {
    hide Do;
    if w.error != Ok {
      ErrorSticks(w, calls);
    }
    if calls != [] {
      DoCounts(w, calls[0]);
      CallsCounted(Do(w, calls[0]), calls[1..]);
    }
  }

  /**
   * jwErrorPos: one more than the members and elements that have been put up to the first error, the failing call
   * included; jwEnd is not counted, although the documentation speaks of the nth call to a jWrite function.
   */
  lemma ErrorPosition(limit: nat, root: NodeKind, pretty: bool, before: seq<Call>, c: Call, after: seq<Call>)
    requires DoAll(Open(limit, root, pretty), before).error == Ok
    requires Do(DoAll(Open(limit, root, pretty), before), c).error != Ok
    ensures Session(limit, root, pretty, before + [c] + after).callNo == 1 + Puts(before) + if c.End? then 0 else 1
  {
    hide Do, Put;
    var w := Open(limit, root, pretty);
    PutError(Writer([], limit, Ok, 1, [Node(root, 0)], pretty), [OpenBracket(root)]);
    CallsCounted(w, before);
    var u := Do(DoAll(w, before), c);
    DoCounts(DoAll(w, before), c);
    DoAllCat(w, before + [c], after);
    DoAllCat(w, before, [c]);
    assert [c][1..] == [];
    ErrorSticks(u, after);
  }

  /** Without an error it is one more than all members and elements. */
  lemma PositionAtEnd(limit: nat, root: NodeKind, pretty: bool, calls: seq<Call>)
    requires DoAll(Open(limit, root, pretty), calls).error == Ok
    ensures Session(limit, root, pretty, calls).callNo == 1 + Puts(calls)
  {
    hide Do;
    CallsCounted(Open(limit, root, pretty), calls);
  }
}
