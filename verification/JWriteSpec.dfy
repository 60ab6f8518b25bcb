/** The streaming JSON writer as functions on values: what every call does to text, error and node stack. */
module JWriteSpec {
  import opened Ascii
  import J = JsonText

  datatype NodeKind = ObjectNode | ArrayNode

  /** An open container and the number of values written into it. */
  datatype Node = Node(kind: NodeKind, count: nat)

  datatype Error = Ok | BufFull | NotArray | NotObject | StackFull | StackEmpty | NestError

  const STACK_DEPTH := 32

  /** `text` is the written part of a buffer of `limit` bytes; `stack` is never empty while a document is open. */
  datatype Writer = Writer(text: Bytes, limit: nat, error: Error, callNo: nat, stack: seq<Node>, pretty: bool)

  /** What a call puts as a value. */
  datatype Payload = Raw(text: CString) | Quoted(body: CString) | NewObject | NewArray

  /** A call of the jwObj family, of the jwArr family, or jwEnd. */
  datatype Call = PutMember(key: CString, payload: Payload) | PutElement(payload: Payload) | End

  predicate Valid(w: Writer) {
    |w.text| <= w.limit && 0 < |w.stack| <= STACK_DEPTH
  }

  function Top(w: Writer): Node
    requires Valid(w)
  {
    w.stack[|w.stack| - 1]
  }

  /** Putting bytes one after the other: what fits is written, and an error is left if something did not. */
  function Put(w: Writer, s: Bytes): (r: Writer)
    requires Valid(w)
    ensures Valid(r)
  {
    var room := w.limit - |w.text|;
    if |s| <= room then w.(text := w.text + s) else w.(text := w.text + s[..room], error := BufFull)
  }

  function OpenBracket(kind: NodeKind): Byte {
    if kind == ObjectNode then LBRACE else LBRACKET
  }

  function CloseBracket(kind: NodeKind): Byte {
    if kind == ObjectNode then RBRACE else RBRACKET
  }

  function Spaces(n: nat): (s: Bytes)
    ensures |s| == n
  {
    seq(n, i => SPACE)
  }

  /** A new line indented by `n` levels, in pretty mode. */
  function NewLine(pretty: bool, n: nat): Bytes {
    if pretty then [LF] + Spaces(4 * n) else []
  }

  /** jwPretty */
  function Pretty(w: Writer): (r: Writer)
    requires Valid(w)
    ensures Valid(r)
  {
    Put(w, NewLine(w.pretty, |w.stack|))
  }

  /** jwPush */
  function Push(w: Writer, kind: NodeKind): (r: Writer)
    requires Valid(w)
    ensures Valid(r)
  {
    if |w.stack| >= STACK_DEPTH then w.(error := StackFull) else w.(stack := w.stack + [Node(kind, 0)])
  }

  /** The comma before all but the first value of the current container, and the count of the new value. */
  function Separate(w: Writer): (r: Writer)
    requires Valid(w)
    ensures Valid(r)
  {
    var counted := w.(stack := w.stack[|w.stack| - 1 := Top(w).(count := Top(w).count + 1)]);
    if Top(w).count > 0 then Put(counted, [COMMA]) else counted
  }

  /** A key and what separates it from its value. */
  function KeyText(pretty: bool, key: Bytes): Bytes {
    J.Quoted(key) + ([COLON] + if pretty then [SPACE] else [])
  }

  /** The call is counted; then the comma, or an error in a container of the wrong kind. */
  function Checked(w: Writer, kind: NodeKind): (r: Writer)
    requires Valid(w)
    ensures Valid(r)
  {
    var w1 := w.(callNo := w.callNo + 1);
    if Top(w).kind == kind then Separate(w1) else w1.(error := if kind == ObjectNode then NotObject else NotArray)
  }

  /** The start of _jwObj and _jwArr: the line break comes even after an error. */
  function BeforeValue(w: Writer, kind: NodeKind): (r: Writer)
    requires Valid(w)
    ensures Valid(r)
  {
    Pretty(Checked(w, kind))
  }

  /** _jwObj: it goes on writing the key even when the current container is no object. */
  function MemberHead(w: Writer, key: CString): (r: Writer)
    requires Valid(w)
    ensures Valid(r)
  {
    if w.error != Ok then w else Put(BeforeValue(w, ObjectNode), KeyText(w.pretty, key))
  }

  /** _jwArr */
  function ElementHead(w: Writer): (r: Writer)
    requires Valid(w)
    ensures Valid(r)
  {
    if w.error != Ok then w else BeforeValue(w, ArrayNode)
  }

  function PutPayload(w: Writer, p: Payload): (r: Writer)
    requires Valid(w)
    ensures Valid(r)
  {
    if w.error != Ok then w
    else
      match p
      case Raw(text) => Put(w, text)
      case Quoted(body) => Put(w, J.Quoted(body))
      case NewObject => Push(Put(w, [LBRACE]), ObjectNode)
      case NewArray => Push(Put(w, [LBRACKET]), ArrayNode)
  }

  /** jwEnd: at the root it sets an error and still writes a bracket. */
  function EndNode(w: Writer): (r: Writer)
    requires Valid(w)
    ensures Valid(r)
  {
    if w.error != Ok then w
    else
      var popped := if |w.stack| == 1 then w.(error := StackEmpty) else w.(stack := w.stack[..|w.stack| - 1]);
      var line := if Top(w).count > 0 then Pretty(popped) else popped;
      Put(line, [CloseBracket(Top(w).kind)])
  }

  function Do(w: Writer, c: Call): (r: Writer)
    requires Valid(w)
    ensures Valid(r)
  {
    match c
    case PutMember(key, p) => PutPayload(MemberHead(w, key), p)
    case PutElement(p) => PutPayload(ElementHead(w), p)
    case End => EndNode(w)
  }

  function DoAll(w: Writer, calls: seq<Call>): (r: Writer)
    requires Valid(w)
    ensures Valid(r)
    decreases |calls|
  {
    if calls == [] then w else DoAll(Do(w, calls[0]), calls[1..])
  }

  /** jwOpen */
  function Open(limit: nat, root: NodeKind, pretty: bool): (r: Writer)
    ensures Valid(r)
  {
    Put(Writer([], limit, Ok, 1, [Node(root, 0)], pretty), [OpenBracket(root)])
  }

  /** jwClose; the result's `error` is what it returns. */
  function Close(w: Writer): (r: Writer)
    requires Valid(w)
    ensures Valid(r)
  {
    if w.error != Ok then w
    else if |w.stack| != 1 then w.(error := NestError)
    else Put(w, (if w.pretty then [LF] else []) + [CloseBracket(w.stack[0].kind)])
  }

  /** A whole document. */
  function Session(limit: nat, root: NodeKind, pretty: bool, calls: seq<Call>): Writer {
    Close(DoAll(Open(limit, root, pretty), calls))
  }

  lemma PutPut(w: Writer, a: Bytes, b: Bytes)
    requires Valid(w)
    ensures Put(Put(w, a), b) == Put(w, a + b)
  {
    var room := w.limit - |w.text|;
    if |a| <= room {
      if |a| + |b| > room {
        assert (a + b)[..room] == a + b[..room - |a|];
      }
    } else {
      assert (a + b)[..room] == a[..room];
      if |b| > 0 {
        assert b[..0] == [];
      }
    }
  }
}
