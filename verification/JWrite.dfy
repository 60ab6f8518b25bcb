/** The streaming JSON writer as it runs: one control structure, updated in place by every call. */
module JWrite {
  import opened Ascii
  import opened JWriteSpec
  import J = JsonText
  import Digits
  import DtoaBuffer

  /** The control structure; `bufp` is the write position as an offset into the buffer. */
  class Control {
    var buffer: array<Byte>
    var buflen: nat
    var bufp: nat
    const tmpbuf: array<Byte>
    var error: Error
    var callNo: nat
    const nodeStack: array<Node>
    var stackpos: nat
    var isPretty: bool

    ghost predicate Valid()
      reads this, buffer, nodeStack
    {
      && bufp <= buflen <= buffer.Length && nodeStack.Length == STACK_DEPTH && stackpos < STACK_DEPTH
      && tmpbuf.Length == 32 && tmpbuf != buffer
      && forall i :: bufp <= i < buflen ==> buffer[i] == NUL
    }

    ghost function Abs(): Writer
      requires Valid()
      reads this, buffer, nodeStack
    {
      Writer(buffer[..bufp], buflen, error, callNo, nodeStack[..stackpos + 1], isPretty)
    }

    constructor (buffer: array<Byte>)
      ensures this.buffer == buffer && fresh(nodeStack) && fresh(tmpbuf)
      ensures nodeStack.Length == STACK_DEPTH && tmpbuf.Length == 32
    {
      this.buffer, buflen, bufp := buffer, 0, 0;
      tmpbuf := new Byte[32](i => 0);
      error, callNo, stackpos, isPretty := Ok, 0, 0, false;
      nodeStack := new Node[STACK_DEPTH](i => Node(ObjectNode, 0));
    }

    /** jwPutch */
    method Putch(c: Byte)
      requires Valid()
      modifies this`bufp, this`error, buffer
      ensures Valid() && Abs() == Put(old(Abs()), [c])
      ensures buffer[buflen..] == old(buffer[buflen..])
    {
      if bufp >= buflen {
        error := BufFull;
        assert [c][..0] == [];
      } else {
        buffer[bufp] := c;
        bufp := bufp + 1;
      }
    }

    /** jwPutraw */
    method Putraw(str: CString)
      requires Valid()
      modifies this`bufp, this`error, buffer
      ensures Valid() && Abs() == Put(old(Abs()), str)
      ensures buffer[buflen..] == old(buffer[buflen..])
    {
      var i := 0;
      ghost var start := Abs();
      while i < |str|
        invariant i <= |str| && Valid() && Abs() == Put(start, str[..i])
        invariant buffer[buflen..] == old(buffer[buflen..])
      {
        PutPut(start, str[..i], [str[i]]);
        assert str[..i + 1] == str[..i] + [str[i]];
        Putch(str[i]);
        i := i + 1;
      }
      assert str[..i] == str;
    }

    /** jwPutstr */
    method Putstr(str: CString)
      requires Valid()
      modifies this`bufp, this`error, buffer
      ensures Valid() && Abs() == Put(old(Abs()), J.Quoted(str))
      ensures buffer[buflen..] == old(buffer[buflen..])
    {
      PutPut(Abs(), [QUOTE], str);
      PutPut(Abs(), [QUOTE] + str, [QUOTE]);
      Putch(QUOTE);
      Putraw(str);
      Putch(QUOTE);
    }

    /** jwPretty */
    method PrettyLine()
      requires Valid()
      modifies this`bufp, this`error, buffer
      ensures Valid() && Abs() == Pretty(old(Abs()))
      ensures buffer[buflen..] == old(buffer[buflen..])
    {
      if isPretty {
        ghost var start := Abs();
        Putch(LF);
        var i := 0;
        while i < stackpos + 1
          invariant i <= stackpos + 1 && Valid() && Abs() == Put(start, NewLine(true, i))
          invariant buffer[buflen..] == old(buffer[buflen..])
        {
          PutPut(start, NewLine(true, i), Spaces(4));
          assert NewLine(true, i) + Spaces(4) == NewLine(true, i + 1);
          assert Spaces(4) == [SPACE, SPACE, SPACE, SPACE];
          Putraw([SPACE, SPACE, SPACE, SPACE]);
          i := i + 1;
        }
      }
    }

    /** jwPush */
    method PushNode(kind: NodeKind)
      requires Valid()
      modifies this`stackpos, this`error, nodeStack
      ensures Valid() && Abs() == Push(old(Abs()), kind)
    {
      if stackpos + 1 >= STACK_DEPTH {
        error := StackFull;
      } else {
        stackpos := stackpos + 1;
        nodeStack[stackpos] := nodeStack[stackpos].(kind := kind);
        nodeStack[stackpos] := nodeStack[stackpos].(count := 0);
      }
    }

    /** jwPop */
    method PopNode() returns (kind: NodeKind)
      requires Valid()
      modifies this`stackpos, this`error
      ensures Valid() && kind == Top(old(Abs())).kind
      ensures Abs() == if old(stackpos) == 0 then old(Abs()).(error := StackEmpty)
                       else old(Abs()).(stack := old(Abs()).stack[..old(stackpos)])
    {
      kind := nodeStack[stackpos].kind;
      if stackpos == 0 {
        error := StackEmpty;
      } else {
        stackpos := stackpos - 1;
      }
    }

    /** The elementNo++ > 0 test of _jwObj and _jwArr and the comma after it. */
    method SeparateNode()
      requires Valid()
      modifies this`bufp, this`error, buffer, nodeStack
      ensures Valid() && Abs() == Separate(old(Abs()))
      ensures buffer[buflen..] == old(buffer[buflen..])
    {
      var n := nodeStack[stackpos].count;
      nodeStack[stackpos] := nodeStack[stackpos].(count := n + 1);
      if n > 0 {
        Putch(COMMA);
      }
    }

    /** The node check of _jwObj and _jwArr and the comma. */
    method CheckNode(kind: NodeKind)
      requires Valid()
      modifies this`callNo, this`bufp, this`error, buffer, nodeStack
      ensures Valid() && Abs() == Checked(old(Abs()), kind)
      ensures buffer[buflen..] == old(buffer[buflen..])
    {
      hide Separate, Put;
      callNo := callNo + 1;
      assert Abs() == old(Abs()).(callNo := callNo);
      if nodeStack[stackpos].kind != kind {
        error := if kind == ObjectNode then NotObject else NotArray;
      } else {
        SeparateNode();
      }
    }

    /** The start of _jwObj and _jwArr: node check, comma and line break. */
    method BeginValue(kind: NodeKind)
      requires Valid()
      modifies this`callNo, this`bufp, this`error, buffer, nodeStack
      ensures Valid() && Abs() == BeforeValue(old(Abs()), kind)
      ensures buffer[buflen..] == old(buffer[buflen..])
    {
      CheckNode(kind);
      PrettyLine();
    }

    /** The end of _jwObj: the key, a colon and, in pretty mode, a space. */
    method PutKey(key: CString)
      requires Valid()
      modifies this`bufp, this`error, buffer
      ensures Valid() && Abs() == Put(old(Abs()), KeyText(isPretty, key))
      ensures buffer[buflen..] == old(buffer[buflen..])
    {
      ghost var w := Abs();
      PutPut(w, J.Quoted(key), [COLON]);
      PutPut(w, J.Quoted(key) + [COLON], [SPACE]);
      Putstr(key);
      Putch(COLON);
      if isPretty {
        Putch(SPACE);
      }
      assert J.Quoted(key) + [COLON] + [SPACE] == KeyText(true, key) && J.Quoted(key) + [COLON] == KeyText(false, key);
    }

    /** _jwObj */
    method ObjHead(key: CString) returns (r: Error)
      requires Valid()
      modifies this`callNo, this`bufp, this`error, buffer, nodeStack
      ensures Valid() && Abs() == MemberHead(old(Abs()), key) && r == error
      ensures buffer[buflen..] == old(buffer[buflen..])
    {
      if error == Ok {
        BeginValue(ObjectNode);
        PutKey(key);
      }
      r := error;
    }

    /** _jwArr */
    method ArrHead() returns (r: Error)
      requires Valid()
      modifies this`callNo, this`bufp, this`error, buffer, nodeStack
      ensures Valid() && Abs() == ElementHead(old(Abs())) && r == error
      ensures buffer[buflen..] == old(buffer[buflen..])
    {
      if error == Ok {
        BeginValue(ArrayNode);
      }
      r := error;
    }

    /** The common part of the jwObj and jwArr calls that put an opening bracket. */
    method OpenNode(kind: NodeKind)
      requires Valid() && error == Ok
      modifies this`bufp, this`error, this`stackpos, buffer, nodeStack
      ensures Valid() && Abs() == PutPayload(old(Abs()), if kind == ObjectNode then NewObject else NewArray)
      ensures buffer[buflen..] == old(buffer[buflen..])
    {
      Putch(OpenBracket(kind));
      PushNode(kind);
    }

    /** jwObj_raw; jwObj_bool and jwObj_null call it with a literal name. */
    method ObjRaw(key: CString, rawtext: CString)
      requires Valid()
      modifies this`callNo, this`bufp, this`error, buffer, nodeStack
      ensures Valid() && Abs() == Do(old(Abs()), PutMember(key, Raw(rawtext)))
      ensures buffer[buflen..] == old(buffer[buflen..])
    {
      var r := ObjHead(key);
      if r == Ok {
        Putraw(rawtext);
      }
    }

    /** jwObj_string */
    method ObjString(key: CString, value: CString)
      requires Valid()
      modifies this`callNo, this`bufp, this`error, buffer, nodeStack
      ensures Valid() && Abs() == Do(old(Abs()), PutMember(key, Quoted(value)))
      ensures buffer[buflen..] == old(buffer[buflen..])
    {
      var r := ObjHead(key);
      if r == Ok {
        Putstr(value);
      }
    }

    /** jwObj_int */
    method ObjInt(key: CString, value: int)
      requires Valid() && INT_MIN <= value <= INT_MAX
      modifies this`callNo, this`bufp, this`error, buffer, nodeStack, tmpbuf
      ensures 0 !in Digits.Decimal(value)
      ensures Valid() && Abs() == Do(old(Abs()), PutMember(key, Raw(Digits.Decimal(value))))
      ensures buffer[buflen..] == old(buffer[buflen..])
    {
      Digits.DecimalBytes(value);
      var n := Digits.Itoa10(value, tmpbuf);
      ObjRaw(key, tmpbuf[..n]);
    }

    /** jwObj_double */
    method ObjDouble(key: CString, value: real, exponential: CString)
      requires Valid() && |exponential| < 32
      modifies this`callNo, this`bufp, this`error, buffer, nodeStack, tmpbuf
      ensures 0 !in DtoaBuffer.NumberText(value, 6, exponential)
      ensures Valid() && Abs() == Do(old(Abs()), PutMember(key, Raw(DtoaBuffer.NumberText(value, 6, exponential))))
      ensures buffer[buflen..] == old(buffer[buflen..])
    {
      DtoaBuffer.TextBytes(value, 6);
      var n := DtoaBuffer.Dtoa2(value, tmpbuf, 6, exponential);
      ObjRaw(key, tmpbuf[..n]);
    }

    /** jwObj_object and jwObj_array */
    method ObjNode(key: CString, kind: NodeKind)
      requires Valid()
      modifies this`callNo, this`bufp, this`error, this`stackpos, buffer, nodeStack
      ensures Valid() && Abs() == Do(old(Abs()), PutMember(key, if kind == ObjectNode then NewObject else NewArray))
      ensures buffer[buflen..] == old(buffer[buflen..])
    {
      var r := ObjHead(key);
      if r == Ok {
        OpenNode(kind);
      }
    }

    /** jwArr_raw; jwArr_bool and jwArr_null call it with a literal name. */
    method ArrRaw(rawtext: CString)
      requires Valid()
      modifies this`callNo, this`bufp, this`error, buffer, nodeStack
      ensures Valid() && Abs() == Do(old(Abs()), PutElement(Raw(rawtext)))
      ensures buffer[buflen..] == old(buffer[buflen..])
    {
      var r := ArrHead();
      if r == Ok {
        Putraw(rawtext);
      }
    }

    /** jwArr_string */
    method ArrString(value: CString)
      requires Valid()
      modifies this`callNo, this`bufp, this`error, buffer, nodeStack
      ensures Valid() && Abs() == Do(old(Abs()), PutElement(Quoted(value)))
      ensures buffer[buflen..] == old(buffer[buflen..])
    {
      var r := ArrHead();
      if r == Ok {
        Putstr(value);
      }
    }

    /** jwArr_int */
    method ArrInt(value: int)
      requires Valid() && INT_MIN <= value <= INT_MAX
      modifies this`callNo, this`bufp, this`error, buffer, nodeStack, tmpbuf
      ensures 0 !in Digits.Decimal(value)
      ensures Valid() && Abs() == Do(old(Abs()), PutElement(Raw(Digits.Decimal(value))))
      ensures buffer[buflen..] == old(buffer[buflen..])
    {
      Digits.DecimalBytes(value);
      var n := Digits.Itoa10(value, tmpbuf);
      ArrRaw(tmpbuf[..n]);
    }

    /** jwArr_double */
    method ArrDouble(value: real, exponential: CString)
      requires Valid() && |exponential| < 32
      modifies this`callNo, this`bufp, this`error, buffer, nodeStack, tmpbuf
      ensures 0 !in DtoaBuffer.NumberText(value, 6, exponential)
      ensures Valid() && Abs() == Do(old(Abs()), PutElement(Raw(DtoaBuffer.NumberText(value, 6, exponential))))
      ensures buffer[buflen..] == old(buffer[buflen..])
    {
      DtoaBuffer.TextBytes(value, 6);
      var n := DtoaBuffer.Dtoa2(value, tmpbuf, 6, exponential);
      ArrRaw(tmpbuf[..n]);
    }

    /** jwArr_object and jwArr_array */
    method ArrNode(kind: NodeKind)
      requires Valid()
      modifies this`callNo, this`bufp, this`error, this`stackpos, buffer, nodeStack
      ensures Valid() && Abs() == Do(old(Abs()), PutElement(if kind == ObjectNode then NewObject else NewArray))
      ensures buffer[buflen..] == old(buffer[buflen..])
    {
      var r := ArrHead();
      if r == Ok {
        OpenNode(kind);
      }
    }

    /** jwOpen: the whole buffer is zeroed before the first byte is written. */
    method OpenRoot(buffer: array<Byte>, buflen: nat, rootType: NodeKind, isPretty: bool)
      requires buflen <= buffer.Length && tmpbuf != buffer && tmpbuf.Length == 32 && nodeStack.Length == STACK_DEPTH
      modifies this, buffer, nodeStack
      ensures Valid() && Abs() == Open(buflen, rootType, isPretty)
      ensures this.buffer == buffer && buffer[buflen..] == old(buffer[buflen..])
    {
      var i := 0;
      while i < buflen
        invariant i <= buflen && forall k :: 0 <= k < i ==> buffer[k] == NUL
        invariant buffer[buflen..] == old(buffer[buflen..])
      {
        buffer[i] := NUL;
        i := i + 1;
      }
      this.buffer := buffer;
      this.buflen := buflen;
      bufp := 0;
      nodeStack[0] := Node(rootType, 0);
      stackpos := 0;
      error := Ok;
      callNo := 1;
      this.isPretty := isPretty;
      assert Abs() == Writer([], buflen, Ok, 1, [Node(rootType, 0)], isPretty);
      Putch(if rootType == ObjectNode then LBRACE else LBRACKET);
    }

    /** jwEnd */
    method EndCurrent() returns (r: Error)
      requires Valid()
      modifies this`bufp, this`error, this`stackpos, buffer
      ensures Valid() && Abs() == Do(old(Abs()), End) && r == error
      ensures buffer[buflen..] == old(buffer[buflen..])
    {
      if error == Ok {
        var lastElemNo := nodeStack[stackpos].count;
        var kind := PopNode();
        if lastElemNo > 0 {
          PrettyLine();
        }
        Putch(if kind == ObjectNode then RBRACE else RBRACKET);
      }
      r := error;
    }

    /** jwClose */
    method CloseRoot() returns (r: Error)
      requires Valid()
      modifies this`bufp, this`error, buffer
      ensures Valid() && Abs() == Close(old(Abs())) && r == error
      ensures buffer[buflen..] == old(buffer[buflen..])
    {
      if error == Ok {
        if stackpos == 0 {
          var kind := nodeStack[0].kind;
          PutPut(Abs(), [LF], [CloseBracket(kind)]);
          if isPretty {
            Putch(LF);
          }
          Putch(if kind == ObjectNode then RBRACE else RBRACKET);
        } else {
          error := NestError;
        }
      }
      r := error;
    }
  }
}
