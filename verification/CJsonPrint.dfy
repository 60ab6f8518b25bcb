/** The cJSON printer: a growing or preallocated buffer that receives exactly the text of the item. */
module CJsonPrint {
  import opened Ascii
  import opened CJsonItem
  import opened CJsonLayout
  import opened CJsonMemory
  import opened CJsonParse
  import C = CJsonCompare
  import J = JsonText

  /** The temporary buffer of print_number holds this many bytes before its terminator. */
  const NUMBER_BUFFER := 25

  /** Trees that print_value does not refuse, given room and memory. */
  predicate Printable(t: Tree)
    decreases t, 0
  {
    match t.kind
    case InvalidKind => false
    case NumberKind => |t.number| <= NUMBER_BUFFER
    case RawKind => t.value != NULL
    case ArrayKind => AllPrintable(t.children)
    case ObjectKind => AllPrintable(t.children)
    case _ => true
  }

  predicate AllPrintable(f: Forest)
    decreases f, 1
  {
    match f
    case Nil => true
    case Sibling(t, rest) => Printable(t) && AllPrintable(rest)
  }

  /** The string at an address; print_string_ptr takes NULL for the empty string. */
  method StringAt(m: Memory, a: Addr, ghost text: CString) returns (s: CString)
    requires TextAt(m.cells, a, text)
    ensures s == text
  {
    s := if a == NULL then [] else m.cells[a].bytes;
  }

  /** All bytes of a buffer. */
  ghost function AllOf(buffer: array?<Byte>): Bytes
    reads buffer
  {
    if buffer == null then [] else buffer[..]
  }

  /** Two contents of a buffer agree from `end` on. */
  predicate SameTail(a: Bytes, b: Bytes, end: nat) {
    |a| == |b| && forall i :: end <= i < |a| ==> a[i] == b[i]
  }

  lemma SelfTail(a: Bytes, end: nat)
    ensures SameTail(a, a, end)
  {
  }

  lemma SameTails(a: Bytes, b: Bytes, c: Bytes, e1: nat, e2: nat)
    requires SameTail(a, b, e1) && SameTail(b, c, e2) && e1 <= e2
    ensures SameTail(a, c, e2)
  {
  }

  class PrintBuffer {
    var buffer: array?<Byte>
    var length: nat
    var offset: nat
    var depth: nat
    /** The items in memory, and the hooks; printing started before the request numbered `since`. */
    const mem: Memory
    ghost const since: nat
    const noalloc: bool
    const format: bool
    const hasRealloc: bool

    ghost predicate Valid()
      reads this, buffer, mem`asked
    {
      && (buffer != null ==> length <= buffer.Length && mem.Fine(since))
      && length <= INT_MAX
    }

    /** The buffer is there and the offset stands inside it, if it is not empty. */
    ghost predicate Ready()
      reads this, buffer, mem`asked
    {
      Valid() && buffer != null && (offset < length || (length == 0 && offset == 0))
    }

    /** How long the buffer can be made. */
    ghost function Limit(): nat
      reads this
    {
      if noalloc then length else INT_MAX
    }

    /** The buffer can be made long enough for a text, and two bytes more. */
    ghost predicate Room(s: Bytes)
      reads this
    {
      offset + |s| + 2 <= Limit()
    }

    /** The bytes before the offset. */
    ghost function Done(): Bytes
      reads this, buffer, mem`asked
    {
      if buffer != null && offset <= buffer.Length then buffer[..offset] else []
    }

    /** `s` and a terminator stand at the offset. */
    ghost predicate Holds(s: Bytes)
      reads this, buffer, mem`asked
    {
      Valid() && buffer != null && offset + |s| < length && buffer[offset..offset + |s|] == s
        && buffer[offset + |s|] == NUL
    }

    /**
     * The text stands behind what was there before, with its terminator. The offset may have moved into the
     * text: print_array and print_object leave it in front of the closing bracket.
     */
    ghost predicate Prints(before: Bytes, s: Bytes)
      reads this, buffer, mem`asked
    {
      && Valid() && buffer != null && |before| <= offset <= |before| + |s| < length
      && buffer[..|before| + |s|] == before + s && buffer[|before| + |s|] == NUL
    }

    lemma HoldsPrints(s: Bytes)
      requires Holds(s)
      ensures Prints(Done(), s)
    {
      assert buffer[..offset + |s|] == buffer[..offset] + buffer[offset..offset + |s|];
    }

    /** The last piece of a text completes it. */
    lemma Finished(before: Bytes, all: Bytes, done: Bytes, end: Bytes)
      requires Prints(done, end) && done + end == before + all && |before| <= |done|
      ensures Prints(before, all)
    {
    }

    constructor (mem: Memory, ghost since: nat, buf: array<Byte>, length: nat, noalloc: bool, format: bool,
        hasRealloc: bool)
      requires length <= buf.Length && length <= INT_MAX
      ensures this.mem == mem && this.since == since
      ensures buffer == buf && offset == 0 && depth == 0 && this.length == length
      ensures this.noalloc == noalloc && this.format == format && this.hasRealloc == hasRealloc
    {
      this.mem, this.since := mem, since;
      buffer, this.length, offset, depth := buf, length, 0, 0;
      this.noalloc, this.format, this.hasRealloc := noalloc, format, hasRealloc;
    }

    /** ensure: room for `needed` bytes and one more behind the offset. */
    method Ensure(needed: nat) returns (ok: bool)
      requires Valid() && (buffer != null ==> offset <= length)
      modifies this, mem`asked
      ensures Valid() && offset == old(offset) && depth == old(depth)
      ensures buffer == old(buffer) || buffer == null || fresh(buffer)
      ensures ok ==> Ready() && offset + needed + 1 <= length && Done() == old(Done())
      ensures noalloc ==> length == old(length) && buffer == old(buffer) && mem.asked == old(mem.asked)
      ensures old(Ready()) && mem.Fine(since) ==> (ok <==> offset + needed + 1 <= Limit())
      ensures ok ==> offset + needed + 1 <= old(Limit())
      ensures !ok && buffer != null ==> buffer == old(buffer)
      ensures buffer == old(buffer) ==> length == old(length)
      ensures mem.asked >= old(mem.asked)
    {
      if buffer == null || (length > 0 && offset >= length) || needed > INT_MAX {
        return false;
      }
      var total := needed + offset + 1;
      if total <= length {
        return true;
      }
      if noalloc {
        return false;
      }
      var newsize;
      if total > INT_MAX / 2 {
        if total > INT_MAX {
          return false;
        }
        newsize := INT_MAX;
      } else {
        newsize := total * 2;
      }
      ok := Grow(newsize, if hasRealloc then length else offset + 1);
    }

    /** A new buffer with the first bytes of the old one: all of them by realloc, one past the offset by hand. */
    method Grow(newsize: nat, keep: nat) returns (ok: bool)
      requires Valid() && buffer != null && length < newsize <= INT_MAX && offset <= length && offset <= keep
      modifies this, mem`asked
      ensures Valid() && offset == old(offset) && depth == old(depth)
      ensures (ok <==> mem.Fine(since)) && mem.asked >= old(mem.asked)
      ensures ok ==> buffer != null && fresh(buffer) && length == newsize && buffer[..offset] == old(buffer[..offset])
      ensures !ok ==> buffer == null
    {
      var granted := mem.Request();
      if !granted {
        buffer, length := null, 0;
        return false;
      }
      var newbuffer := new Byte[newsize];
      var i := 0;
      while i < keep && i < length
        invariant i <= length && unchanged(this) && unchanged(buffer)
        invariant mem.Fine(since) && mem.asked == old(mem.asked) + 1
        invariant newbuffer[..i] == buffer[..i]
      {
        newbuffer[i] := buffer[i];
        i := i + 1;
      }
      assert newbuffer[..offset] == newbuffer[..i][..offset];
      assert buffer[..offset] == buffer[..i][..offset];
      buffer, length, ok := newbuffer, newsize, true;
    }

    /** update_offset: the offset moves to the terminator of what stands there. */
    method UpdateOffset(ghost before: Bytes, ghost s: Bytes)
      requires Prints(before, s) && NoNul(s)
      modifies this`offset
      ensures offset == |before| + |s| && Ready() && Done() == before + s
    {
      ghost var end := |before| + |s|;
      var n := 0;
      while buffer[offset + n] != NUL
        invariant offset + n <= end
        invariant forall i :: |before| <= i < end ==> buffer[..end][i] == s[i - |before|] != NUL
        decreases end - n
      {
        n := n + 1;
      }
      offset := offset + n;
    }

    /** Bytes and a terminator at the offset, after room for them has been made. */
    method CopyString(s: Bytes)
      requires Ready() && offset + |s| < length
      modifies buffer
      ensures Holds(s) && Done() == old(Done()) && SameTail(old(AllOf(buffer)), AllOf(buffer), offset + |s| + 1)
    {
      CopyFrom(offset, s);
      buffer[offset + |s|] := NUL;
    }

    /** The escape of a control byte as sprintf writes it behind the backslash, with a terminator. */
    method PutUnicode(at: nat, b: Byte)
      requires buffer != null && at + 6 < buffer.Length && b < 32
      modifies buffer
      ensures buffer[..at] == old(buffer[..at])
      ensures SameTail(old(AllOf(buffer)), AllOf(buffer), at + 7)
      ensures buffer[at..at + 6] == [BACKSLASH, LOWER_U, 48, 48, HEX_DIGITS[b / 16], HEX_DIGITS[b % 16]]
    {
      buffer[at], buffer[at + 1], buffer[at + 2], buffer[at + 3] := BACKSLASH, LOWER_U, 48, 48;
      buffer[at + 4], buffer[at + 5], buffer[at + 6] := HEX_DIGITS[b / 16], HEX_DIGITS[b % 16], NUL;
    }

    /** A backslash and a letter. */
    method PutLetter(at: nat, letter: Byte)
      requires buffer != null && at + 1 < buffer.Length
      modifies buffer
      ensures SameTail(old(AllOf(buffer)), AllOf(buffer), at + 2)
      ensures buffer[..at] == old(buffer[..at]) && buffer[at..at + 2] == [BACKSLASH, letter]
    {
      buffer[at], buffer[at + 1] := BACKSLASH, letter;
    }

    /** One byte of a string, escaped, at `at`; the six byte form also leaves a terminator behind it. */
    method PutEscaped(at: nat, b: Byte) returns (next: nat)
      requires Ready() && b != NUL && at + |Escaped(b)| < length
      modifies buffer
      ensures SameTail(old(AllOf(buffer)), AllOf(buffer), next + 1)
      ensures next == at + |Escaped(b)| && buffer[..at] == old(buffer[..at]) && buffer[at..next] == Escaped(b)
    {
      if b > 31 && b != QUOTE && b != BACKSLASH {
        buffer[at] := b;
        return at + 1;
      }
      next := at + 2;
      if b == BACKSLASH || b == QUOTE {
        PutLetter(at, b);
      } else if b == 8 {
        PutLetter(at, LOWER_B);
      } else if b == 12 {
        PutLetter(at, LOWER_F);
      } else if b == 10 {
        PutLetter(at, LOWER_N);
      } else if b == 13 {
        PutLetter(at, LOWER_R);
      } else if b == 9 {
        PutLetter(at, LOWER_T);
      } else {
        PutUnicode(at, b);
        next := at + 6;
      }
    }

    /** The bytes that escaping adds to a string. */
    static method CountEscapes(s: CString) returns (escapes: nat)
      ensures |Encoded(s)| == |s| + escapes
    {
      escapes := 0;
      var i := 0;
      while i < |s|
        invariant i <= |s| && |Encoded(s[..i])| == i + escapes
      {
        EncodedSnoc(s[..i], s[i]);
        assert s[..i] + [s[i]] == s[..i + 1];
        if s[i] == QUOTE || s[i] == BACKSLASH || s[i] == 8 || s[i] == 12 || s[i] == 10 || s[i] == 13 || s[i] == 9 {
          escapes := escapes + 1;
        } else if s[i] < 32 {
          escapes := escapes + 5;
        }
        i := i + 1;
      }
      assert s[..|s|] == s;
    }

    /** The escaped string behind the opening quote, in the room that has been made for it. */
    method CopyEscaped(s: CString)
      requires Ready() && offset + |Encoded(s)| + 4 <= length
      modifies buffer
      ensures Done() == old(Done()) && buffer[offset] == old(buffer[offset])
      ensures SameTail(old(AllOf(buffer)), AllOf(buffer), offset + |Encoded(s)| + 2)
      ensures buffer[offset + 1..offset + 1 + |Encoded(s)|] == Encoded(s)
    {
      hide Encoded, Escaped;
      EncodedNone();
      ghost var front := buffer[..offset + 1];
      var at := offset + 1;
      var i := 0;
      while i < |s|
        invariant i <= |s| && at == offset + 1 + |Encoded(s[..i])| && |Encoded(s[..i])| <= |Encoded(s)|
        invariant buffer[..at] == front + Encoded(s[..i])
        invariant SameTail(old(AllOf(buffer)), AllOf(buffer), offset + |Encoded(s)| + 2)
      {
        EncodedSnoc(s[..i], s[i]);
        EncodedShorter(s, i);
        assert s[..i] + [s[i]] == s[..i + 1];
        ghost var before := buffer[..at];
        var next := PutEscaped(at, s[i]);
        assert buffer[..next] == buffer[..at] + buffer[at..next];
        assert (front + Encoded(s[..i])) + Escaped(s[i]) == front + (Encoded(s[..i]) + Escaped(s[i]));
        at, i := next, i + 1;
      }
      assert s[..|s|] == s;
      Parted(buffer[..], front, Encoded(s));
    }

    /** print_string_ptr */
    method PrintString(s: CString) returns (ok: bool)
      requires Ready()
      modifies this, buffer, mem`asked
      ensures Kept() && (ok ==> Prints(old(Done()), J.Quoted(Encoded(s))))
      ensures Tail(old(AllOf(buffer)), if ok then offset + |J.Quoted(Encoded(s))| + 1 else length)
      ensures ok <==> offset + |J.Quoted(Encoded(s))| + 2 <= old(Limit()) && mem.Fine(since)
    {
      hide Encoded, Prints, Holds, J.Quoted, SameTail, AllOf;
      SelfTail(AllOf(buffer), length);
      QuotedLength(Encoded(s));
      var escapes := CountEscapes(s);
      ok := Ensure(|s| + escapes + 3);
      if ok {
        CopyQuoted(s, escapes);
        HoldsPrints(J.Quoted(Encoded(s)));
      }
    }

    /** The string in its quotes, in the room that has been made for it. */
    method CopyQuoted(s: CString, escapes: nat)
      requires Ready() && offset + |s| + escapes + 4 <= length && |Encoded(s)| == |s| + escapes
      modifies buffer
      ensures Holds(J.Quoted(Encoded(s))) && Done() == old(Done())
      ensures SameTail(old(AllOf(buffer)), AllOf(buffer), offset + |J.Quoted(Encoded(s))| + 1)
    {
      hide Encoded, Holds, J.Quoted, SameTail, AllOf;
      QuotedLength(Encoded(s));
      var outputLength := |s| + escapes;
      ghost var b0 := AllOf(buffer);
      OpenQuote();
      ghost var b1 := AllOf(buffer);
      if escapes == 0 {
        CopyPlain(s);
      } else {
        CopyEscaped(s);
      }
      ghost var b2 := AllOf(buffer);
      SameTails(b0, b1, b2, offset + 1, offset + outputLength + 2);
      CloseQuote(outputLength, Encoded(s));
      SameTails(b0, b2, AllOf(buffer), offset + outputLength + 2, offset + outputLength + 3);
    }

    /** print_string_ptr and update_offset behind it. */
    method PrintQuoted(s: CString) returns (ok: bool)
      requires Ready()
      modifies this, buffer, mem`asked
      ensures Framed() && depth == old(depth)
      ensures ok ==> Ready() && Done() == old(Done()) + J.Quoted(Encoded(s))
      ensures Tail(old(AllOf(buffer)), if ok then Reach() else length)
      ensures ok <==> old(Room(J.Quoted(Encoded(s)))) && mem.Fine(since)
    {
      hide Encoded, J.Quoted, SameTail, AllOf;
      ghost var before := Done();
      ok := PrintString(s);
      if ok {
        KeyNoNul(s);
        UpdateOffset(before, J.Quoted(Encoded(s)));
      }
    }

    /** The opening quote. */
    method OpenQuote()
      requires Ready() && offset < length
      modifies buffer
      ensures Done() == old(Done()) && buffer[offset] == QUOTE
      ensures SameTail(old(AllOf(buffer)), AllOf(buffer), offset + 1)
    {
      buffer[offset] := QUOTE;
    }

    /** The closing quote and the terminator. */
    method CloseQuote(outputLength: nat, ghost body: Bytes)
      requires Ready() && offset + outputLength + 2 < length && buffer[offset] == QUOTE && |body| == outputLength
      requires buffer[offset + 1..offset + 1 + outputLength] == body
      modifies buffer
      ensures Holds(J.Quoted(body)) && Done() == old(Done())
      ensures SameTail(old(AllOf(buffer)), AllOf(buffer), offset + outputLength + 3)
    {
      buffer[offset + outputLength + 1], buffer[offset + outputLength + 2] := QUOTE, NUL;
      QuotedParts(buffer[offset..offset + outputLength + 2], body);
    }

    /** The string itself behind the opening quote, when nothing is escaped. */
    method CopyPlain(s: CString)
      requires Ready() && offset + |Encoded(s)| + 4 <= length && |Encoded(s)| == |s|
      modifies buffer
      ensures Done() == old(Done()) && buffer[offset] == old(buffer[offset])
      ensures SameTail(old(AllOf(buffer)), AllOf(buffer), offset + |Encoded(s)| + 2)
      ensures buffer[offset + 1..offset + 1 + |Encoded(s)|] == Encoded(s)
    {
      hide Encoded, SameTail;
      NothingEscaped(s);
      ghost var was := AllOf(buffer);
      CopyFrom(offset + 1, s);
      assert AllOf(buffer)[..offset + 1] == was[..offset + 1];
      FrontKept(was, AllOf(buffer), offset, offset + 1 + |s|);
    }

    /** The final copy: the text and its terminator. */
    method CopyOut() returns (printed: array<Byte>)
      requires Ready() && offset < length
      ensures fresh(printed) && printed[..] == Done() + [NUL]
    {
      printed := new Byte[offset + 1];
      var i := 0;
      while i < length && i < offset + 1
        invariant i <= offset + 1
        invariant printed[..i] == buffer[..i]
      {
        printed[i] := buffer[i];
        i := i + 1;
      }
      assert buffer[..offset] == buffer[..i][..offset] && printed[..offset] == printed[..i][..offset];
      printed[offset] := NUL;
    }

    /** memcpy into the buffer. */
    method CopyFrom(at: nat, s: Bytes)
      requires buffer != null && at + |s| <= buffer.Length
      modifies buffer
      ensures buffer[..at] == old(buffer[..at]) && buffer[at..at + |s|] == s
      ensures SameTail(old(AllOf(buffer)), AllOf(buffer), at + |s|)
    {
      var i := 0;
      while i < |s|
        invariant i <= |s| && buffer[..at] == old(buffer[..at]) && buffer[at..at + i] == s[..i]
        invariant SameTail(old(AllOf(buffer)), AllOf(buffer), at + i)
      {
        buffer[at + i] := s[i];
        i := i + 1;
      }
    }

    /** One past the offset, if that is inside the buffer. */
    ghost function Reach(): nat
      reads this
    {
      if offset < length then offset + 1 else length
    }

    /** A buffer that cannot grow holds from `end` on what it held before. */
    ghost predicate Tail(was: Bytes, end: nat)
      reads this, buffer
    {
      noalloc ==> SameTail(was, AllOf(buffer), end)
    }

    /** What was left alone by one step after the other. */
    lemma TailOn(was: Bytes, mid: Bytes, e1: nat, e2: nat)
      requires (noalloc ==> SameTail(was, mid, e1) && e1 <= e2) && Tail(mid, e2)
      ensures Tail(was, e2)
    {
    }

    /** What every print step leaves alone. */
    twostate predicate Framed()
      reads this, buffer, mem`asked
    {
      && Valid()
      && (buffer == old(buffer) || buffer == null || fresh(buffer))
      && (noalloc ==> length == old(length) && buffer == old(buffer) && mem.asked == old(mem.asked))
      && mem.asked >= old(mem.asked)
    }

    /** What a step leaves alone that writes behind the offset only. */
    twostate predicate Kept()
      reads this, buffer, mem`asked
    {
      Framed() && offset == old(offset) && depth == old(depth)
    }

    /** A literal, a number or raw text, with its terminator. */
    method PrintText(s: Bytes) returns (ok: bool)
      requires Ready()
      modifies this, buffer, mem`asked
      ensures Kept() && (ok ==> Prints(old(Done()), s))
      ensures Tail(old(AllOf(buffer)), if ok then offset + |s| + 1 else length)
      ensures ok <==> offset + |s| + 2 <= old(Limit()) && mem.Fine(since)
    {
      ok := Ensure(|s| + 1);
      if ok {
        CopyString(s);
        HoldsPrints(s);
      }
    }

    /** print_number, given the text of the number; it moves the offset itself. */
    method PrintNumber(number: Bytes) returns (ok: bool)
      requires Ready()
      modifies this, buffer, mem`asked
      ensures Framed() && depth == old(depth) && (ok ==> Prints(old(Done()), number))
      ensures Tail(old(AllOf(buffer)), if ok then old(offset) + |number| + 1 else length)
      ensures ok <==> |number| <= NUMBER_BUFFER && old(Room(number)) && mem.Fine(since)
    {
      hide SameTail, AllOf;
      SelfTail(AllOf(buffer), length);
      if |number| > NUMBER_BUFFER {
        return false;
      }
      ok := PrintText(number);
      if ok {
        offset := offset + |number|;
      }
    }

    /**
     * Bytes between values, after which the offset stands; a terminator behind them is written only where the source
     * does.
     */
    method Append(s: Bytes, needed: nat, terminated: bool) returns (ok: bool)
      requires Ready() && |s| <= needed
      modifies this, buffer, mem`asked
      ensures Framed() && depth == old(depth)
      ensures ok <==> old(offset) + needed + 1 <= old(Limit()) && mem.Fine(since)
      ensures ok ==> Ready() && offset == old(offset) + |s| && Done() == old(Done()) + s
      ensures Tail(old(AllOf(buffer)), if ok then Reach() else length)
    {
      ok := Ensure(needed);
      if ok {
        CopyFrom(offset, s);
        if terminated {
          buffer[offset + |s|] := NUL;
        }
        offset := offset + |s|;
      }
    }

    /** print_value */
    method PrintValue(a: Addr, ghost t: Tree, ghost p: Addr, ghost n: Addr) returns (ok: bool)
      requires Ready() && (a != NULL ==> a == t.at && TreeAt(mem.cells, t, p, n, true))
      modifies this, buffer, mem`asked
      ensures Framed()
      ensures ok ==> depth == old(depth) && Prints(old(Done()), J.Text(Layout(TreeItem(t), format, depth)))
      ensures var s := J.Text(Layout(TreeItem(t), format, depth));
        Tail(old(AllOf(buffer)), if ok then old(offset) + |s| + 1 else length)
      ensures ok <==>
        a != NULL && Printable(t) && old(Room(J.Text(Layout(TreeItem(t), format, depth)))) && mem.Fine(since)
      decreases t, 1
    {
      hide J.Text, J.Quoted, TreeAt, C.Reads, SameTail, AllOf, Prints, Layout, TreeItem, Encoded;
      SelfTail(AllOf(buffer), length);
      ValueText(t, format, depth);
      if a == NULL {
        return false;
      }
      C.TreeReads(mem.cells, t, p, n);
      var x := mem.cells[a];
      match x.kind
      case NullKind =>
        ok := PrintText(NULL_TEXT);
      case FalseKind =>
        ok := PrintText(FALSE_TEXT);
      case TrueKind =>
        ok := PrintText(TRUE_TEXT);
      case NumberKind =>
        ok := PrintNumber(x.number);
      case RawKind =>
        ok := false;
        if x.value != NULL {
          ok := PrintText(mem.cells[x.value].bytes);
        }
      case StringKind =>
        var s := StringAt(mem, x.value, t.text);
        ok := PrintString(s);
      case ArrayKind =>
        ok := PrintArray(a, t, p, n);
      case ObjectKind =>
        ok := PrintObject(a, t, p, n);
      case InvalidKind =>
        ok := false;
    }

    /** print_value and update_offset behind it. */
    method PrintWhole(a: Addr, ghost t: Tree, ghost p: Addr, ghost n: Addr) returns (ok: bool)
      requires Ready() && a == t.at && a != NULL && TreeAt(mem.cells, t, p, n, true)
      modifies this, buffer, mem`asked
      ensures Framed()
      ensures ok ==>
        Ready() && depth == old(depth) && Done() == old(Done()) + J.Text(Layout(TreeItem(t), format, depth))
      ensures Tail(old(AllOf(buffer)), if ok then Reach() else length)
      ensures ok <==> Printable(t) && old(Room(J.Text(Layout(TreeItem(t), format, depth)))) && mem.Fine(since)
      decreases t, 2
    {
      hide J.Text, Layout, TreeAt, Printable, SameTail, AllOf, TreeItem;
      ghost var before, s := Done(), J.Text(Layout(TreeItem(t), format, depth));
      ok := PrintValue(a, t, p, n);
      if ok {
        LayoutNoNul(TreeItem(t), format, depth);
        UpdateOffset(before, s);
      }
    }

    /** print_array */
    method PrintArray(a: Addr, ghost t: Tree, ghost p: Addr, ghost n: Addr) returns (ok: bool)
      requires Ready() && a == t.at && TreeAt(mem.cells, t, p, n, true)
      modifies this, buffer, mem`asked
      ensures Framed()
      ensures var v := Array(ForestItems(t.children));
        ok ==> depth == old(depth) && Prints(old(Done()), J.Text(Layout(v, format, depth)))
      ensures var v := Array(ForestItems(t.children));
        Tail(old(AllOf(buffer)), if ok then old(offset) + |J.Text(Layout(v, format, depth))| + 1 else length)
      ensures var v := Array(ForestItems(t.children));
        ok <==> AllPrintable(t.children) && old(Room(J.Text(Layout(v, format, depth)))) && mem.Fine(since)
      decreases t, 0
    {
      hide J.Text, Layout, ElementsText, Prints, TreeAt, C.Reads, SameTail, AllOf;
      ghost var was := AllOf(buffer);
      ghost var items := ForestItems(t.children);
      ghost var start, body := Done(), ElementsText(items, format, depth + 1);
      ArrayText(items, format, depth);
      C.TreeReads(mem.cells, t, p, n);
      var child := mem.cells[a].child;
      ok := Append([LBRACKET], 1, false);
      if !ok {
        return;
      }
      ghost var mid, e := AllOf(buffer), Reach();
      depth := depth + 1;
      NoElements(format, depth);
      ok := PrintElements(child, t.children);
      TailOn(was, mid, e, if ok then Reach() else length);
      if !ok {
        return;
      }
      ok := PrintEnd(was, start, [LBRACKET], body, [RBRACKET]);
    }

    /** The closing bracket with what stands in front of it, which completes the text of a container. */
    method PrintEnd(ghost was: Bytes, ghost start: Bytes, ghost opening: Bytes, ghost body: Bytes, end: Bytes)
        returns (ok: bool)
      requires Ready() && depth > 0 && Done() == (start + opening) + body && Tail(was, Reach())
      modifies this, buffer, mem`asked
      ensures Framed() && (ok ==> depth == old(depth) - 1 && Prints(start, opening + (body + end)))
      ensures Tail(was, if ok then |start + (opening + (body + end))| + 1 else length)
      ensures ok <==> old(offset) + |end| + 2 <= old(Limit()) && mem.Fine(since)
    {
      hide SameTail, AllOf;
      ghost var done, mid, e := Done(), AllOf(buffer), Reach();
      ok := PrintText(end);
      TailOn(was, mid, e, if ok then |done| + |end| + 1 else length);
      depth := depth - 1;
      if ok {
        Assembled(start, opening, body, end);
        Finished(start, opening + (body + end), done, end);
      }
    }

    /** The loop of print_array. */
    method PrintElements(child: Addr, ghost f: Forest) returns (ok: bool)
      requires Ready() && C.Reads(mem.cells, child, f, NULL)
      modifies this, buffer, mem`asked
      ensures Framed()
      ensures Tail(old(AllOf(buffer)), if ok then Reach() else length)
      ensures ok ==>
        Ready() && depth == old(depth) && Done() == old(Done()) + ElementsText(ForestItems(f), format, depth)
      ensures ok <==>
        AllPrintable(f) && (f.Sibling? ==> old(Room(ElementsText(ForestItems(f), format, depth))) && mem.Fine(since))
      decreases f, 4
    {
      hide J.Text, J.ElemsText, Layout, ElementsText, ElementText, Printable, TreeItem, C.Reads, TreeAt, SameTail,
        AllOf;
      ghost var was := AllOf(buffer);
      SelfTail(was, Reach());
      ghost var start, all := Done(), ElementsText(ForestItems(f), format, depth);
      var current := child;
      ghost var g, prev := f, NULL;
      C.ReadsNode(mem.cells, current, g, prev);
      while current != NULL
        invariant Framed() && Ready() && depth == old(depth) && Tail(was, Reach())
        invariant g == f || g < f
        invariant C.Reads(mem.cells, current, g, prev) && (current == NULL <==> g.Nil?)
        invariant AllPrintable(f) == AllPrintable(g)
        invariant Done() + ElementsText(ForestItems(g), format, depth) == start + all
        invariant (g == f || offset + 2 <= Limit()) && (f.Nil? ==> g.Nil?)
        decreases g
      {
        C.ReadsNode(mem.cells, current, g, prev);
        C.ReadsNode(mem.cells, First(g.tail), g.tail, current);
        ElementStep(ForestItems(g), format, depth);
        ghost var before, v := Done(), ElementText(TreeItem(g.head), g.tail.Sibling?, format, depth);
        assert |before| + |v| <= |start| + |all|;
        ghost var mid, end := AllOf(buffer), Reach();
        var printed := PrintElement(current, g.head, prev, First(g.tail), g.tail.Sibling?);
        TailOn(was, mid, end, if printed then Reach() else length);
        if !printed {
          return false;
        }
        Shift(before, v, ElementsText(ForestItems(g.tail), format, depth));
        current, prev, g := mem.cells[current].next, current, g.tail;
        C.ReadsNode(mem.cells, current, g, prev);
      }
      NoElements(format, depth);
      ok := true;
    }

    /** One round of the loop of print_array. */
    method PrintElement(a: Addr, ghost t: Tree, ghost p: Addr, ghost n: Addr, ghost more: bool)
        returns (ok: bool)
      requires Ready() && a == t.at && TreeAt(mem.cells, t, p, n, true) && (more <==> n != NULL)
      modifies this, buffer, mem`asked
      ensures Framed()
      ensures Tail(old(AllOf(buffer)), if ok then Reach() else length)
      ensures ok ==>
        Ready() && depth == old(depth) && Done() == old(Done()) + ElementText(TreeItem(t), more, format, depth)
      ensures ok <==> Printable(t) && old(Room(ElementText(TreeItem(t), more, format, depth))) && mem.Fine(since)
      decreases t, 3
    {
      hide J.Text, Layout, TreeAt, Printable, SameTail, AllOf;
      ghost var was := AllOf(buffer);
      NodeIs(mem.cells, t, p, n, true);
      ok := PrintWhole(a, t, p, n);
      if !ok {
        return;
      }
      ghost var mid, e := AllOf(buffer), Reach();
      if mem.cells[a].next != NULL {
        ok := Append(if format then [COMMA, SPACE] else [COMMA], if format then 3 else 2, true);
        TailOn(was, mid, e, if ok then Reach() else length);
      }
    }

    /** print_object */
    method PrintObject(a: Addr, ghost t: Tree, ghost p: Addr, ghost n: Addr) returns (ok: bool)
      requires Ready() && a == t.at && TreeAt(mem.cells, t, p, n, true)
      modifies this, buffer, mem`asked
      ensures Framed()
      ensures var v := Object(ForestFields(t.children));
        ok ==> depth == old(depth) && Prints(old(Done()), J.Text(Layout(v, format, depth)))
      ensures var v := Object(ForestFields(t.children));
        Tail(old(AllOf(buffer)), if ok then old(offset) + |J.Text(Layout(v, format, depth))| + 1 else length)
      ensures var v := Object(ForestFields(t.children));
        ok <==> AllPrintable(t.children) && old(Room(J.Text(Layout(v, format, depth)))) && mem.Fine(since)
      decreases t, 0
    {
      hide J.Text, Layout, MembersText, Tabs, If, Prints, TreeAt, C.Reads, SameTail, AllOf;
      ghost var was := AllOf(buffer);
      ghost var fields := ForestFields(t.children);
      ghost var start, body := Done(), MembersText(fields, format, depth + 1);
      ObjectText(fields, format, depth);
      C.TreeReads(mem.cells, t, p, n);
      var child := mem.cells[a].child;
      var opening := if format then [LBRACE, LF] else [LBRACE];
      ok := Append(opening, |opening| + 1, false);
      if !ok {
        return;
      }
      ghost var mid, e := AllOf(buffer), Reach();
      depth := depth + 1;
      NoMember(format, depth);
      ok := PrintMembers(child, t.children);
      TailOn(was, mid, e, if ok then Reach() else length);
      if !ok {
        return;
      }
      ok := PrintEnd(was, start, opening, body, If(format, Tabs(depth - 1)) + [RBRACE]);
    }

    /** The loop of print_object. */
    method PrintMembers(child: Addr, ghost f: Forest) returns (ok: bool)
      requires Ready() && C.Reads(mem.cells, child, f, NULL)
      modifies this, buffer, mem`asked
      ensures Framed()
      ensures Tail(old(AllOf(buffer)), if ok then Reach() else length)
      ensures ok ==>
        Ready() && depth == old(depth) && Done() == old(Done()) + MembersText(ForestFields(f), format, depth)
      ensures ok <==>
        AllPrintable(f) && (f.Sibling? ==> old(Room(MembersText(ForestFields(f), format, depth))) && mem.Fine(since))
      decreases f, 5
    {
      hide MembersText, MemberText, Printable, TreeItem, C.Reads, TreeAt, SameTail, AllOf;
      ghost var was := AllOf(buffer);
      SelfTail(was, Reach());
      ghost var start, all := Done(), MembersText(ForestFields(f), format, depth);
      var current := child;
      ghost var g, prev := f, NULL;
      C.ReadsNode(mem.cells, current, g, prev);
      while current != NULL
        invariant Framed() && Ready() && depth == old(depth) && Tail(was, Reach())
        invariant g == f || g < f
        invariant C.Reads(mem.cells, current, g, prev) && (current == NULL <==> g.Nil?)
        invariant AllPrintable(f) == AllPrintable(g)
        invariant Done() + MembersText(ForestFields(g), format, depth) == start + all
        invariant (g == f || offset + 2 <= Limit()) && (f.Nil? ==> g.Nil?)
        decreases g
      {
        C.ReadsNode(mem.cells, current, g, prev);
        C.ReadsNode(mem.cells, First(g.tail), g.tail, current);
        MemberStep(ForestFields(g), format, depth);
        ghost var before, v := Done(), MemberText(g.head.name, TreeItem(g.head), g.tail.Sibling?, format, depth);
        assert |before| + |v| <= |start| + |all|;
        ghost var mid, end := AllOf(buffer), Reach();
        var printed := PrintMember(current, g.head, prev, First(g.tail), g.tail.Sibling?);
        TailOn(was, mid, end, if printed then Reach() else length);
        if !printed {
          return false;
        }
        Shift(before, v, MembersText(ForestFields(g.tail), format, depth));
        current, prev, g := mem.cells[current].next, current, g.tail;
        C.ReadsNode(mem.cells, current, g, prev);
      }
      NoMember(format, depth);
      ok := true;
    }

    /** One round of the loop of print_object. */
    method PrintMember(a: Addr, ghost t: Tree, ghost p: Addr, ghost n: Addr, ghost more: bool)
        returns (ok: bool)
      requires Ready() && a == t.at && TreeAt(mem.cells, t, p, n, true) && (more <==> n != NULL)
      modifies this, buffer, mem`asked
      ensures Framed()
      ensures Tail(old(AllOf(buffer)), if ok then Reach() else length)
      ensures ok ==>
        Ready() && depth == old(depth) && Done() == old(Done()) + MemberText(t.name, TreeItem(t), more, format, depth)
      ensures ok <==> Printable(t) && old(Room(MemberText(t.name, TreeItem(t), more, format, depth))) && mem.Fine(since)
      decreases t, 4
    {
      hide J.Text, Layout, KeyText, Ending, TreeAt, TextAt, Printable, C.Reads, SameTail, AllOf, TreeItem;
      ghost var was := AllOf(buffer);
      ghost var before, s, ending := Done(), J.Text(Layout(TreeItem(t), format, depth)), Ending(more, format);
      C.TreeReads(mem.cells, t, p, n);
      var key := StringAt(mem, mem.cells[a].key, t.name);
      ok := PrintKey(key);
      if !ok {
        return;
      }
      ghost var mid, e := AllOf(buffer), Reach();
      ok := PrintEnded(a, t, p, n, more);
      TailOn(was, mid, e, if ok then Reach() else length);
      Join(before, KeyText(key, format, depth), s, ending);
    }

    /** The part of the loop of print_object behind the key. */
    method PrintEnded(a: Addr, ghost t: Tree, ghost p: Addr, ghost n: Addr, ghost more: bool) returns (ok: bool)
      requires Ready() && a == t.at && a != NULL && TreeAt(mem.cells, t, p, n, true) && (more <==> n != NULL)
      modifies this, buffer, mem`asked
      ensures Framed()
      ensures Tail(old(AllOf(buffer)), if ok then Reach() else length)
      ensures var s := J.Text(Layout(TreeItem(t), format, old(depth)));
        ok ==> Ready() && depth == old(depth) && Done() == old(Done()) + s + Ending(more, format)
      ensures var s := J.Text(Layout(TreeItem(t), format, old(depth)));
        ok <==> Printable(t) && old(offset) + |s| + |Ending(more, format)| + 2 <= old(Limit()) && mem.Fine(since)
      decreases t, 3
    {
      hide J.Text, Layout, Ending, TreeAt, Printable, SameTail, AllOf, TreeItem;
      ghost var was := AllOf(buffer);
      C.TreeReads(mem.cells, t, p, n);
      ok := PrintWhole(a, t, p, n);
      if !ok {
        return;
      }
      ghost var mid, e := AllOf(buffer), Reach();
      var ending := Ending(mem.cells[a].next != NULL, format);
      ok := Append(ending, |ending| + 1, true);
      TailOn(was, mid, e, if ok then Reach() else length);
    }

    /** The part of the loop of print_object in front of the value. */
    method PrintKey(key: CString) returns (ok: bool)
      requires Ready()
      modifies this, buffer, mem`asked
      ensures Framed() && (ok ==> Ready() && depth == old(depth) && Done() == old(Done()) + KeyText(key, format, depth))
      ensures Tail(old(AllOf(buffer)), if ok then Reach() else length)
      ensures ok <==> old(offset) + |KeyText(key, format, old(depth))| + 1 <= old(Limit()) && mem.Fine(since)
    {
      hide Encoded, Tabs, J.Quoted, SameTail, AllOf;
      ghost var was := AllOf(buffer);
      SelfTail(was, 0);
      ghost var before := Done();
      if format {
        ok := Append(Tabs(depth), depth, false);
        if !ok {
          return;
        }
      }
      ghost var mid, e := AllOf(buffer), if format then Reach() else 0;
      ghost var q := J.Quoted(Encoded(key));
      ok := PrintQuoted(key);
      TailOn(was, mid, e, if ok then Reach() else length);
      if !ok {
        return;
      }
      mid, e := AllOf(buffer), Reach();
      ok := Append(if format then [COLON, TAB] else [COLON], if format then 2 else 1, false);
      TailOn(was, mid, e, if ok then Reach() else length);
      Join(before, If(format, Tabs(depth)), q, if format then [COLON, TAB] else [COLON]);
    }
  }

  const DEFAULT_BUFFER_SIZE := 256

  /** The C string at the start of a buffer. */
  ghost predicate StartsWith(buf: array<Byte>, s: Bytes)
    reads buf
  {
    |s| < buf.Length && buf[..|s|] == s && buf[|s|] == NUL
  }

  /**
   * print: an exact copy of the text, exactly if the item can be printed, is not too long and all requests for memory
   * are granted.
   */
  method Print(m: Memory, item: Addr, ghost t: Tree, ghost p: Addr, ghost n: Addr, format: bool, hasRealloc: bool)
      returns (printed: array?<Byte>)
    requires item != NULL ==> item == t.at && TreeAt(m.cells, t, p, n, true)
    modifies m`asked
    ensures m.asked >= old(m.asked)
    ensures printed != null ==> fresh(printed) && printed[..] == Printed(TreeItem(t), format) + [NUL]
    ensures printed != null <==>
      item != NULL && Printable(t) && |Printed(TreeItem(t), format)| + 2 <= INT_MAX && m.Fine(old(m.asked))
  {
    hide Layout, J.Text, TreeAt, Printable;
    ghost var since := m.asked;
    var granted := m.Request();
    if !granted {
      return null;
    }
    var start := new Byte[DEFAULT_BUFFER_SIZE];
    var b := new PrintBuffer(m, since, start, DEFAULT_BUFFER_SIZE, false, format, hasRealloc);
    var ok := b.PrintValue(item, t, p, n);
    if !ok {
      return null;
    }
    LayoutNoNul(TreeItem(t), format, 0);
    b.UpdateOffset([], Printed(TreeItem(t), format));
    granted := m.Request();
    if !granted {
      return null;
    }
    assert [] + Printed(TreeItem(t), format) == Printed(TreeItem(t), format);
    printed := b.CopyOut();
  }

  /** cJSON_PrintBuffered: the buffer itself, which starts with the text. */
  method PrintBuffered(m: Memory, item: Addr, ghost t: Tree, ghost p: Addr, ghost n: Addr, prebuffer: int,
      format: bool, hasRealloc: bool)
      returns (printed: array?<Byte>)
    requires prebuffer <= INT_MAX
    requires item != NULL ==> item == t.at && TreeAt(m.cells, t, p, n, true)
    modifies m`asked
    ensures m.asked >= old(m.asked)
    ensures printed != null ==> fresh(printed) && StartsWith(printed, Printed(TreeItem(t), format))
    ensures printed != null <==>
      && prebuffer >= 0
      && item != NULL && Printable(t) && |Printed(TreeItem(t), format)| + 2 <= INT_MAX && m.Fine(old(m.asked))
  {
    hide Layout, J.Text, TreeAt, Printable;
    if prebuffer < 0 {
      return null;
    }
    ghost var since := m.asked;
    var granted := m.Request();
    if !granted {
      return null;
    }
    var start := new Byte[prebuffer];
    var b := new PrintBuffer(m, since, start, prebuffer, false, format, hasRealloc);
    var ok := b.PrintValue(item, t, p, n);
    if !ok {
      return null;
    }
    assert [] + Printed(TreeItem(t), format) == Printed(TreeItem(t), format);
    return b.buffer;
  }

  /**
   * cJSON_PrintPreallocated succeeds exactly when the length is two bytes more than the text, and asks for no memory.
   * It never writes past the length, and on success not past the terminator.
   */
  method PrintPreallocated(m: Memory, item: Addr, ghost t: Tree, ghost p: Addr, ghost n: Addr, buf: array?<Byte>,
      len: int, format: bool)
      returns (ok: bool)
    requires item != NULL ==> item == t.at && TreeAt(m.cells, t, p, n, true)
    requires buf != null && len >= 0 ==> len <= buf.Length
    requires len <= INT_MAX
    modifies buf, m`asked
    ensures m.asked == old(m.asked)
    ensures ok <==> buf != null && item != NULL && Printable(t) && |Printed(TreeItem(t), format)| + 2 <= len
    ensures ok ==> StartsWith(buf, Printed(TreeItem(t), format))
    ensures ok ==>
      buf[|Printed(TreeItem(t), format)| + 1..] == old(buf[|Printed(TreeItem(t), format)| + 1..])
    ensures buf != null ==> var end := if len < 0 then 0 else len; buf[end..] == old(buf[end..])
  {
    hide Layout, J.Text, TreeAt, Printable;
    if len < 0 || buf == null {
      return false;
    }
    var b := new PrintBuffer(m, m.asked, buf, len, true, format, true);
    ok := b.PrintValue(item, t, p, n);
    assert [] + Printed(TreeItem(t), format) == Printed(TreeItem(t), format);
  }

  function ElementText(v: Item, more: bool, format: bool, depth: nat): Bytes {
    J.Text(Layout(v, format, depth)) + (if !more then [] else if format then [COMMA, SPACE] else [COMMA])
  }

  lemma EncodedNone()
    ensures Encoded([]) == []
  {
  }

  lemma Parted(all: Bytes, front: Bytes, s: Bytes)
    requires |front| > 0 && |front| + |s| <= |all| && all[..|front| + |s|] == front + s
    ensures all[..|front| - 1] == front[..|front| - 1] && all[|front| - 1] == front[|front| - 1]
    ensures all[|front|..|front| + |s|] == s
  {
    assert all[..|front| - 1] == all[..|front| + |s|][..|front| - 1];
    assert all[|front| - 1] == all[..|front| + |s|][|front| - 1];
    assert all[|front|..|front| + |s|] == all[..|front| + |s|][|front|..];
  }

  lemma FrontKept(was: Bytes, now: Bytes, at: nat, end: nat)
    requires SameTail(was, now, end) && at + 1 <= |was| && now[..at + 1] == was[..at + 1]
    ensures now[..at] == was[..at] && now[at] == was[at] && SameTail(was, now, end + 1)
  {
    assert now[at] == now[..at + 1][at];
    assert now[..at] == now[..at + 1][..at];
  }

  lemma QuotedParts(all: Bytes, s: Bytes)
    requires |all| == |s| + 2 && all[0] == QUOTE && all[1..1 + |s|] == s && all[1 + |s|] == QUOTE
    ensures all == J.Quoted(s)
  {
  }

  lemma {:induction false} EncodedSnoc(s: Bytes, b: Byte)
    ensures Encoded(s + [b]) == Encoded(s) + Escaped(b)
    decreases |s|
  {
    if s == [] {
      assert Encoded([b]) == Escaped(b) + Encoded([]);
    } else {
      assert (s + [b])[1..] == s[1..] + [b];
      EncodedSnoc(s[1..], b);
    }
  }

  /** A string that does not get longer is not changed. */
  lemma {:induction false} NothingEscaped(s: Bytes)
    requires |Encoded(s)| == |s|
    ensures Encoded(s) == s
    decreases |s|
  {
    if s != [] {
      EncodedLength(s[1..]);
      NothingEscaped(s[1..]);
    }
  }

  lemma {:induction false} EncodedLength(s: Bytes)
    ensures |Encoded(s)| >= |s|
    decreases |s|
  {
    if s != [] {
      EncodedLength(s[1..]);
    }
  }

  lemma {:induction false} EncodedShorter(s: Bytes, i: nat)
    requires i < |s|
    ensures |Encoded(s[..i])| + |Escaped(s[i])| <= |Encoded(s)|
    decreases i
  {
    if i > 0 {
      assert s[1..][..i - 1] == s[..i][1..];
      EncodedShorter(s[1..], i - 1);
    }
  }

  /** What print_value writes for a node, by its kind. */
  lemma ValueText(t: Tree, format: bool, depth: nat)
    ensures t.kind.NullKind? ==> J.Text(Layout(TreeItem(t), format, depth)) == NULL_TEXT
    ensures t.kind.FalseKind? ==> J.Text(Layout(TreeItem(t), format, depth)) == FALSE_TEXT
    ensures t.kind.TrueKind? ==> J.Text(Layout(TreeItem(t), format, depth)) == TRUE_TEXT
    ensures t.kind.NumberKind? ==> J.Text(Layout(TreeItem(t), format, depth)) == t.number
    ensures t.kind.RawKind? ==> J.Text(Layout(TreeItem(t), format, depth)) == t.text
    ensures t.kind.StringKind? ==> J.Text(Layout(TreeItem(t), format, depth)) == J.Quoted(Encoded(t.text))
    ensures t.kind.ArrayKind? ==> TreeItem(t) == Array(ForestItems(t.children))
    ensures t.kind.ObjectKind? ==> TreeItem(t) == Object(ForestFields(t.children))
  {
  }

  function ElementsText(items: Items, format: bool, depth: nat): Bytes {
    J.ElemsText(ItemsLayout(items, format, depth))
  }

  lemma ArrayText(items: Items, format: bool, depth: nat)
    ensures J.Text(Layout(Array(items), format, depth))
      == [LBRACKET] + (ElementsText(items, format, depth + 1) + [RBRACKET])
  {
    assert [] + (ElementsText(items, format, depth + 1) + [RBRACKET])
      == ElementsText(items, format, depth + 1) + [RBRACKET];
  }

  /** What ends the line of a member. */
  function Ending(more: bool, format: bool): Bytes {
    if more then (if format then [COMMA, LF] else [COMMA]) else if format then [LF] else []
  }

  /** What print_object writes in front of a value. */
  function KeyText(key: CString, format: bool, depth: nat): Bytes {
    If(format, Tabs(depth)) + (J.Quoted(Encoded(key)) + (if format then [COLON, TAB] else [COLON]))
  }

  /** A member as print_object writes it. */
  function MemberText(key: CString, v: Item, more: bool, format: bool, depth: nat): Bytes {
    KeyText(key, format, depth) + (J.Text(Layout(v, format, depth)) + Ending(more, format))
  }

  function MembersText(fields: Fields, format: bool, depth: nat): Bytes {
    match fields
    case NoFields => []
    case Field(key, v, rest) => MemberText(key, v, rest.Field?, format, depth) + MembersText(rest, format, depth)
  }

  lemma MemberStep(fields: Fields, format: bool, depth: nat)
    requires fields.Field?
    ensures MembersText(fields, format, depth) ==
      MemberText(fields.key, fields.value, fields.rest.Field?, format, depth) + MembersText(fields.rest, format, depth)
  {
  }

  lemma NoMember(format: bool, depth: nat)
    ensures MembersText(NoFields, format, depth) == []
  {
  }

  lemma QuotedLength(body: Bytes)
    ensures |J.Quoted(body)| == |body| + 2
  {
  }

  lemma Assembled(start: Bytes, a: Bytes, b: Bytes, c: Bytes)
    ensures ((start + a) + b) + c == start + (a + (b + c))
  {
  }

  lemma Join(before: Bytes, a: Bytes, b: Bytes, c: Bytes)
    ensures before + a + b + c == before + (a + (b + c))
    ensures before + b + c == before + ([] + (b + c))
  {
  }

  /** Member by member, the printer writes the layout of an object. */
  lemma ObjectText(fields: Fields, format: bool, depth: nat)
    ensures J.Text(Layout(Object(fields), format, depth)) ==
      (if format then [LBRACE, LF] else [LBRACE])
        + (MembersText(fields, format, depth + 1) + (If(format, Tabs(depth)) + [RBRACE]))
  {
    hide Tabs, J.MembersText;
    var ms := J.MembersText(FieldsLayout(fields, format, depth + 1));
    if fields.NoFields? {
      assert ms == [] by { NoMembersText(format, depth + 1); }
      ObjectParts(format, If(format, Tabs(depth)), [], [], If(format, Tabs(depth)), [RBRACE]);
    } else {
      MembersByLine(fields, format, depth + 1);
      ObjectParts(format, If(format, Tabs(depth + 1)), ms, MembersText(fields, format, depth + 1),
        If(format, Tabs(depth)), [RBRACE]);
    }
  }

  lemma NoMembersText(format: bool, depth: nat)
    requires depth > 0
    ensures J.MembersText(FieldsLayout(NoFields, format, depth)) == []
  {
  }

  lemma ObjectParts(format: bool, inner: Bytes, ms: Bytes, lines: Bytes, outer: Bytes, close: Bytes)
    requires inner + ms == lines + outer && (!format ==> inner == [])
    ensures [LBRACE] + (If(format, [LF] + inner) + (ms + close))
      == (if format then [LBRACE, LF] else [LBRACE]) + (lines + (outer + close))
  {
    assert inner + (ms + close) == (inner + ms) + close;
    assert (lines + outer) + close == lines + (outer + close);
    if format {
      assert [LBRACE] + (([LF] + inner) + (ms + close)) == [LBRACE, LF] + (inner + (ms + close));
    } else {
      assert [] + (ms + close) == ms + close;
    }
  }

  lemma {:induction false} MembersByLine(fields: Fields, format: bool, depth: nat)
    requires fields.Field? && depth > 0
    ensures If(format, Tabs(depth)) + J.MembersText(FieldsLayout(fields, format, depth))
      == MembersText(fields, format, depth) + If(format, Tabs(depth - 1))
    decreases fields
  {
    hide Tabs, Layout, Encoded, J.Text;
    var v := J.Text(Layout(fields.value, format, depth));
    var q := J.Quoted(Encoded(fields.key));
    var rest := J.MembersText(FieldsLayout(fields.rest, format, depth));
    if fields.rest.NoFields? {
      LastLine(format, Tabs(depth), q, v, Tabs(depth - 1));
    } else {
      MembersByLine(fields.rest, format, depth);
      InnerLine(format, Tabs(depth), q, v, rest, MembersText(fields.rest, format, depth), If(format, Tabs(depth - 1)));
    }
  }

  lemma LastLine(format: bool, tabs: Bytes, q: Bytes, v: Bytes, outer: Bytes)
    ensures If(format, tabs) + (q + ([] + ([COLON] + (If(format, [TAB]) + (v + (If(format, [LF] + outer) + []))))))
      == ((If(format, tabs) + (q + (if format then [COLON, TAB] else [COLON]))) + (v + Ending(false, format)))
        + [] + If(format, outer)
  {
    if format {
      Colon([TAB], tabs, q, v, ([LF] + outer) + []);
      assert v + (([LF] + outer) + []) == (v + [LF]) + outer;
      assert [COLON] + [TAB] == [COLON, TAB];
      Group(tabs + (q + [COLON, TAB]), v + [LF], [], outer);
    } else {
      Colon([], [], q, v, [] + []);
      assert [COLON] + [] == [COLON];
    }
  }

  lemma Group(a: Bytes, b: Bytes, c: Bytes, d: Bytes)
    ensures a + (b + d) == (a + b) + [] + d && a + (b + c + d) == (a + b) + c + d
  {
  }

  lemma Colon(space: Bytes, tabs: Bytes, q: Bytes, v: Bytes, tail: Bytes)
    ensures tabs + (q + ([] + ([COLON] + (space + (v + tail))))) == (tabs + (q + ([COLON] + space))) + (v + tail)
  {
    assert [] + ([COLON] + (space + (v + tail))) == ([COLON] + space) + (v + tail);
    assert q + (([COLON] + space) + (v + tail)) == (q + ([COLON] + space)) + (v + tail);
  }

  lemma InnerLine(format: bool, tabs: Bytes, q: Bytes, v: Bytes, rest: Bytes, lines: Bytes, outer: Bytes)
    requires If(format, tabs) + rest == lines + outer
    ensures If(format, tabs)
      + (q + ([] + ([COLON] + (If(format, [TAB]) + (v + ([] + ([COMMA] + (If(format, [LF] + tabs) + rest))))))))
      == ((If(format, tabs) + (q + (if format then [COLON, TAB] else [COLON]))) + (v + Ending(true, format)))
        + lines + outer
  {
    var tail := [] + ([COMMA] + (If(format, [LF] + tabs) + rest));
    Colon(If(format, [TAB]), If(format, tabs), q, v, tail);
    if format {
      assert [COLON] + [TAB] == [COLON, TAB];
      assert tail == [COMMA, LF] + (tabs + rest);
      assert v + ([COMMA, LF] + (lines + outer)) == (v + [COMMA, LF]) + lines + outer;
      Group(tabs + (q + [COLON, TAB]), v + [COMMA, LF], lines, outer);
    } else {
      assert [COLON] + [] == [COLON];
      assert tail == [COMMA] + (lines + outer) by { assert [] + rest == rest; }
      assert v + ([COMMA] + (lines + outer)) == (v + [COMMA]) + lines + outer;
      Group([] + (q + [COLON]), v + [COMMA], lines, outer);
    }
  }

  lemma KeyNoNul(s: CString)
    ensures NoNul(J.Quoted(Encoded(s)))
  {
    hide Encoded, J.BodyOk;
    EncodedBody(s);
    BodyNoNul(Encoded(s));
  }

  lemma NoElements(format: bool, depth: nat)
    ensures ElementsText(NoItems, format, depth) == []
  {
  }

  lemma ElementStep(items: Items, format: bool, depth: nat)
    requires items.Cons?
    ensures ElementsText(items, format, depth) ==
      ElementText(items.head, items.tail.Cons?, format, depth) + ElementsText(items.tail, format, depth)
  {
    var rest := J.ElemsText(ItemsLayout(items.tail, format, depth));
    Spread(J.Text(Layout(items.head, format, depth)), [COMMA], If(format, [SPACE]), rest);
    NoElements(format, depth);
    assert [COMMA] + [SPACE] == [COMMA, SPACE] && [COMMA] + [] == [COMMA];
  }

  lemma Spread(a: Bytes, b: Bytes, c: Bytes, d: Bytes)
    ensures a + ([] + (b + (c + d))) == a + (b + c) + d && a + ([] + []) == a + [] + []
  {
  }

  lemma Shift(before: Bytes, a: Bytes, b: Bytes)
    ensures before + (a + b) == (before + a) + b
  {
  }

  /** What the printer writes holds no NUL, whatever the item. */
  lemma {:induction false} LayoutNoNul(item: Item, format: bool, depth: nat)
    ensures NoNul(J.Text(Layout(item, format, depth)))
    decreases item
  {
    hide Encoded, Tabs, J.ElemsText, J.MembersText;
    match item
    case String(s) =>
      KeyNoNul(s);
    case Array(items) =>
      ItemsNoNul(items, format, depth + 1);
      InBrackets(LBRACKET, [], J.ElemsText(ItemsLayout(items, format, depth + 1)), RBRACKET);
    case Object(fields) =>
      FieldsNoNul(fields, format, depth + 1);
      var lead := If(format, [LF] + Tabs(if fields.NoFields? then depth else depth + 1));
      InBrackets(LBRACE, lead, J.MembersText(FieldsLayout(fields, format, depth + 1)), RBRACE);
    case _ =>
  }

  lemma InBrackets(left: Byte, lead: Bytes, body: Bytes, right: Byte)
    requires NoNul(lead) && NoNul(body) && left != NUL && right != NUL
    ensures NoNul([left] + (lead + (body + [right])))
  {
  }

  lemma {:induction false} ItemsNoNul(items: Items, format: bool, depth: nat)
    ensures NoNul(J.ElemsText(ItemsLayout(items, format, depth)))
    decreases items
  {
    hide Layout;
    if items.Cons? {
      LayoutNoNul(items.head, format, depth);
      ItemsNoNul(items.tail, format, depth);
    }
  }

  lemma {:induction false} FieldsNoNul(fields: Fields, format: bool, depth: nat)
    requires depth > 0
    ensures NoNul(J.MembersText(FieldsLayout(fields, format, depth)))
    decreases fields
  {
    hide Layout, Encoded, J.BodyOk;
    if fields.Field? {
      var ms := FieldsLayout(fields, format, depth);
      EncodedBody(fields.key);
      BodyNoNul(Encoded(fields.key));
      LayoutNoNul(fields.value, format, depth);
      FieldsNoNul(fields.rest, format, depth);
      MemberNoNul(J.Quoted(ms.key), ms.preColon, ms.postColon, J.Text(ms.v),
        ms.post, ms.sep, J.MembersText(ms.rest), ms.rest.NoMembers?);
    }
  }

  // ----- the buffer read back -----

  lemma {:induction false} BeforeNul(buffer: Bytes, s: Bytes)
    requires NoNul(s) && |s| < |buffer| && s <= buffer && buffer[|s|] == NUL
    ensures Before(buffer) == s
    decreases |s|
  {
    if s != [] {
      assert s[0] == buffer[0] && s[1..] <= buffer[1..] && buffer[1..][|s| - 1] == NUL;
      BeforeNul(buffer[1..], s[1..]);
    }
  }

  /** Whatever stands behind the terminator, parsing a buffer that an item has been printed into gives the item back. */
  lemma BufferParses(buffer: Bytes, item: Item, format: bool)
    requires Plain(item) && Nesting(item) <= NESTING_LIMIT
    requires |Printed(item, format)| < |buffer| && Printed(item, format) <= buffer
      && buffer[|Printed(item, format)|] == NUL
    ensures ParseWithOpts(Before(buffer), true) == (Some(item), |Printed(item, format)|)
  {
    hide Printed, Plain, Nesting, ParseWithOpts;
    RoundTrip(item, format);
    BeforeNul(buffer, Printed(item, format));
  }

  // ----- what cannot be printed -----

  /** A node that print_value refuses: an invalid one, a number of more than 25 bytes, raw text that is missing. */
  predicate Refused(u: Tree) {
    || u.kind.InvalidKind? || (u.kind.NumberKind? && |u.number| > 25) || (u.kind.RawKind? && u.value == NULL)
  }

  /** A node of the tree, or of a container in it. */
  predicate Part(u: Tree, t: Tree)
    decreases t, 0
  {
    u == t || ((t.kind.ArrayKind? || t.kind.ObjectKind?) && PartIn(u, t.children))
  }

  predicate PartIn(u: Tree, f: Forest)
    decreases f, 1
  {
    f.Sibling? && (Part(u, f.head) || PartIn(u, f.tail))
  }

  /** A tree can be printed exactly if no node of it is refused. */
  lemma {:induction false} PrintableParts(t: Tree)
    ensures Printable(t) <==> forall u: Tree :: Part(u, t) ==> !Refused(u)
    decreases t, 0
  {
    assert Part(t, t);
    if t.kind.ArrayKind? || t.kind.ObjectKind? {
      PrintablePartsIn(t.children);
      assert forall u: Tree :: Part(u, t) <==> u == t || PartIn(u, t.children);
    } else {
      assert forall u: Tree :: Part(u, t) <==> u == t;
      assert Printable(t) <==> !Refused(t);
    }
  }

  lemma {:induction false} PrintablePartsIn(f: Forest)
    ensures AllPrintable(f) <==> forall u: Tree :: PartIn(u, f) ==> !Refused(u)
    decreases f, 1
  {
    hide Printable, Part, Refused;
    if f.Sibling? {
      PrintableParts(f.head);
      PrintablePartsIn(f.tail);
      assert forall u: Tree :: Part(u, f.head) ==> PartIn(u, f);
      assert forall u: Tree :: PartIn(u, f.tail) ==> PartIn(u, f);
    }
  }
}
