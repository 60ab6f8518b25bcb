/**
 * The recursive descent parser over memory: with allocations that may be refused at any time, it returns
 * exactly the item that the text denotes or leaves memory as it was.
 */
module CJsonParser {
  import opened Ascii
  import opened CJsonItem
  import opened CJsonMemory
  import P = CJsonParse
  import S = CJsonString
  import E = CJsonEdit

  /** A chain of new items that has been built on top of an older memory. */
  predicate Built(start: Cells, cells: Cells, f: Forest) {
    && Chain(cells, f, NULL, NULL, false) && Apart(f) && Owned(f) !! start.Keys
    && cells.Keys == start.Keys + Owned(f) && forall a | a in start :: cells[a] == start[a]
  }

  /** An item that parse_value may fill: it has no value and no children yet, and owns its key. */
  predicate Bare(t: Tree) {
    t.value == NULL && t.children.Nil? && !t.isReference && !t.constKey
  }

  /** A filled item in the place of a bare one. */
  predicate Fills(b: Tree, t: Tree) {
    t.at == b.at && t.key == b.key && t.name == b.name && !t.isReference && !t.constKey
  }

  /**
   * From memory `c`, where the bare item stands between two siblings, to memory `d`, where it is filled: what
   * it owns besides is new, and nothing else has changed.
   */
  predicate Filled(c: Cells, d: Cells, b: Tree, t: Tree, prev: Addr, next: Addr) {
    && Fills(b, t) && Own(t) && TreeAt(d, t, prev, next, false) && TreeApart(t)
    && TreeArea(b, false) <= TreeArea(t, false) && TreeArea(t, false) * c.Keys == TreeArea(b, false)
    && d.Keys == c.Keys + TreeArea(t, false) && forall a | a in c && a != b.at :: d[a] == c[a]
  }

  function Blank(a: Addr): Tree {
    Tree(a, InvalidKind, false, false, [], NULL, [], NULL, [], Nil)
  }

  lemma NothingBuilt(c: Cells)
    ensures Built(c, c, Nil)
  {
  }

  /** The last item of a chain is filled. */
  lemma Refilled(start: Cells, c: Cells, d: Cells, f: Forest, b: Tree, t: Tree)
    requires Built(start, c, Cat(f, One(b))) && Filled(c, d, b, t, LastOr(f, NULL), NULL)
    ensures Built(start, d, Cat(f, One(t)))
  {
    hide TreeAt, TreeApart, TreeArea, Chain, Apart, Area;
    ChainCat(c, f, One(b), NULL, NULL, false);
    E.Joined(f, One(b), NULL);
    E.Joined(f, One(t), NULL);
    E.OneIs(c, b, LastOr(f, NULL), NULL);
    E.OneIs(d, t, LastOr(f, NULL), NULL);
    E.NodeIn(b);
    AreaLive(c, f, NULL, b.at, false);
    Frame(c, d, f, NULL, b.at, false);
    ChainCat(d, f, One(t), NULL, NULL, false);
  }

  /** A chain that has been built and is deleted again. */
  lemma Unbuilt(start: Cells, c: Cells, f: Forest)
    requires Built(start, c, f)
    ensures c - Owned(f) == start
  {
    hide Chain, Apart, Area;
  }

  function CatItems(a: Items, b: Items): Items {
    match a
    case NoItems => b
    case Cons(v, rest) => Cons(v, CatItems(rest, b))
  }

  function CatFields(a: Fields, b: Fields): Fields {
    match a
    case NoFields => b
    case Field(key, v, rest) => Field(key, v, CatFields(rest, b))
  }

  /** The outcome for a list whose first elements have been read already. */
  function Prepend(a: Items, r: P.Outcome<Items>): P.Outcome<Items> {
    match r
    case Fail(at, d) => P.Fail(at, d)
    case Ok(b, at) => P.Ok(CatItems(a, b), at)
  }

  function PrependFields(a: Fields, r: P.Outcome<Fields>): P.Outcome<Fields> {
    match r
    case Fail(at, d) => P.Fail(at, d)
    case Ok(b, at) => P.Ok(CatFields(a, b), at)
  }

  lemma {:induction false} OneMoreItem(f: Forest, t: Tree, b: Items)
    ensures CatItems(ForestItems(Cat(f, One(t))), b) == CatItems(ForestItems(f), Cons(TreeItem(t), b))
    decreases f
  {
    hide TreeItem;
    if f.Nil? {
      assert ForestItems(One(t)) == Cons(TreeItem(t), NoItems);
    } else {
      OneMoreItem(f.tail, t, b);
    }
  }

  lemma {:induction false} OneMoreField(f: Forest, t: Tree, b: Fields)
    ensures CatFields(ForestFields(Cat(f, One(t))), b) == CatFields(ForestFields(f), Field(t.name, TreeItem(t), b))
    decreases f
  {
    hide TreeItem;
    if f.Nil? {
      assert ForestFields(One(t)) == Field(t.name, TreeItem(t), NoFields);
    } else {
      OneMoreField(f.tail, t, b);
    }
  }

  lemma {:induction false} CatNoItems(a: Items)
    ensures CatItems(a, NoItems) == a
    decreases a
  {
    if a.Cons? {
      CatNoItems(a.tail);
    }
  }

  lemma {:induction false} CatNoFields(a: Fields)
    ensures CatFields(a, NoFields) == a
    decreases a
  {
    if a.Field? {
      CatNoFields(a.rest);
    }
  }

  /** How a parse method must end, given what the text denotes. */
  predicate Ends<T>(ok: bool, spec: P.Outcome<T>, refused: bool, offset: nat, depth: nat, depth0: nat) {
    && (ok <==> spec.Ok? && !refused)
    && (ok ==> offset == spec.offset && depth == depth0)
    && (!ok && !refused ==> offset == spec.offset && depth == spec.depth)
  }

  class ParseBuffer {
    const content: Bytes
    const mem: Memory
    var offset: nat
    var depth: nat

    constructor (text: CString, mem: Memory)
      ensures content == text + [NUL] && this.mem == mem && offset == 0 && depth == 0
    {
      content, this.mem, offset, depth := text + [NUL], mem, 0, 0;
    }

    /** The offset never passes the buffer, and the depth never passes the limit. */
    predicate Valid()
      reads this
    {
      P.Terminated(content) && offset <= |content| && depth <= NESTING_LIMIT
    }

    /** buffer_skip_whitespace */
    method SkipWhitespace()
      requires Valid() && offset < |content|
      modifies this`offset
      ensures Valid() && offset == P.Skip(content, old(offset))
    {
      while offset < |content| && content[offset] <= 32
        invariant old(offset) <= offset <= |content| && P.SkipRun(content, offset) == P.SkipRun(content, old(offset))
      {
        offset := offset + 1;
      }
      if offset == |content| {
        offset := offset - 1;
      }
    }

    /** parse_number */
    method ParseNumber(item: Addr, ghost b: Tree, ghost prev: Addr, ghost next: Addr) returns (ok: bool, ghost t: Tree)
      requires Valid() && offset < |content|
      requires item == b.at && Bare(b) && TreeAt(mem.cells, b, prev, next, false) && TreeApart(b)
      modifies this`offset, mem`cells
      ensures Valid() && Ends(ok, P.ParseNumber(content, old(offset), depth), false, offset, depth, depth)
      ensures !ok ==> mem.cells == old(mem.cells)
      ensures ok ==> Filled(old(mem.cells), mem.cells, b, t, prev, next)
      ensures ok ==> TreeItem(t) == P.ParseNumber(content, old(offset), depth).value
    {
      hide StrtodLength, Filled, TreeAt, TreeApart, IsNumberByte;
      t := b;
      var length := ScanNumber();
      ok := length > 0;
      if ok {
        var number: CString := content[offset..offset + length];
        NodeIs(mem.cells, b, prev, next, false);
        mem.cells := mem.cells[item := mem.cells[item].(kind := NumberKind, number := number)];
        t := b.(kind := NumberKind, number := number);
        Changed(old(mem.cells), mem.cells, b, t, prev, next);
        offset := offset + length;
      }
    }

    /** How many bytes strtod takes of the number bytes at the offset, copied into the temporary buffer. */
    method ScanNumber() returns (length: nat)
      requires Valid() && offset < |content|
      ensures length == 0 <==> P.ParseNumber(content, offset, depth).Fail?
      ensures length > 0 ==>
        offset + length < |content| && (forall k :: offset <= k < offset + length ==> content[k] != NUL)
      ensures length > 0 ==>
        P.ParseNumber(content, offset, depth) == P.Ok(Number(content[offset..offset + length]), offset + length)
    {
      hide StrtodLength, P.ParseNumber, P.Terminated, P.NumberSpan, IsNumberByte;
      var i := 0;
      while i < NUMBER_LIMIT && offset + i < |content| && IsNumberByte(content[offset + i])
        invariant i <= NUMBER_LIMIT && offset + i <= |content|
        invariant P.NumberSpan(content, offset, NUMBER_LIMIT) == i + P.NumberSpan(content, offset + i, NUMBER_LIMIT - i)
      {
        SpanStep(content, offset + i, NUMBER_LIMIT - i);
        i := i + 1;
      }
      SpanStep(content, offset + i, NUMBER_LIMIT - i);
      Scanned(content, offset, depth);
      length := StrtodLength(content[offset..offset + i]);
    }

    /** The decoded string stands in its block and becomes the value of the item. */
    method SetString(item: Addr, block: Addr, text: CString, ghost c: Cells, ghost b: Tree, ghost prev: Addr,
        ghost next: Addr)
        returns (ghost t: Tree)
      requires item == b.at && Bare(b) && TreeAt(c, b, prev, next, false) && TreeApart(b)
      requires block != NULL && block !in c && mem.cells == c[block := Block([])]
      modifies mem`cells
      ensures t == b.(kind := StringKind, value := block, text := text)
      ensures Filled(c, mem.cells, b, t, prev, next)
    {
      hide Filled, TreeAt, TreeApart;
      NodeIs(c, b, prev, next, false);
      mem.cells := mem.cells[block := Block(text)];
      mem.cells := mem.cells[item := mem.cells[item].(kind := StringKind, value := block)];
      t := b.(kind := StringKind, value := block, text := text);
      GivenText(c, mem.cells, b, t, prev, next);
    }

    /** parse_string */
    method ParseString(item: Addr, ghost b: Tree, ghost prev: Addr, ghost next: Addr, ghost since: nat)
        returns (ok: bool, ghost t: Tree)
      requires Valid() && offset < |content| && mem.Fine(since)
      requires item == b.at && Bare(b) && TreeAt(mem.cells, b, prev, next, false) && TreeApart(b)
      modifies this`offset, mem
      ensures mem.asked >= old(mem.asked)
      ensures Valid() && Ends(ok, P.ParseString(content, old(offset), depth), !mem.Fine(since), offset, depth, depth)
      ensures !ok ==> mem.cells == old(mem.cells)
      ensures ok ==> Filled(old(mem.cells), mem.cells, b, t, prev, next) && t.value != NULL
      ensures ok ==>
        t == b.(kind := StringKind, value := t.value, text := P.ParseString(content, old(offset), depth).value)
    {
      hide Filled, TreeAt, TreeApart, Decode, BodyEnd;
      t := b;
      ok := false;
      var start := offset + 1;
      if content[offset] != QUOTE {
        offset := start;
        return;
      }
      var found, end, skipped := S.FindEnd(content, start);
      if !found {
        offset := start;
        return;
      }
      S.PaidFits(content, start, start, end, 0) by { S.SkipsNone(content, start); }
      var allocationLength := end - (start - 1) - skipped;
      var block := mem.Allocate(Block([]));
      if block == NULL {
        offset := start;
        return;
      }
      var output := new Byte[allocationLength + 1];
      var decoded, written, p := S.DecodeBody(content, start, end, output);
      if !decoded {
        mem.Free(block);
        offset := p;
        return;
      }
      t := SetString(item, block, Before(output[..written]), old(mem.cells), b, prev, next);
      offset := end + 1;
      ok := true;
    }

    /** A literal name has been read. */
    method SetKind(item: Addr, kind: Kind, length: nat, ghost b: Tree, ghost prev: Addr, ghost next: Addr)
        returns (ghost t: Tree)
      requires Valid() && offset + length <= |content| && !kind.StringKind?
      requires item == b.at && Bare(b) && TreeAt(mem.cells, b, prev, next, false) && TreeApart(b)
      modifies this`offset, mem`cells
      ensures Valid() && offset == old(offset) + length
      ensures t == b.(kind := kind) && Filled(old(mem.cells), mem.cells, b, t, prev, next)
    {
      hide Filled, TreeAt, TreeApart;
      NodeIs(mem.cells, b, prev, next, false);
      mem.cells := mem.cells[item := mem.cells[item].(kind := kind)];
      t := b.(kind := kind);
      Changed(old(mem.cells), mem.cells, b, t, prev, next);
      offset := offset + length;
    }

    /** parse_value */
    method ParseValue(item: Addr, ghost b: Tree, ghost prev: Addr, ghost next: Addr, ghost since: nat)
        returns (ok: bool, ghost t: Tree)
      requires Valid() && offset < |content| && mem.Fine(since)
      requires item == b.at && Bare(b) && TreeAt(mem.cells, b, prev, next, false) && TreeApart(b)
      modifies this, mem
      ensures mem.asked >= old(mem.asked)
      ensures Valid()
      ensures Ends(ok, P.ParseValue(content, old(offset), old(depth)), !mem.Fine(since), offset, depth, old(depth))
      ensures !ok ==> mem.cells == old(mem.cells)
      ensures ok ==> Filled(old(mem.cells), mem.cells, b, t, prev, next)
      ensures ok ==> TreeItem(t) == P.ParseValue(content, old(offset), old(depth)).value
      decreases |content| - offset, 2
    {
      hide Filled, TreeAt, TreeApart, P.ParseArray, P.ParseObject, P.ParseString, P.ParseNumber, P.Terminated;
      ok := true;
      if At(content, offset, NULL_TEXT) {
        t := SetKind(item, NullKind, 4, b, prev, next);
      } else if At(content, offset, FALSE_TEXT) {
        t := SetKind(item, FalseKind, 5, b, prev, next);
      } else if At(content, offset, TRUE_TEXT) {
        t := SetKind(item, TrueKind, 4, b, prev, next);
      } else if content[offset] == QUOTE {
        ok, t := ParseString(item, b, prev, next, since);
      } else if content[offset] == MINUS || IsDigit(content[offset]) {
        ok, t := ParseNumber(item, b, prev, next);
      } else if content[offset] == LBRACKET {
        ok, t := ParseArray(item, b, prev, next, since);
      } else if content[offset] == LBRACE {
        ok, t := ParseObject(item, b, prev, next, since);
      } else {
        ok, t := false, b;
      }
    }

    /** parse_array */
    method ParseArray(item: Addr, ghost b: Tree, ghost prev: Addr, ghost next: Addr, ghost since: nat)
        returns (ok: bool, ghost t: Tree)
      requires Valid() && offset < |content| && mem.Fine(since)
      requires item == b.at && Bare(b) && TreeAt(mem.cells, b, prev, next, false) && TreeApart(b)
      modifies this, mem
      ensures mem.asked >= old(mem.asked)
      ensures Valid()
      ensures Ends(ok, P.ParseArray(content, old(offset), old(depth)), !mem.Fine(since), offset, depth, old(depth))
      ensures !ok ==> mem.cells == old(mem.cells)
      ensures ok ==> Filled(old(mem.cells), mem.cells, b, t, prev, next)
      ensures ok ==> TreeItem(t) == P.ParseArray(content, old(offset), old(depth)).value
      decreases |content| - offset, 1
    {
      hide Filled, Own, TreeAt, TreeApart, TreeArea, P.Terminated, Built, P.ParseElems,
        P.ParseValue, P.Skip, TreeItem, ForestItems, Prepend;
      ghost var start, p0, d0 := mem.cells, offset, depth;
      t := b;
      ok := false;
      if depth >= NESTING_LIMIT {
        return;
      }
      depth := depth + 1;
      if content[offset] != LBRACKET {
        return;
      }
      BracketInside(content, offset);
      offset := offset + 1;
      SkipWhitespace();
      var head, current := NULL, NULL;
      ghost var f := Nil;
      NothingBuilt(start);
      if content[offset] != RBRACKET {
        P.SkipInside(content, p0 + 1);
        offset := offset - 1;
        ghost var whole := P.ParseElems(content, offset, depth);
        PrependNothing(whole);
        var more := true;
        while more
          invariant Valid() && p0 <= offset < |content| && depth == d0 + 1 && mem.Fine(since)
          invariant mem.asked >= old(mem.asked)
          invariant Built(start, mem.cells, f) && AllOwn(f) && head == First(f)
            && current == LastOr(f, NULL) && (!more ==> f.Sibling?)
          invariant more ==>
            offset + 1 < |content| && whole == Prepend(ForestItems(f), P.ParseElems(content, offset, depth))
          invariant !more ==>
            whole == if content[offset] == RBRACKET then P.Ok(ForestItems(f), offset) else P.Fail(offset, depth)
          decreases |content| - offset, more
        {
          var parsed;
          ghost var g, e, before := f, b, offset;
          parsed, head, current, g, e := ParseElement(start, head, current, f, since);
          if !parsed {
            ElementFailed(content, before, d0 + 1, f, whole);
            DeleteBuilt(head, start, g);
            return;
          }
          more := content[offset] == COMMA;
          ElementRead(content, before, depth, f, e, whole, offset);
          f := g;
        }
        if content[offset] != RBRACKET {
          DeleteBuilt(head, start, f);
          return;
        }
      }
      depth := depth - 1;
      NodeIs(start, b, prev, next, false);
      ghost var built := mem.cells;
      BuiltOn(start, built, f, item);
      mem.cells := mem.cells[item := mem.cells[item].(kind := ArrayKind, child := head)];
      t := b.(kind := ArrayKind, children := f);
      ContainerItem(t);
      GivenChildren(start, built, mem.cells, b, t, prev, next);
      offset := offset + 1;
      ok := true;
    }

    /** cJSON_Delete of the items that a failed parse has built. */
    method DeleteBuilt(head: Addr, ghost start: Cells, ghost f: Forest)
      requires Built(start, mem.cells, f) && head == First(f)
      modifies mem`cells
      ensures mem.cells == start
    {
      hide Chain, Apart, Area;
      Unbuilt(start, mem.cells, f);
      if head != NULL {
        mem.Delete(head, f, NULL);
      } else {
        HeadIs(mem.cells, f);
      }
    }

    /** The new item at the end of the list under construction. */
    method AppendBlank(ghost start: Cells, head: Addr, current: Addr, ghost f: Forest, ghost since: nat)
      returns (item: Addr, newHead: Addr)
      requires Built(start, mem.cells, f) && head == First(f) && current == LastOr(f, NULL) && mem.Fine(since)
      modifies mem
      ensures (item == NULL <==> !mem.Fine(since)) && mem.asked >= old(mem.asked)
      ensures item == NULL ==> mem.cells == old(mem.cells) && newHead == head
      ensures item != NULL ==>
        Built(start, mem.cells, Cat(f, One(Blank(item)))) && newHead == First(Cat(f, One(Blank(item))))
    {
      hide Chain, Apart, Area, TreeAt, TreeApart, TreeArea;
      newHead := head;
      item := mem.Allocate(BLANK);
      if item == NULL {
        return;
      }
      ghost var c := mem.cells;
      HeadIs(old(mem.cells), f);
      FreshBlank(start, old(mem.cells), c, f, item);
      if head == NULL {
        newHead := item;
      } else {
        E.EndsIn(c, f, NULL, NULL);
        mem.cells := E.WithNext(mem.cells, current, item);
        mem.cells := E.WithPrev(mem.cells, item, current);
      }
      BlankLinked(start, old(mem.cells), c, mem.cells, f, item);
    }

    /** One round of the loop of parse_array: the elements so far and the new one, as far as it came. */
    method ParseElement(ghost start: Cells, head: Addr, current: Addr, ghost f: Forest, ghost since: nat)
        returns (ok: bool, newHead: Addr, item: Addr, ghost g: Forest, ghost t: Tree)
      requires Valid() && offset + 1 < |content| && mem.Fine(since)
      requires Built(start, mem.cells, f) && AllOwn(f) && head == First(f) && current == LastOr(f, NULL)
      modifies this, mem
      ensures mem.asked >= old(mem.asked)
      ensures Valid() && Built(start, mem.cells, g) && newHead == First(g)
      ensures P.ParseValue(content, P.Skip(content, old(offset) + 1), old(depth)).Ok? && mem.Fine(since) <==> ok
      ensures ok ==> g == Cat(f, One(t)) && AllOwn(g) && item == t.at == LastOr(g, NULL) && depth == old(depth)
      ensures ok ==> TreeItem(t) == P.ParseValue(content, P.Skip(content, old(offset) + 1), old(depth)).value
      ensures ok ==>
        offset == P.Skip(content, P.ParseValue(content, P.Skip(content, old(offset) + 1), old(depth)).offset)
      ensures ok ==> old(offset) < offset < |content|
      ensures !ok && mem.Fine(since) ==>
        offset == P.ParseValue(content, P.Skip(content, old(offset) + 1), old(depth)).offset
      ensures !ok && mem.Fine(since) ==>
        depth == P.ParseValue(content, P.Skip(content, old(offset) + 1), old(depth)).depth
      decreases |content| - (offset + 1), 3
    {
      hide Filled, Own, TreeAt, TreeApart, TreeArea, P.Terminated, P.ParseValue, Built, Cat, LastOr, P.Skip;
      ok, g, t := false, f, Blank(NULL);
      item, newHead := AppendBlank(start, head, current, f, since);
      if item == NULL {
        return;
      }
      ghost var c, b := mem.cells, Blank(item);
      LastTree(start, c, f, b);
      offset := offset + 1;
      SkipWhitespace();
      ok, t := ParseValue(item, b, LastOr(f, NULL), NULL, since);
      if !ok {
        g := Cat(f, One(b));
        return;
      }
      Refilled(start, c, mem.cells, f, b, t);
      FilledAt(c, mem.cells, b, t, LastOr(f, NULL), NULL);
      g := Cat(f, One(t));
      OwnCat(f, t);
      E.LastOfCat(f, One(t), NULL);
      FirstOfCat(f, b, t);
      SkipWhitespace();
    }

    /** parse_object */
    method ParseObject(item: Addr, ghost b: Tree, ghost prev: Addr, ghost next: Addr, ghost since: nat)
        returns (ok: bool, ghost t: Tree)
      requires Valid() && offset < |content| && mem.Fine(since)
      requires item == b.at && Bare(b) && TreeAt(mem.cells, b, prev, next, false) && TreeApart(b)
      modifies this, mem
      ensures mem.asked >= old(mem.asked)
      ensures Valid()
      ensures Ends(ok, P.ParseObject(content, old(offset), old(depth)), !mem.Fine(since), offset, depth, old(depth))
      ensures !ok ==> mem.cells == old(mem.cells)
      ensures ok ==> Filled(old(mem.cells), mem.cells, b, t, prev, next)
      ensures ok ==> TreeItem(t) == P.ParseObject(content, old(offset), old(depth)).value
      decreases |content| - offset, 1
    {
      hide Filled, Own, TreeAt, TreeApart, TreeArea, P.Terminated, Built, P.ParseFields,
        P.Skip, ReadMember, TreeItem, ForestFields, PrependFields;
      ghost var start, p0, d0 := mem.cells, offset, depth;
      t := b;
      ok := false;
      if depth >= NESTING_LIMIT {
        return;
      }
      depth := depth + 1;
      if content[offset] != LBRACE {
        return;
      }
      BracketInside(content, offset);
      offset := offset + 1;
      SkipWhitespace();
      var head, current := NULL, NULL;
      ghost var f := Nil;
      NothingBuilt(start);
      if content[offset] != RBRACE {
        P.SkipInside(content, p0 + 1);
        offset := offset - 1;
        ghost var whole := P.ParseFields(content, offset, depth);
        PrependNoFields(whole);
        var more := true;
        while more
          invariant Valid() && p0 <= offset < |content| && depth == d0 + 1 && mem.Fine(since)
          invariant mem.asked >= old(mem.asked)
          invariant Built(start, mem.cells, f) && AllOwn(f) && AllKeyed(f) && head == First(f)
            && current == LastOr(f, NULL) && (!more ==> f.Sibling?)
          invariant more ==>
            offset + 1 < |content| && whole == PrependFields(ForestFields(f), P.ParseFields(content, offset, depth))
          invariant !more ==>
            whole == if content[offset] == RBRACE then P.Ok(ForestFields(f), offset) else P.Fail(offset, depth)
          decreases |content| - offset, more
        {
          var parsed;
          ghost var g, e, before := f, b, offset;
          parsed, head, current, g, e := ParseMember(start, head, current, f, since);
          if !parsed {
            MemberFailed(content, before, d0 + 1, f, whole);
            DeleteBuilt(head, start, g);
            return;
          }
          more := content[offset] == COMMA;
          MemberRead(content, before, depth, f, e, whole, offset);
          KeyedCat(f, e);
          f := g;
        }
        if content[offset] != RBRACE {
          DeleteBuilt(head, start, f);
          return;
        }
      }
      depth := depth - 1;
      NodeIs(start, b, prev, next, false);
      ghost var built := mem.cells;
      BuiltOn(start, built, f, item);
      mem.cells := mem.cells[item := mem.cells[item].(kind := ObjectKind, child := head)];
      t := b.(kind := ObjectKind, children := f);
      ContainerItem(t);
      GivenChildren(start, built, mem.cells, b, t, prev, next);
      offset := offset + 1;
      ok := true;
    }

    /** One round of the loop of parse_object: the members so far and the new one, as far as it came. */
    method ParseMember(ghost start: Cells, head: Addr, current: Addr, ghost f: Forest, ghost since: nat)
        returns (ok: bool, newHead: Addr, item: Addr, ghost g: Forest, ghost t: Tree)
      requires Valid() && offset + 1 < |content| && mem.Fine(since)
      requires Built(start, mem.cells, f) && AllOwn(f) && head == First(f) && current == LastOr(f, NULL)
      modifies this, mem
      ensures mem.asked >= old(mem.asked)
      ensures Valid() && Built(start, mem.cells, g) && newHead == First(g)
      ensures ReadMember(content, old(offset), old(depth)).Ok? && mem.Fine(since) <==> ok
      ensures ok ==> g == Cat(f, One(t)) && AllOwn(g) && item == t.at == LastOr(g, NULL) && depth == old(depth)
      ensures ok ==> t.key != NULL
      ensures ok ==> (t.name, TreeItem(t)) == ReadMember(content, old(offset), old(depth)).value
      ensures ok ==> offset == P.Skip(content, ReadMember(content, old(offset), old(depth)).offset)
      ensures ok ==> old(offset) < offset < |content|
      ensures !ok && mem.Fine(since) ==> offset == ReadMember(content, old(offset), old(depth)).offset
      ensures !ok && mem.Fine(since) ==> depth == ReadMember(content, old(offset), old(depth)).depth
      decreases |content| - (offset + 1), 3
    {
      hide Filled, Own, TreeAt, TreeApart, TreeArea, P.Terminated, P.ParseValue, P.ParseString, Built, Cat, LastOr,
        P.Skip;
      ok, g, t := false, f, Blank(NULL);
      item, newHead := AppendBlank(start, head, current, f, since);
      if item == NULL {
        return;
      }
      ghost var c, b := mem.cells, Blank(item);
      LastTree(start, c, f, b);
      offset := offset + 1;
      SkipWhitespace();
      ghost var named;
      ok, named := ParseString(item, b, LastOr(f, NULL), NULL, since);
      if !ok {
        g := Cat(f, One(b));
        return;
      }
      Refilled(start, c, mem.cells, f, b, named);
      SkipWhitespace();
      ghost var keyed := named.(key := named.value, name := named.text, value := NULL, text := []);
      c := mem.cells;
      NamedNode(start, c, f, named);
      mem.cells := mem.cells[item := mem.cells[item].(key := mem.cells[item].value, value := NULL)];
      KeyMoved(start, c, mem.cells, f, named, keyed);
      FirstOfCat(f, b, keyed);
      ok, g := false, Cat(f, One(keyed));
      if content[offset] != COLON {
        return;
      }
      BracketInside(content, offset);
      offset := offset + 1;
      SkipWhitespace();
      LastTree(start, mem.cells, f, keyed);
      c := mem.cells;
      ok, t := ParseValue(item, keyed, LastOr(f, NULL), NULL, since);
      if !ok {
        return;
      }
      Refilled(start, c, mem.cells, f, keyed, t);
      FilledAt(c, mem.cells, keyed, t, LastOr(f, NULL), NULL);
      g := Cat(f, One(t));
      OwnCat(f, t);
      E.LastOfCat(f, One(t), NULL);
      FirstOfCat(f, b, t);
      SkipWhitespace();
    }
  }

  /**
   * cJSON_ParseWithOpts: it returns an item exactly if the text denotes one and all requests for memory are granted.
   * It is that item, can be read to its end, and owns all its parts, which are new: nothing is a reference, every
   * string has its bytes and every member its key. Without an item, memory is as it was.
   */
  method ParseWithOpts(text: CString, mem: Memory, requireTerminated: bool)
      returns (item: Addr, position: nat, ghost t: Tree)
    modifies mem
    ensures mem.asked >= old(mem.asked)
    ensures item != NULL <==> P.ParseWithOpts(text, requireTerminated).0.Some? && mem.Fine(old(mem.asked))
    ensures item != NULL ==> t.at == item && Built(old(mem.cells), mem.cells, One(t))
    ensures item != NULL ==> Own(t) && TreeAt(mem.cells, t, NULL, NULL, true)
    ensures item != NULL ==> P.ParseWithOpts(text, requireTerminated).0 == Some(TreeItem(t))
    ensures item == NULL ==> mem.cells == old(mem.cells)
    ensures position <= |text| && (mem.Fine(old(mem.asked)) ==> position == P.ParseWithOpts(text, requireTerminated).1)
  {
    hide Filled, Own, TreeAt, TreeApart, TreeArea, P.ParseValue, Built, P.SkipRun, At;
    ghost var start, since := mem.cells, mem.asked;
    var buffer := new ParseBuffer(text, mem);
    NothingBuilt(start);
    t := Blank(NULL);
    var head;
    item, head := buffer.AppendBlank(start, NULL, NULL, Nil, since);
    if item == NULL {
      return NULL, 0, t;
    }
    ghost var c := mem.cells;
    CatNilFirst(Blank(item));
    LastTree(start, c, Nil, Blank(item));
    if |buffer.content| > 4 && At(buffer.content, 0, P.BYTE_ORDER_MARK) {
      buffer.offset := 3;
    }
    buffer.SkipWhitespace();
    var ok;
    ok, t := buffer.ParseValue(item, Blank(item), NULL, NULL, since);
    position := buffer.offset;
    if !ok {
      buffer.DeleteBuilt(item, start, One(Blank(item)));
      return NULL, if position < |buffer.content| then position else |buffer.content| - 1, t;
    }
    Refilled(start, c, mem.cells, Nil, Blank(item), t);
    FilledAt(c, mem.cells, Blank(item), t, NULL, NULL);
    CatNilFirst(t);
    OwnReads(mem.cells, t, NULL, NULL);
    if requireTerminated {
      buffer.SkipWhitespace();
      position := buffer.offset;
      if buffer.content[buffer.offset] != NUL {
        buffer.DeleteBuilt(item, start, One(t));
        item := NULL;
      }
    }
  }

  lemma CatNilFirst(t: Tree)
    ensures Cat(Nil, One(t)) == One(t) && First(One(t)) == t.at && LastOr(Nil, NULL) == NULL
  {
  }

  /** One member of an object: its key and value, and where it ends. */
  function ReadMember(c: Bytes, p: nat, depth: nat): (r: P.Outcome<(CString, Item)>)
    requires p + 1 < |c| && P.Terminated(c) && depth <= NESTING_LIMIT
    ensures r.Ok? ==> p < r.offset < |c|
    ensures r.Fail? ==> r.offset <= |c| && depth <= r.depth <= NESTING_LIMIT
  {
    match P.ParseString(c, P.Skip(c, p + 1), depth)
    case Fail(at, d) => P.Fail(at, d)
    case Ok(key, afterKey) =>
      var colon := P.Skip(c, afterKey);
      if c[colon] != COLON then P.Fail(colon, depth)
      else
        match P.ParseValue(c, P.Skip(c, colon + 1), depth)
        case Fail(at, d) => P.Fail(at, d)
        case Ok(v, at) => P.Ok((key, v), at)
  }

  lemma MemberFailed(content: Bytes, p: nat, depth: nat, f: Forest, whole: P.Outcome<Fields>)
    requires P.Terminated(content) && p + 1 < |content| && depth <= NESTING_LIMIT
    requires whole == PrependFields(ForestFields(f), P.ParseFields(content, p, depth))
    ensures var r := ReadMember(content, p, depth); r.Fail? ==> whole == P.Fail(r.offset, r.depth)
  {
    hide P.ParseValue, P.ParseString, P.Skip, ForestFields;
  }

  /** What one more member means for the outcome of the whole object. */
  lemma MemberRead(content: Bytes, p: nat, depth: nat, f: Forest, t: Tree, whole: P.Outcome<Fields>, offset: nat)
    requires P.Terminated(content) && p + 1 < |content| && depth <= NESTING_LIMIT && offset < |content|
    requires whole == PrependFields(ForestFields(f), P.ParseFields(content, p, depth))
    requires var r := ReadMember(content, p, depth);
      r.Ok? && (t.name, TreeItem(t)) == r.value && offset == P.Skip(content, r.offset)
    ensures content[offset] == COMMA ==>
      offset + 1 < |content|
        && whole == PrependFields(ForestFields(Cat(f, One(t))), P.ParseFields(content, offset, depth))
    ensures content[offset] != COMMA ==>
      whole == if content[offset] == RBRACE then P.Ok(ForestFields(Cat(f, One(t))), offset) else P.Fail(offset, depth)
  {
    hide P.ParseValue, P.ParseString, TreeItem, P.Skip, ForestFields;
    if content[offset] == COMMA {
      BracketInside(content, offset);
      var r := P.ParseFields(content, offset, depth);
      if r.Ok? {
        OneMoreField(f, t, r.value);
      }
    } else {
      OneMoreField(f, t, NoFields);
      CatNoFields(ForestFields(Cat(f, One(t))));
    }
  }

  lemma PrependNoFields(r: P.Outcome<Fields>)
    ensures ForestFields(Nil) == NoFields && PrependFields(ForestFields(Nil), r) == r
  {
  }

  lemma NamedNode(start: Cells, c: Cells, f: Forest, t: Tree)
    requires Built(start, c, Cat(f, One(t)))
    ensures NodeAt(c, t, LastOr(f, NULL), NULL)
  {
    LastTree(start, c, f, t);
  }

  /** The string that has been parsed becomes the key of the item. */
  lemma KeyMoved(start: Cells, c: Cells, d: Cells, f: Forest, t: Tree, u: Tree)
    requires Built(start, c, Cat(f, One(t))) && t.value != NULL && t.key == NULL && t.children.Nil? && !t.isReference
    requires !t.constKey
    requires u == t.(key := t.value, name := t.text, value := NULL, text := [])
    requires t.at in c && c[t.at].Node? && d == c[t.at := c[t.at].(key := t.value, value := NULL)]
    ensures Built(start, d, Cat(f, One(u)))
  {
    LastTree(start, c, f, t);
    MovedTree(c, d, t, u, LastOr(f, NULL));
    hide TreeAt, TreeApart, TreeArea, Chain, Apart, Area;
    ChainCat(c, f, One(t), NULL, NULL, false);
    E.Joined(f, One(t), NULL);
    E.Joined(f, One(u), NULL);
    E.OneIs(c, t, LastOr(f, NULL), NULL);
    E.OneIs(d, u, LastOr(f, NULL), NULL);
    E.NodeIn(t);
    AreaLive(c, f, NULL, t.at, false);
    Frame(c, d, f, NULL, t.at, false);
    ChainCat(d, f, One(u), NULL, NULL, false);
  }

  lemma MovedTree(c: Cells, d: Cells, t: Tree, u: Tree, prev: Addr)
    requires TreeAt(c, t, prev, NULL, false) && TreeApart(t)
    requires t.value != NULL && t.key == NULL && t.children.Nil? && !t.isReference && !t.constKey
    requires u == t.(key := t.value, name := t.text, value := NULL, text := [])
    requires t.at in c && c[t.at].Node? && d == c[t.at := c[t.at].(key := t.value, value := NULL)]
    ensures TreeAt(d, u, prev, NULL, false) && TreeApart(u) && TreeArea(u, false) == TreeArea(t, false)
  {
  }

  lemma FilledAt(c: Cells, d: Cells, b: Tree, t: Tree, prev: Addr, next: Addr)
    requires Filled(c, d, b, t, prev, next)
    ensures t.at == b.at && t.name == b.name && t.key == b.key && LastOr(One(t), prev) == t.at
    ensures Own(t) && TreeAt(d, t, prev, next, false)
  {
  }

  lemma FirstOfCat(f: Forest, b: Tree, t: Tree)
    requires t.at == b.at
    ensures First(Cat(f, One(b))) == First(Cat(f, One(t)))
  {
  }

  /** The last tree of a chain that has been built. */
  lemma LastTree(start: Cells, c: Cells, f: Forest, b: Tree)
    requires Built(start, c, Cat(f, One(b)))
    ensures TreeAt(c, b, LastOr(f, NULL), NULL, false) && TreeApart(b)
  {
    hide TreeAt, TreeApart, TreeArea;
    ChainCat(c, f, One(b), NULL, NULL, false);
    E.Joined(f, One(b), NULL);
    E.OneIs(c, b, LastOr(f, NULL), NULL);
  }

  /** A new blank item behind a chain. */
  lemma BlankLinked(start: Cells, c0: Cells, c: Cells, d: Cells, f: Forest, item: Addr)
    requires Built(start, c0, f) && item != NULL && item !in c0 && c == c0[item := BLANK]
    requires Chain(c, f, NULL, NULL, false) && TreeAt(c, Blank(item), NULL, NULL, false) && TreeApart(Blank(item))
    requires TreeArea(Blank(item), false) == {item}
    requires f.Nil? ==> d == c
    requires f.Sibling? ==> LastOr(f, NULL) in c && c[LastOr(f, NULL)].Node? && item in c && c[item].Node?
    requires f.Sibling? ==> d == E.WithPrev(E.WithNext(c, LastOr(f, NULL), item), item, LastOr(f, NULL))
    ensures Built(start, d, Cat(f, One(Blank(item)))) && First(Cat(f, One(Blank(item)))) == FirstOr(f, item)
  {
    hide TreeAt, TreeApart, TreeArea, Chain, Apart, Area;
    var b := Blank(item);
    E.OneIs(c, b, NULL, NULL);
    E.Joined(f, One(b), NULL);
    if f.Sibling? {
      E.EndsIn(c, f, NULL, NULL);
      E.EndsIn(c, One(b), NULL, NULL);
      E.Relink(c, d, f, NULL, NULL, NULL, item);
      E.Relink(c, d, One(b), NULL, NULL, LastOr(f, NULL), NULL);
    }
    ChainCat(d, f, One(b), NULL, NULL, false);
  }

  /** A list that has been built becomes the children of an older item. */
  lemma GivenChildren(start: Cells, c: Cells, d: Cells, b: Tree, t: Tree, prev: Addr, next: Addr)
    requires TreeAt(start, b, prev, next, false) && TreeApart(b) && Bare(b) && Built(start, c, t.children)
    requires b.at in c && c[b.at].Node?
    requires t == b.(kind := t.kind, children := t.children) && AllOwn(t.children) && !t.kind.StringKind?
    requires t.kind.ObjectKind? ==> AllKeyed(t.children)
    requires d == c[b.at := c[b.at].(kind := t.kind, child := First(t.children))]
    ensures Filled(start, d, b, t, prev, next)
  {
    hide Chain, Apart, Area;
    TreeLive(start, b, prev, next, false);
    AreaLive(c, t.children, NULL, NULL, false);
    Frame(c, d, t.children, NULL, NULL, false);
    NilArea();
  }

  lemma BuiltOn(start: Cells, c: Cells, f: Forest, a: Addr)
    requires Built(start, c, f) && a in start
    ensures a in c && c[a] == start[a]
  {
  }

  lemma ContainerItem(t: Tree)
    ensures t.kind == ArrayKind ==> TreeItem(t) == Array(ForestItems(t.children))
    ensures t.kind == ObjectKind ==> TreeItem(t) == Object(ForestFields(t.children))
    ensures ForestItems(Nil) == NoItems && ForestFields(Nil) == NoFields
  {
  }

  lemma HeadIs(c: Cells, f: Forest)
    requires Chain(c, f, NULL, NULL, false)
    ensures First(f) == NULL <==> f.Nil?
    ensures f.Nil? ==> Owned(f) == {}
  {
    hide TreeAt;
    if f.Sibling? {
      NodeIs(c, f.head, NULL, First(f.tail), false);
    }
  }

  lemma FreshBlank(start: Cells, c: Cells, d: Cells, f: Forest, item: Addr)
    requires Built(start, c, f) && item != NULL && item !in c && d == c[item := BLANK]
    ensures Chain(d, f, NULL, NULL, false) && TreeAt(d, Blank(item), NULL, NULL, false) && TreeApart(Blank(item))
    ensures TreeArea(Blank(item), false) == {item}
  {
    AreaLive(c, f, NULL, NULL, false);
    Frame(c, d, f, NULL, NULL, false);
    assert Owned(Nil) == {};
  }

  /** An opening bracket is not the terminator. */
  lemma BracketInside(content: Bytes, p: nat)
    requires P.Terminated(content) && p < |content| && content[p] != NUL
    ensures p + 1 < |content|
  {
  }

  lemma PrependNothing(r: P.Outcome<Items>)
    ensures ForestItems(Nil) == NoItems && Prepend(ForestItems(Nil), r) == r
  {
  }

  lemma ElementFailed(content: Bytes, p: nat, depth: nat, f: Forest, whole: P.Outcome<Items>)
    requires P.Terminated(content) && p + 1 < |content| && depth <= NESTING_LIMIT
    requires whole == Prepend(ForestItems(f), P.ParseElems(content, p, depth))
    ensures var r := P.ParseValue(content, P.Skip(content, p + 1), depth);
      r.Fail? ==> whole == P.Fail(r.offset, r.depth)
  {
    hide P.ParseValue, P.Skip, ForestItems;
  }

  /** What one more element means for the outcome of the whole list. */
  lemma ElementRead(content: Bytes, p: nat, depth: nat, f: Forest, t: Tree, whole: P.Outcome<Items>, offset: nat)
    requires P.Terminated(content) && p + 1 < |content| && depth <= NESTING_LIMIT && offset < |content|
    requires whole == Prepend(ForestItems(f), P.ParseElems(content, p, depth))
    requires var r := P.ParseValue(content, P.Skip(content, p + 1), depth);
      r.Ok? && TreeItem(t) == r.value && offset == P.Skip(content, r.offset)
    ensures content[offset] == COMMA ==>
      offset + 1 < |content| && whole == Prepend(ForestItems(Cat(f, One(t))), P.ParseElems(content, offset, depth))
    ensures content[offset] != COMMA ==>
      whole == if content[offset] == RBRACKET then P.Ok(ForestItems(Cat(f, One(t))), offset) else P.Fail(offset, depth)
  {
    hide P.ParseValue, TreeItem, P.Skip, ForestItems;
    if content[offset] == COMMA {
      BracketInside(content, offset);
      var r := P.ParseElems(content, offset, depth);
      if r.Ok? {
        OneMoreItem(f, t, r.value);
      }
    } else {
      OneMoreItem(f, t, NoItems);
      CatNoItems(ForestItems(Cat(f, One(t))));
    }
  }

  lemma SpanStep(c: Bytes, p: nat, room: nat)
    requires p <= |c|
    ensures P.NumberSpan(c, p, room)
      == if room > 0 && p < |c| && IsNumberByte(c[p]) then 1 + P.NumberSpan(c, p + 1, room - 1) else 0
  {
  }

  lemma Scanned(c: Bytes, p: nat, depth: nat)
    requires P.Terminated(c) && p < |c|
    ensures p + P.NumberSpan(c, p, NUMBER_LIMIT) < |c|
    ensures var n := StrtodLength(c[p..p + P.NumberSpan(c, p, NUMBER_LIMIT)]);
      && p + n < |c| && (forall k :: p <= k < p + n ==> c[k] != NUL)
      && P.ParseNumber(c, p, depth) == if n == 0 then P.Fail(p, depth) else P.Ok(Number(c[p..p + n]), p + n)
  {
    hide StrtodLength, IsNumberByte, P.NumberSpan;
    P.SpanEnds(c, p, NUMBER_LIMIT);
  }

  /** Filling in kind and number changes nothing but the node. */
  lemma Changed(c: Cells, d: Cells, b: Tree, t: Tree, prev: Addr, next: Addr)
    requires TreeAt(c, b, prev, next, false) && TreeApart(b) && Bare(b)
    requires t == b.(kind := t.kind, number := t.number) && d == c[b.at := c[b.at].(kind := t.kind, number := t.number)]
    requires !t.kind.StringKind?
    ensures Filled(c, d, b, t, prev, next)
  {
    TreeLive(c, b, prev, next, false);
  }

  /** A new string becomes the value of an item. */
  lemma GivenText(c: Cells, d: Cells, b: Tree, t: Tree, prev: Addr, next: Addr)
    requires TreeAt(c, b, prev, next, false) && TreeApart(b) && Bare(b) && t.value != NULL && t.value !in c
    requires b.at in c && c[b.at].Node?
    requires t == b.(kind := t.kind, value := t.value, text := t.text)
    requires d == c[t.value := Block(t.text)][b.at := c[b.at].(kind := t.kind, value := t.value)]
    ensures Filled(c, d, b, t, prev, next)
  {
    TreeLive(c, b, prev, next, false);
    assert Owned(Nil) == {};
  }
}
