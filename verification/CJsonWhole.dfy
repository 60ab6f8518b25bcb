/** Parser, printer, comparison and deletion together: a text is parsed, printed, parsed again and compared. */
module CJsonWhole {
  import opened Ascii
  import opened CJsonAlike
  import opened CJsonItem
  import opened CJsonLayout
  import opened CJsonMemory
  import opened CJsonPrint
  import C = CJsonCompare
  import E = CJsonEdit
  import P = CJsonParse
  import R = CJsonParser

  /** Every number fits the temporary buffer of print_number. */
  predicate Short(item: Item) {
    match item
    case Number(t) => |t| <= 25
    case Array(items) => ShortItems(items)
    case Object(fields) => ShortFields(fields)
    case _ => true
  }

  predicate ShortItems(items: Items) {
    match items
    case NoItems => true
    case Cons(v, rest) => Short(v) && ShortItems(rest)
  }

  predicate ShortFields(fields: Fields) {
    match fields
    case NoFields => true
    case Field(_, v, rest) => Short(v) && ShortFields(rest)
  }

  /** A plain item in memory can be printed exactly if its numbers are short. */
  lemma {:induction false} PlainPrintable(t: Tree)
    requires Plain(TreeItem(t))
    ensures Printable(t) <==> Short(TreeItem(t))
    decreases t, 0
  {
    if t.kind.ArrayKind? {
      PlainElements(t.children);
    } else if t.kind.ObjectKind? {
      PlainMembers(t.children);
    }
  }

  lemma {:induction false} PlainElements(f: Forest)
    requires PlainItems(ForestItems(f))
    ensures AllPrintable(f) <==> ShortItems(ForestItems(f))
    decreases f, 1
  {
    hide TreeItem, Plain, Printable, Short;
    if f.Sibling? {
      PlainPrintable(f.head);
      PlainElements(f.tail);
    }
  }

  lemma {:induction false} PlainMembers(f: Forest)
    requires PlainFields(ForestFields(f))
    ensures AllPrintable(f) <==> ShortFields(ForestFields(f))
    decreases f, 1
  {
    hide TreeItem, Plain, Printable, Short;
    if f.Sibling? {
      PlainPrintable(f.head);
      PlainMembers(f.tail);
    }
  }

  /** A plain item that owns its parts is fit for comparison exactly if the keys of siblings are distinct. */
  lemma {:induction false} PlainProper(t: Tree)
    requires Plain(TreeItem(t)) && Own(t)
    ensures C.Proper(t) <==> Distinct(TreeItem(t))
    decreases t, 0
  {
    if t.kind.ArrayKind? {
      ProperElements(t.children);
    } else if t.kind.ObjectKind? {
      ProperMembers(t.children);
    }
  }

  lemma {:induction false} ProperElements(f: Forest)
    requires PlainItems(ForestItems(f)) && AllOwn(f)
    ensures C.AllProper(f) <==> DistinctItems(ForestItems(f))
    decreases f, 1
  {
    hide TreeItem, Plain, C.Proper, Distinct, Own;
    if f.Sibling? {
      PlainProper(f.head);
      ProperElements(f.tail);
    }
  }

  lemma {:induction false} ProperMembers(f: Forest)
    requires PlainFields(ForestFields(f)) && AllOwn(f) && AllKeyed(f)
    ensures C.AllProper(f) && C.AllNamed(f) <==> DistinctFields(ForestFields(f))
    decreases f, 1
  {
    hide TreeItem, Plain, C.Proper, Distinct, Own;
    if f.Sibling? {
      PlainProper(f.head);
      ProperMembers(f.tail);
    }
  }

  /** Two new items stand beside each other on top of an older memory, and nothing is owned twice. */
  predicate Two(start: Cells, cells: Cells, t: Tree, u: Tree) {
    R.Built(start, cells - TreeArea(u, false), One(t)) && R.Built(cells - TreeArea(u, false), cells, One(u))
  }

  /** The second item does not disturb the first and shares nothing with it. */
  lemma Beside(start: Cells, c: Cells, cells: Cells, t: Tree, u: Tree)
    requires R.Built(start, c, One(t)) && R.Built(c, cells, One(u)) && TreeAt(c, t, NULL, NULL, true)
    requires Own(u) && TreeAt(cells, u, NULL, NULL, true)
    ensures Two(start, cells, t, u) && TreeAt(cells, t, NULL, NULL, true) && TreeArea(t, true) !! TreeArea(u, true)
  {
    hide TreeAt, TreeApart, TreeArea, Own;
    TreeLive(c, t, NULL, NULL, true);
    FrameTree(c, cells, t, NULL, NULL, true);
    E.OneIs(cells, u, NULL, NULL);
    OwnReads(cells, u, NULL, NULL);
    R.Unbuilt(c, cells, One(u));
  }

  /** The text can be read again: it denotes an item whose numbers are short and whose print is not too long. */
  predicate Readable(text: CString, requireTerminated: bool, format: bool) {
    match P.ParseWithOpts(text, requireTerminated).0
    case None => false
    case Some(item) => Short(item) && |Printed(item, format)| + 2 <= INT_MAX
  }

  /**
   * Parsing, printing, and parsing the print: this gives a second item exactly if the text can be read again and all
   * requests for memory are granted. The second item is the same as the first, stands in memory beside it and shares
   * nothing with it; without duplicate keys the two compare equal, however numbers are rounded.
   */
  method ReadAgain(text: CString, mem: Memory, requireTerminated: bool, format: bool, hasRealloc: bool,
      round: C.Rounding)
      returns (first: Addr, second: Addr, equal: bool, ghost t: Tree, ghost u: Tree)
    modifies mem
    ensures first == NULL ==> second == NULL && mem.cells == old(mem.cells)
    ensures first != NULL ==> t.at == first && TreeAt(mem.cells, t, NULL, NULL, true)
    ensures first != NULL ==> P.ParseWithOpts(text, requireTerminated).0 == Some(TreeItem(t))
    ensures first != NULL && second == NULL ==> R.Built(old(mem.cells), mem.cells, One(t))
    ensures second != NULL <==> Readable(text, requireTerminated, format) && mem.Fine(old(mem.asked))
    ensures second != NULL ==> u.at == second && TreeAt(mem.cells, u, NULL, NULL, true)
    ensures second != NULL ==> TreeItem(u) == TreeItem(t) && TreeArea(t, true) !! TreeArea(u, true)
    ensures second != NULL ==> Two(old(mem.cells), mem.cells, t, u)
    ensures second != NULL && Distinct(TreeItem(t)) ==> equal
  {
    hide TreeAt, TreeArea, TreeApart, Own, R.Built, P.ParseWithOpts, Printed, Printable, Short, Plain, Nesting,
      Distinct, C.Proper, TreeItem, C.Meaning, Two;
    second, equal := NULL, false;
    var at;
    first, at, t := R.ParseWithOpts(text, mem, requireTerminated);
    u := t;
    if first == NULL {
      return;
    }
    ghost var c := mem.cells;
    ParsedPlain(text, requireTerminated);
    PlainPrintable(t);
    ghost var parsed := mem.asked;
    var printed := Print(mem, first, t, NULL, NULL, format, hasRealloc);
    assert mem.Fine(old(mem.asked)) <==> mem.Fine(parsed);
    if printed == null {
      return;
    }
    ParsedRoundTrip(text, requireTerminated, format);
    BeforeNul(printed[..], Printed(TreeItem(t), format));
    second, at, u := R.ParseWithOpts(Before(printed[..]), mem, true);
    if second == NULL {
      return;
    }
    Beside(old(mem.cells), c, mem.cells, t, u);
    PlainProper(t);
    PlainProper(u);
    equal := C.Compare(mem, round, first, second, t, NULL, NULL, u, NULL, NULL);
  }

  /** The same with both items deleted: memory is as it was, whatever happened. */
  method ReadsSame(text: CString, mem: Memory, requireTerminated: bool, format: bool, hasRealloc: bool,
      round: C.Rounding)
      returns (same: bool)
    modifies mem
    ensures mem.cells == old(mem.cells)
    ensures same ==> Readable(text, requireTerminated, format) && mem.Fine(old(mem.asked))
    ensures var item := P.ParseWithOpts(text, requireTerminated).0;
      item.Some? && Distinct(item.value) ==>
        (same <==> Readable(text, requireTerminated, format) && mem.Fine(old(mem.asked)))
  {
    hide TreeAt, TreeArea, P.ParseWithOpts, Readable, Distinct, R.Built, TreeItem;
    var first, second, equal;
    ghost var t, u;
    first, second, equal, t, u := ReadAgain(text, mem, requireTerminated, format, hasRealloc, round);
    same := second != NULL && equal;
    ghost var start := old(mem.cells);
    if second != NULL {
      ghost var c := mem.cells - TreeArea(u, false);
      DeleteBuilt(mem, second, c, u);
      DeleteBuilt(mem, first, start, t);
    } else if first != NULL {
      DeleteBuilt(mem, first, start, t);
    }
  }

  /** cJSON_Delete of an item that was built on an older memory. */
  method DeleteBuilt(mem: Memory, item: Addr, ghost start: Cells, ghost t: Tree)
    requires R.Built(start, mem.cells, One(t)) && item == t.at
    modifies mem`cells
    ensures mem.cells == start
  {
    hide Chain, Apart, Area;
    R.Unbuilt(start, mem.cells, One(t));
    mem.Delete(item, One(t), NULL);
  }
}
