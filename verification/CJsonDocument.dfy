/** Editing a whole document: an item is moved from one list of it to another, and back. */
module CJsonDocument {
  import opened CJsonMemory
  import opened CJsonEdit

  /** The document stands in memory without siblings, and owns nothing twice. */
  predicate Document(cells: Cells, doc: Tree) {
    TreeAt(cells, doc, NULL, NULL, false) && TreeApart(doc)
  }

  /** The tree at an index of a list. */
  function TreeOf(f: Forest, i: nat): Tree
    requires i < Length(f)
  {
    if i == 0 then f.head else TreeOf(f.tail, i - 1)
  }

  /** The list without the tree at the index. */
  function Without(f: Forest, i: nat): Forest
    requires i < Length(f)
  {
    if i == 0 then f.tail else Sibling(f.head, Without(f.tail, i - 1))
  }

  /** The list with a tree at the index, or behind its end. */
  function With(f: Forest, i: nat, t: Tree): Forest {
    if f.Nil? || i == 0 then Sibling(t, f) else Sibling(f.head, With(f.tail, i - 1, t))
  }

  /** The document after the tree at `i` of the list `f` at `a` has left it. */
  function Taken(doc: Tree, a: Addr, f: Forest, i: nat): Tree
    requires i < Length(f)
  {
    Rehung(doc, a, Without(f, i))
  }

  /** The document after that tree has moved to `j` of the list `g` at `b`. */
  function Moved(doc: Tree, a: Addr, f: Forest, i: nat, b: Addr, g: Forest, j: nat): Tree
    requires i < Length(f)
  {
    Rehung(Taken(doc, a, f, i), b, With(g, j, TreeOf(f, i)))
  }

  // ----- lists by index -----

  lemma {:induction false} CutAt(pre: Forest, rest: Forest)
    requires rest.Sibling?
    ensures Length(pre) < Length(Cat(pre, rest))
    ensures TreeOf(Cat(pre, rest), Length(pre)) == rest.head
    ensures Without(Cat(pre, rest), Length(pre)) == Cat(pre, rest.tail)
    decreases pre
  {
    if pre.Sibling? {
      CutAt(pre.tail, rest);
    }
  }

  lemma {:induction false} PutAt(pre: Forest, rest: Forest, j: nat, t: Tree)
    requires Length(pre) == if j < Length(Cat(pre, rest)) then j else Length(Cat(pre, rest))
    ensures With(Cat(pre, rest), j, t) == Cat(pre, Sibling(t, rest))
    decreases pre
  {
    if pre.Sibling? {
      PutAt(pre.tail, rest, j - 1, t);
    } else if rest.Sibling? {
      assert Length(rest) > 0;
    }
  }

  /** Taking a tree out and putting it back, or putting it in and taking it out, changes nothing. */
  lemma {:induction false} OutAndIn(f: Forest, i: nat)
    requires i < Length(f)
    ensures With(Without(f, i), i, TreeOf(f, i)) == f
    decreases f
  {
    if i > 0 {
      OutAndIn(f.tail, i - 1);
    }
  }

  lemma {:induction false} InAndOut(g: Forest, j: nat, t: Tree)
    requires j <= Length(g)
    ensures j < Length(With(g, j, t)) && Without(With(g, j, t), j) == g && TreeOf(With(g, j, t), j) == t
    decreases g
  {
    if j > 0 {
      InAndOut(g.tail, j - 1, t);
    }
  }

  // ----- documents by node -----

  /** The children of a node that a document owns are a list. */
  lemma {:induction false} ListsAt(c: Cells, t: Tree, prev: Addr, next: Addr, a: Addr, f: Forest)
    requires TreeAt(c, t, prev, next, false) && TreeApart(t) && Holds(t, a, f)
    ensures Lists(c, a, f)
    decreases t, 0
  {
    HeldArea(t, a, f);
    if t.at == a {
      if HoldsIn(t.children, a, f) {
        HeldAreaIn(t.children, a, f);
      }
    } else {
      ListsIn(c, t.children, NULL, NULL, a, f);
    }
  }

  lemma {:induction false} ListsIn(c: Cells, g: Forest, prev: Addr, next: Addr, a: Addr, f: Forest)
    requires Chain(c, g, prev, next, false) && Apart(g) && HoldsIn(g, a, f)
    ensures Lists(c, a, f)
    decreases g, 1
  {
    hide TreeAt, TreeApart, Holds, Lists;
    if Holds(g.head, a, f) {
      ListsAt(c, g.head, prev, FirstOr(g.tail, next), a, f);
    } else {
      ListsIn(c, g.tail, g.head.at, next, a, f);
    }
  }

  lemma {:induction false} HeldApart(t: Tree, a: Addr, f: Forest)
    requires TreeApart(t) && Holds(t, a, f)
    ensures Apart(f) && a !in Owned(f)
    decreases t, 0
  {
    if t.at == a {
      if HoldsIn(t.children, a, f) {
        HeldAreaIn(t.children, a, f);
      }
    } else {
      HeldApartIn(t.children, a, f);
    }
  }

  lemma {:induction false} HeldApartIn(g: Forest, a: Addr, f: Forest)
    requires Apart(g) && HoldsIn(g, a, f)
    ensures Apart(f) && a !in Owned(f)
    decreases g, 1
  {
    hide TreeApart, Holds;
    if Holds(g.head, a, f) {
      HeldApart(g.head, a, f);
    } else {
      HeldApartIn(g.tail, a, f);
    }
  }

  /** After an edit, the node has the edited list. */
  lemma {:induction false} RehungHolds(t: Tree, a: Addr, f: Forest, g: Forest)
    requires Holds(t, a, f)
    ensures Holds(Rehung(t, a, g), a, g)
    decreases t, 0
  {
    if t.at != a {
      RehungHoldsIn(t.children, a, f, g);
    }
  }

  lemma {:induction false} RehungHoldsIn(h: Forest, a: Addr, f: Forest, g: Forest)
    requires HoldsIn(h, a, f)
    ensures HoldsIn(RehungIn(h, a, g), a, g)
    decreases h, 1
  {
    if Holds(h.head, a, f) {
      RehungHolds(h.head, a, f, g);
    } else {
      RehungHoldsIn(h.tail, a, f, g);
    }
  }

  /** Of two edits of the same node the later one counts. */
  lemma {:induction false} RehungTwice(t: Tree, a: Addr, f: Forest, g: Forest)
    ensures Rehung(Rehung(t, a, f), a, g) == Rehung(t, a, g)
    decreases t, 0
  {
    if !t.isReference && t.at != a {
      RehungTwiceIn(t.children, a, f, g);
    }
  }

  lemma {:induction false} RehungTwiceIn(h: Forest, a: Addr, f: Forest, g: Forest)
    ensures RehungIn(RehungIn(h, a, f), a, g) == RehungIn(h, a, g)
    decreases h, 1
  {
    if h.Sibling? {
      RehungTwice(h.head, a, f, g);
      RehungTwiceIn(h.tail, a, f, g);
    }
  }

  /** A node that gets the list that it has already is not changed. */
  lemma {:induction false} RehungSame(t: Tree, a: Addr, f: Forest)
    requires TreeApart(t) && Holds(t, a, f)
    ensures Rehung(t, a, f) == t
    decreases t, 0
  {
    if t.at == a {
      if HoldsIn(t.children, a, f) {
        HeldAreaIn(t.children, a, f);
      }
    } else {
      RehungSameIn(t.children, a, f);
    }
  }

  lemma {:induction false} RehungSameIn(h: Forest, a: Addr, f: Forest)
    requires Apart(h) && HoldsIn(h, a, f)
    ensures RehungIn(h, a, f) == h
    decreases h, 1
  {
    if Holds(h.head, a, f) {
      HeldArea(h.head, a, f);
      RehungSame(h.head, a, f);
      Unheld(h.tail, a, f);
    } else {
      HeldAreaIn(h.tail, a, f);
      UnheldTree(h.head, a, f);
      RehungSameIn(h.tail, a, f);
    }
  }

  // ----- one edit of a document -----

  /** After a tree has been detached from a list of it, the document is in place without the tree. */
  lemma Detachment(c: Cells, d: Cells, doc: Tree, a: Addr, f: Forest, pre: Forest, t: Tree, post: Forest)
    requires Document(c, doc) && Holds(doc, a, f) && Detaches(c, d, a, f, pre, t, post)
    ensures Document(d, Rehung(doc, a, Cat(pre, post))) && Document(d, t)
    ensures TreeArea(t, false) !! TreeArea(Rehung(doc, a, Cat(pre, post)), false)
    ensures TreeArea(doc, false) == TreeArea(Rehung(doc, a, Cat(pre, post)), false) + TreeArea(t, false)
    ensures d.Keys == c.Keys && Same(c, d, c.Keys - TreeArea(doc, false))
  {
    hide TreeAt, TreeApart, TreeArea, Chain, Apart, Area, Holds, Rehung;
    HeldArea(doc, a, f);
    ListsAt(c, doc, NULL, NULL, a, f);
    ListFirst(pre, post);
    EditInTree(c, d, doc, NULL, NULL, a, f, Cat(pre, post), {});
    EditApart(doc, a, f, Cat(pre, post));
  }

  lemma ListFirst(pre: Forest, post: Forest)
    ensures First(Cat(pre, post)) == FirstOr(pre, First(post))
  {
  }

  /** After a tree has been inserted into a list of it, the document is in place with the tree. */
  lemma Insertion(c: Cells, d: Cells, doc: Tree, a: Addr, f: Forest, pre: Forest, t: Tree, rest: Forest)
    requires Document(c, doc) && Holds(doc, a, f) && Inserts(c, d, a, f, pre, t, rest)
    requires TreeArea(t, false) !! TreeArea(doc, false)
    ensures Document(d, Rehung(doc, a, Cat(pre, Sibling(t, rest))))
    ensures TreeArea(Rehung(doc, a, Cat(pre, Sibling(t, rest))), false) == TreeArea(doc, false) + TreeArea(t, false)
    ensures d.Keys == c.Keys && Same(c, d, c.Keys - TreeArea(doc, false) - TreeArea(t, false))
  {
    hide TreeAt, TreeApart, TreeArea, Chain, Apart, Area, Holds, Rehung;
    HeldArea(doc, a, f);
    ListFirst(pre, Sibling(t, rest));
    EditInTree(c, d, doc, NULL, NULL, a, f, Cat(pre, Sibling(t, rest)), TreeArea(t, false));
    EditApart(doc, a, f, Cat(pre, Sibling(t, rest)));
  }

  // ----- moving an item -----

  lemma ListOf(c: Cells, doc: Tree, a: Addr, f: Forest)
    requires Document(c, doc) && Holds(doc, a, f)
    ensures Lists(c, a, f) && a != NULL && a in TreeArea(doc, false) && Owned(f) <= TreeArea(doc, false)
  {
    hide TreeAt, TreeApart, TreeArea, Chain, Apart, Area, Holds;
    ListsAt(c, doc, NULL, NULL, a, f);
    HeldArea(doc, a, f);
  }

  /** A detached tree may be inserted into any list of the document. */
  lemma LooseIn(c: Cells, doc: Tree, a: Addr, f: Forest, t: Tree)
    requires Document(c, doc) && Holds(doc, a, f) && Document(c, t) && TreeArea(t, false) !! TreeArea(doc, false)
    ensures Lists(c, a, f) && a != NULL && Loose(c, a, f, t) && t.at != NULL
  {
    hide TreeApart, TreeArea, Chain, Apart, Area, Holds;
    ListOf(c, doc, a, f);
  }

  /** The tree that DetachItemFromArray finds at an index. */
  lemma FoundAt(f: Forest, i: nat, pre: Forest, rest: Forest)
    requires f == Cat(pre, rest) && Length(pre) == i && rest.Sibling?
    ensures i < Length(f) && TreeOf(f, i) == rest.head && Without(f, i) == Cat(pre, rest.tail)
  {
    CutAt(pre, rest);
  }

  /**
   * cJSON_DetachItemFromArray and cJSON_InsertItemInArray one after the other: the document is in place with the tree
   * in its new list, which may be the same list or one at any other node that is left. Nothing is lost, and nothing
   * outside the document changes.
   */
  method MoveItem(m: Memory, a: Addr, which: int, b: Addr, index: nat, ghost doc: Tree, ghost f: Forest,
      ghost g: Forest)
      returns (moved: Addr)
    requires Document(m.cells, doc) && Holds(doc, a, f)
    requires 0 <= which < Length(f) ==> Holds(Taken(doc, a, f, which), b, g)
    modifies m`cells
    ensures moved != NULL <==> 0 <= which < Length(f)
    ensures moved == NULL ==> m.cells == old(m.cells)
    ensures moved != NULL ==>
      moved == TreeOf(f, which).at && Document(m.cells, Moved(doc, a, f, which, b, g, index))
    ensures moved != NULL ==> TreeArea(Moved(doc, a, f, which, b, g, index), false) == TreeArea(doc, false)
    ensures m.cells.Keys == old(m.cells.Keys) && Same(old(m.cells), m.cells, old(m.cells.Keys) - TreeArea(doc, false))
  {
    hide TreeAt, TreeApart, TreeArea, Chain, Apart, Area, Holds, Rehung, Detaches, Inserts, Lists, Loose, Cat, Length,
      Document, TreeOf, Without, With;
    ghost var c := m.cells;
    ListOf(c, doc, a, f);
    ghost var pre, rest;
    moved, pre, rest := DetachItemFromArray(m, a, which, f);
    ghost var d := m.cells;
    if 0 <= which < Length(f) {
      FoundAt(f, which, pre, rest);
      Detachment(c, d, doc, a, f, pre, rest.head, rest.tail);
      LooseIn(d, Taken(doc, a, f, which), b, g, rest.head);
    }
    if moved == NULL {
      return;
    }
    ghost var t := rest.head;
    ghost var pre', rest';
    pre', rest' := InsertItemInArray(m, b, index, moved, g, t);
    InsertsParts(d, m.cells, b, g, pre', t, rest');
    PutAt(pre', rest', index, t);
    Insertion(d, m.cells, Taken(doc, a, f, which), b, g, pre', t, rest');
  }

  lemma InsertsParts(c: Cells, d: Cells, a: Addr, f: Forest, pre: Forest, t: Tree, rest: Forest)
    requires Inserts(c, d, a, f, pre, t, rest)
    ensures f == Cat(pre, rest)
  {
  }

  lemma {:induction false} WithoutApart(f: Forest, i: nat)
    requires Apart(f) && i < Length(f)
    ensures Apart(Without(f, i)) && Owned(Without(f, i)) <= Owned(f)
    decreases f
  {
    hide TreeApart, TreeArea;
    if i > 0 {
      WithoutApart(f.tail, i - 1);
    }
  }

  lemma TakenApart(doc: Tree, a: Addr, f: Forest, i: nat)
    requires TreeApart(doc) && Holds(doc, a, f) && i < Length(f)
    ensures TreeApart(Taken(doc, a, f, i))
  {
    hide TreeApart, TreeArea, Apart, Area, Holds, Rehung, Without;
    HeldApart(doc, a, f);
    WithoutApart(f, i);
    EditApart(doc, a, f, Without(f, i));
  }

  /** Moving a tree to another place and from there to where it came from gives the document as it was. */
  lemma MovedBack(doc: Tree, a: Addr, f: Forest, i: nat, b: Addr, g: Forest, j: nat)
    requires TreeApart(doc) && Holds(doc, a, f) && i < Length(f) && j <= Length(g)
    requires Holds(Taken(doc, a, f, i), b, g)
    ensures j < Length(With(g, j, TreeOf(f, i)))
    ensures Holds(Moved(doc, a, f, i, b, g, j), b, With(g, j, TreeOf(f, i)))
    ensures Taken(Moved(doc, a, f, i, b, g, j), b, With(g, j, TreeOf(f, i)), j) == Taken(doc, a, f, i)
    ensures Holds(Taken(doc, a, f, i), a, Without(f, i))
    ensures Moved(Moved(doc, a, f, i, b, g, j), b, With(g, j, TreeOf(f, i)), j, a, Without(f, i), i) == doc
  {
    hide TreeApart, Holds, Rehung, With, Without, TreeOf;
    var t, rest := TreeOf(f, i), Taken(doc, a, f, i);
    var back := With(g, j, t);
    TakenApart(doc, a, f, i);
    InAndOut(g, j, t);
    OutAndIn(f, i);
    RehungHolds(rest, b, g, back);
    RehungHolds(doc, a, f, Without(f, i));
    RehungTwice(rest, b, back, g);
    RehungSame(rest, b, g);
    RehungTwice(doc, a, Without(f, i), f);
    RehungSame(doc, a, f);
  }

  /** What a document owns of memory is given by the document. */
  lemma {:induction false} OneMemory(c: Cells, d: Cells, t: Tree, prev: Addr, next: Addr)
    requires TreeAt(c, t, prev, next, false) && TreeAt(d, t, prev, next, false)
    ensures Same(c, d, TreeArea(t, false))
    decreases t, 0
  {
    if !t.isReference {
      OneMemoryIn(c, d, t.children, NULL, NULL);
    }
  }

  lemma {:induction false} OneMemoryIn(c: Cells, d: Cells, f: Forest, prev: Addr, next: Addr)
    requires Chain(c, f, prev, next, false) && Chain(d, f, prev, next, false)
    ensures Same(c, d, Owned(f))
    decreases f, 1
  {
    hide TreeAt, TreeArea;
    if f.Sibling? {
      OneMemory(c, d, f.head, prev, FirstOr(f.tail, next));
      OneMemoryIn(c, d, f.tail, f.head.at, next);
    }
  }

  /** An item that is moved and moved back leaves every byte of memory as it was. */
  method MoveAndReturn(m: Memory, a: Addr, which: nat, b: Addr, index: nat, ghost doc: Tree, ghost f: Forest,
      ghost g: Forest)
    requires Document(m.cells, doc) && Holds(doc, a, f) && which < Length(f)
    requires Holds(Taken(doc, a, f, which), b, g) && index <= Length(g)
    modifies m`cells
    ensures m.cells == old(m.cells)
  {
    hide TreeAt, TreeApart, TreeArea, Holds, Rehung, With, Without, TreeOf, Length, Moved, Taken;
    ghost var c := m.cells;
    MovedBack(doc, a, f, which, b, g, index);
    var moved := MoveItem(m, a, which, b, index, doc, f, g);
    ghost var back := With(g, index, TreeOf(f, which));
    moved := MoveItem(m, b, index, a, which, Moved(doc, a, f, which, b, g, index), back, Without(f, which));
    OneMemory(c, m.cells, doc, NULL, NULL);
  }
}
