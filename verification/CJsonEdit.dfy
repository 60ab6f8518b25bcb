/**
 * Editing the children of an item in place: on chains that are linked both ways, appending, inserting,
 * detaching and replacing act on the sequence of siblings exactly as their names say.
 */
module CJsonEdit {
  import opened CJsonMemory

  /** The children of the node at `parent` are the trees of `f`, all of them apart from the node. */
  predicate Lists(cells: Cells, parent: Addr, f: Forest) {
    && parent != NULL && parent in cells && cells[parent].Node? && cells[parent].child == First(f)
    && Chain(cells, f, NULL, NULL, false) && Apart(f) && parent !in Owned(f)
  }

  /** A tree that is linked to no sibling and apart from a list and its parent. */
  predicate Loose(cells: Cells, parent: Addr, f: Forest, t: Tree) {
    TreeAt(cells, t, NULL, NULL, false) && TreeApart(t) && TreeArea(t, false) !! Owned(f) + {parent}
  }

  function WithNext(cells: Cells, a: Addr, next: Addr): Cells
    requires a in cells && cells[a].Node?
  {
    cells[a := cells[a].(next := next)]
  }

  function WithPrev(cells: Cells, a: Addr, prev: Addr): Cells
    requires a in cells && cells[a].Node?
  {
    cells[a := cells[a].(prev := prev)]
  }

  function WithChild(cells: Cells, a: Addr, child: Addr): Cells
    requires a in cells && cells[a].Node?
  {
    cells[a := cells[a].(child := child)]
  }

  /** How a node looks in two memories: one link has another value, and the rest of the node is the same. */
  predicate NextIs(c: Cells, d: Cells, a: Addr, next: Addr) {
    a in c && a in d && c[a].Node? && d[a] == c[a].(next := next)
  }

  predicate PrevIs(c: Cells, d: Cells, a: Addr, prev: Addr) {
    a in c && a in d && c[a].Node? && d[a] == c[a].(prev := prev)
  }

  predicate LinksAre(c: Cells, d: Cells, a: Addr, prev: Addr, next: Addr) {
    a in c && a in d && c[a].Node? && d[a] == c[a].(prev := prev, next := next)
  }

  predicate ChildIs(c: Cells, d: Cells, a: Addr, child: Addr) {
    a in c && a in d && c[a].Node? && d[a] == c[a].(child := child)
  }

  /** An edit of the children of `parent` changes nothing outside `area` but the link from the parent to them. */
  predicate OnlyInside(c: Cells, d: Cells, parent: Addr, area: set<Addr>, child: Addr) {
    ChildIs(c, d, parent, child) && forall a | a in c && a !in area + {parent} :: a in d && d[a] == c[a]
  }

  /** Relinking a node moves its tree between other siblings. */
  lemma Relinked(cells: Cells, other: Cells, t: Tree, prev: Addr, next: Addr, prev': Addr, next': Addr)
    requires TreeAt(cells, t, prev, next, false) && TreeApart(t) && t.at in other
    requires other[t.at] == cells[t.at].(prev := prev', next := next')
    requires Same(cells, other, TreeArea(t, false) - {t.at})
    ensures TreeAt(other, t, prev', next', false)
  {
    if !t.isReference {
      Frame(cells, other, t.children, NULL, NULL, false);
    }
  }

  /** Setting the next pointer of the last sibling links the chain to another successor. */
  lemma {:induction false} NextSet(cells: Cells, f: Forest, prev: Addr, next: Addr, next': Addr)
    requires f.Sibling? && Chain(cells, f, prev, next, false) && Apart(f)
    ensures LastOr(f, NULL) in cells && cells[LastOr(f, NULL)].Node? && cells[LastOr(f, NULL)].next == next
    ensures Chain(WithNext(cells, LastOr(f, NULL), next'), f, prev, next', false)
    decreases f
  {
    hide TreeAt, TreeArea, TreeApart;
    NodeIn(f.head);
    NodeIs(cells, f.head, prev, FirstOr(f.tail, next), false);
    TreeLive(cells, f.head, prev, FirstOr(f.tail, next), false);
    if f.tail.Nil? {
      Relinked(cells, WithNext(cells, f.head.at, next'), f.head, prev, next, prev, next');
    } else {
      LastIn(f.tail, f.head.at);
      NextSet(cells, f.tail, f.head.at, next, next');
      FrameTree(cells, WithNext(cells, LastOr(f.tail, NULL), next'), f.head, prev, f.tail.head.at, false);
    }
  }

  /** Setting the prev pointer of the first sibling links the chain to another predecessor. */
  lemma PrevSet(cells: Cells, f: Forest, prev: Addr, next: Addr, prev': Addr)
    requires f.Sibling? && Chain(cells, f, prev, next, false) && Apart(f)
    ensures f.head.at in cells && cells[f.head.at].Node? && cells[f.head.at].prev == prev
    ensures Chain(WithPrev(cells, f.head.at, prev'), f, prev', next, false)
  {
    hide TreeAt, TreeArea, TreeApart;
    NodeIn(f.head);
    NodeIs(cells, f.head, prev, FirstOr(f.tail, next), false);
    TreeLive(cells, f.head, prev, FirstOr(f.tail, next), false);
    AreaLive(cells, f.tail, f.head.at, next, false);
    Relinked(cells, WithPrev(cells, f.head.at, prev'), f.head, prev,
      FirstOr(f.tail, next), prev', FirstOr(f.tail, next));
    Frame(cells, WithPrev(cells, f.head.at, prev'), f.tail, f.head.at, next, false);
  }

  /** What relinking both ends of a chain does to memory. */
  function Ends(cells: Cells, f: Forest, prev: Addr, next: Addr): Cells
    requires f.Sibling? && f.head.at in cells && cells[f.head.at].Node? && LastOr(f, NULL) in cells
    requires cells[LastOr(f, NULL)].Node?
  {
    WithPrev(WithNext(cells, LastOr(f, NULL), next), f.head.at, prev)
  }

  /** A chain whose ends have been relinked, and nothing else of it has been changed. */
  lemma Relink(cells: Cells, other: Cells, f: Forest, prev: Addr, next: Addr, prev': Addr, next': Addr)
    requires f.Sibling? && Chain(cells, f, prev, next, false) && Apart(f)
    requires f.head.at in cells && cells[f.head.at].Node? && LastOr(f, NULL) in cells && cells[LastOr(f, NULL)].Node?
    requires Same(Ends(cells, f, prev', next'), other, Owned(f))
    ensures Chain(other, f, prev', next', false)
  {
    hide Chain, Apart;
    NextSet(cells, f, prev, next, next');
    PrevSet(WithNext(cells, LastOr(f, NULL), next'), f, prev, next', prev');
    Frame(Ends(cells, f, prev', next'), other, f, prev', next', false);
  }

  /** The ends of a chain are nodes of it. */
  lemma EndsIn(cells: Cells, f: Forest, prev: Addr, next: Addr)
    requires f.Sibling? && Chain(cells, f, prev, next, false) && Apart(f)
    ensures var first, last := f.head.at, LastOr(f, NULL);
      && first != NULL && first in Owned(f) && first in cells && cells[first].Node? && cells[first].prev == prev
      && last in Owned(f) && last in cells && cells[last].Node? && cells[last].next == next
    ensures Owned(f) <= cells.Keys
  {
    hide TreeAt, TreeArea, TreeApart;
    AreaLive(cells, f, prev, next, false);
    NodeIn(f.head);
    LastIn(f, NULL);
    NodeIs(cells, f.head, prev, FirstOr(f.tail, next), false);
    NextSet(cells, f, prev, next, next);
  }

  lemma NodeIn(t: Tree)
    ensures t.at in TreeArea(t, false)
  {
  }

  lemma {:induction false} LastIn(f: Forest, other: Addr)
    requires f.Sibling?
    ensures LastOr(f, other) in Owned(f) && LastOr(f, other) == LastOr(f, NULL)
    decreases f
  {
    hide TreeArea;
    NodeIn(f.head);
    if f.tail.Sibling? {
      LastIn(f.tail, f.head.at);
      LastIn(f.tail, NULL);
    }
  }

  lemma {:induction false} LastOfCat(f: Forest, g: Forest, other: Addr)
    ensures LastOr(Cat(f, g), other) == LastOr(g, LastOr(f, other))
    decreases f
  {
    if f.Sibling? {
      LastOfCat(f.tail, g, f.head.at);
    }
  }

  /** What joins a list of siblings, and the areas that the parts own. */
  lemma Joined(f: Forest, g: Forest, a: Addr)
    ensures Owned(Cat(f, g)) == Owned(f) + Owned(g)
    ensures Apart(Cat(f, g)) <==> Apart(f) && Apart(g) && Owned(f) !! Owned(g)
    ensures First(Cat(f, g)) == FirstOr(f, First(g))
    ensures LastOr(Cat(f, g), a) == LastOr(g, LastOr(f, a))
  {
    AreaCat(f, g, false);
    ApartCat(f, g);
    LastOfCat(f, g, a);
  }

  lemma OneIs(cells: Cells, t: Tree, prev: Addr, next: Addr)
    ensures Chain(cells, One(t), prev, next, false) == TreeAt(cells, t, prev, next, false)
    ensures Apart(One(t)) == TreeApart(t) && Owned(One(t)) == TreeArea(t, false)
  {
    hide TreeAt, TreeApart, TreeArea;
    assert Owned(Nil) == {};
  }

  /** The loop cursor stands at the first tree of `rest`. */
  predicate Cursor(cells: Cells, f: Forest, pre: Forest, rest: Forest, a: Addr) {
    f == Cat(pre, rest) && a == First(rest) && Chain(cells, rest, LastOr(pre, NULL), NULL, false)
  }

  lemma CursorNode(cells: Cells, f: Forest, pre: Forest, rest: Forest, a: Addr)
    requires Cursor(cells, f, pre, rest, a)
    ensures a == NULL <==> rest.Nil?
    ensures rest.Sibling? ==>
      a in cells && cells[a].Node? && cells[a].prev == LastOr(pre, NULL) && cells[a].next == First(rest.tail)
    ensures rest.Sibling? ==> Cursor(cells, f, Cat(pre, One(rest.head)), rest.tail, First(rest.tail))
    ensures rest.Sibling? ==> Length(Cat(pre, One(rest.head))) == Length(pre) + 1
  {
    hide TreeAt;
    if rest.Sibling? {
      NodeIs(cells, rest.head, LastOr(pre, NULL), First(rest.tail), false);
      CatAssoc(pre, One(rest.head), rest.tail);
      LastOfCat(pre, One(rest.head), NULL);
      LengthCat(pre, One(rest.head));
    }
  }

  lemma {:induction false} LengthCat(f: Forest, g: Forest)
    ensures Length(Cat(f, g)) == Length(f) + Length(g)
    decreases f
  {
    if f.Sibling? {
      LengthCat(f.tail, g);
    }
  }

  /** get_array_item: the item at the index, or NULL past the end. */
  method GetArrayItem(m: Memory, parent: Addr, index: nat, ghost f: Forest)
      returns (item: Addr, ghost pre: Forest, ghost rest: Forest)
    requires parent != NULL ==> Lists(m.cells, parent, f)
    ensures parent == NULL ==> item == NULL
    ensures parent != NULL ==> Cursor(m.cells, f, pre, rest, item)
    ensures parent != NULL ==> Length(pre) == if index < Length(f) then index else Length(f)
  {
    if parent == NULL {
      return NULL, Nil, Nil;
    }
    hide Chain;
    item, pre, rest := m.cells[parent].child, Nil, f;
    var left := index;
    CursorNode(m.cells, f, pre, rest, item);
    while item != NULL && left > 0
      invariant Cursor(m.cells, f, pre, rest, item) && (item == NULL <==> rest.Nil?) && Length(pre) + left == index
      decreases left
    {
      CursorNode(m.cells, f, pre, rest, item);
      item, pre, rest, left := m.cells[item].next, Cat(pre, One(rest.head)), rest.tail, left - 1;
      CursorNode(m.cells, f, pre, rest, item);
    }
    LengthCat(pre, rest);
  }

  /** add_item_to_array: the item becomes the last sibling. */
  method AddItemToArray(m: Memory, parent: Addr, item: Addr, ghost f: Forest, ghost t: Tree) returns (ok: bool)
    requires parent != NULL && item != NULL ==>
      Lists(m.cells, parent, f) && item == t.at && Loose(m.cells, parent, f, t)
    modifies m`cells
    ensures ok <==> parent != NULL && item != NULL
    ensures !ok ==> m.cells == old(m.cells)
    ensures ok ==> Lists(m.cells, parent, Cat(f, One(t))) && Owned(Cat(f, One(t))) == Owned(f) + TreeArea(t, false)
    ensures ok ==> m.cells.Keys == old(m.cells.Keys)
    ensures ok ==> Same(old(m.cells), m.cells, old(m.cells.Keys) - {parent, item, LastOr(f, NULL)})
    ensures ok ==> OnlyInside(old(m.cells), m.cells, parent, Owned(f) + TreeArea(t, false), FirstOr(f, item))
  {
    hide TreeAt, TreeApart, TreeArea, Chain, Apart;
    if item == NULL || parent == NULL {
      return false;
    }
    ghost var c := m.cells;
    OneIs(c, t, NULL, NULL);
    EndsIn(c, One(t), NULL, NULL);
    Joined(f, One(t), NULL);
    ghost var pre, rest := Nil, f;
    var child := m.cells[parent].child;
    CursorNode(c, f, pre, rest, child);
    if child == NULL {
      m.cells := WithChild(m.cells, parent, item);
      Relink(c, m.cells, One(t), NULL, NULL, NULL, NULL);
    } else {
      while m.cells[child].next != NULL
        invariant m.cells == c && Cursor(c, f, pre, rest, child) && rest.Sibling?
          && child in c && c[child].Node? && c[child].next == First(rest.tail)
        decreases rest
      {
        CursorNode(c, f, pre, rest, child);
        child, pre, rest := m.cells[child].next, Cat(pre, One(rest.head)), rest.tail;
        CursorNode(c, f, pre, rest, child);
      }
      CursorNode(c, f, Cat(pre, One(rest.head)), rest.tail, First(rest.tail)) by { CursorNode(c, f, pre, rest, child); }
      LastOfCat(pre, rest, NULL);
      EndsIn(c, f, NULL, NULL);
      m.cells := WithPrev(WithNext(m.cells, child, item), item, child);
      Relink(c, m.cells, f, NULL, NULL, NULL, item);
      Relink(c, m.cells, One(t), NULL, NULL, child, NULL);
    }
    ChainCat(m.cells, f, One(t), NULL, NULL, false);
    ok := true;
  }

  /** A chain with what is known of its ends. */
  predicate Ended(cells: Cells, f: Forest, prev: Addr, next: Addr) {
    && Chain(cells, f, prev, next, false) && Apart(f) && Owned(f) <= cells.Keys
    && (f.Sibling? ==>
      && f.head.at in Owned(f) && f.head.at != NULL && cells[f.head.at].Node? && cells[f.head.at].prev == prev
      && LastOr(f, NULL) in Owned(f) && cells[LastOr(f, NULL)].Node? && cells[LastOr(f, NULL)].next == next)
  }

  lemma EndedIs(cells: Cells, f: Forest, prev: Addr, next: Addr)
    requires Chain(cells, f, prev, next, false) && Apart(f)
    ensures Ended(cells, f, prev, next)
  {
    hide TreeAt, TreeArea, TreeApart;
    if f.Sibling? {
      EndsIn(cells, f, prev, next);
    }
  }

  /** A list cut in two. */
  lemma CutList(c: Cells, parent: Addr, f: Forest, pre: Forest, rest: Forest)
    requires Lists(c, parent, f) && f == Cat(pre, rest)
    ensures Ended(c, pre, NULL, FirstOr(rest, NULL)) && Ended(c, rest, LastOr(pre, NULL), NULL)
    ensures Owned(pre) !! Owned(rest) && Owned(f) == Owned(pre) + Owned(rest) && First(f) == FirstOr(pre, First(rest))
  {
    hide TreeAt, Chain, Apart, Area, Ended;
    ChainCat(c, pre, rest, NULL, NULL, false);
    Joined(pre, rest, NULL);
    EndedIs(c, pre, NULL, FirstOr(rest, NULL));
    EndedIs(c, rest, LastOr(pre, NULL), NULL);
  }

  /** Two chains that fit together are a list of the parent that points to them. */
  lemma MakeList(c: Cells, parent: Addr, pre: Forest, rest: Forest)
    requires Chain(c, pre, NULL, First(rest), false) && Chain(c, rest, LastOr(pre, NULL), NULL, false)
    requires Apart(pre) && Apart(rest) && Owned(pre) !! Owned(rest)
    requires parent != NULL && parent in c && c[parent].Node? && c[parent].child == FirstOr(pre, First(rest))
    requires parent !in Owned(pre) + Owned(rest)
    ensures Lists(c, parent, Cat(pre, rest)) && Owned(Cat(pre, rest)) == Owned(pre) + Owned(rest)
  {
    hide TreeAt, Chain, Apart, Area;
    ChainCat(c, pre, rest, NULL, NULL, false);
    Joined(pre, rest, NULL);
  }

  lemma Alone(c: Cells, parent: Addr, f: Forest, t: Tree)
    requires Loose(c, parent, f, t)
    ensures Ended(c, One(t), NULL, NULL) && Owned(One(t)) == TreeArea(t, false) && Owned(One(t)) !! Owned(f) + {parent}
    ensures LastOr(One(t), NULL) == t.at
  {
    hide TreeAt, TreeApart, TreeArea, Ended;
    OneIs(c, t, NULL, NULL);
    EndedIs(c, One(t), NULL, NULL);
  }

  /** cJSON_InsertItemInArray: the item comes to stand at the index, or at the end if there is none. */
  method InsertItemInArray(m: Memory, parent: Addr, which: int, newitem: Addr, ghost f: Forest, ghost t: Tree)
      returns (ghost pre: Forest, ghost rest: Forest)
    requires parent != NULL && which >= 0 ==> Lists(m.cells, parent, f) && (newitem == NULL ==> which >= Length(f))
    requires parent != NULL && which >= 0 && newitem != NULL ==> newitem == t.at && Loose(m.cells, parent, f, t)
    modifies m`cells
    ensures which < 0 || parent == NULL || newitem == NULL ==> m.cells == old(m.cells)
    ensures which >= 0 && parent != NULL && newitem != NULL ==>
      Inserts(old(m.cells), m.cells, parent, f, pre, t, rest)
        && Length(pre) == if which < Length(f) then which else Length(f)
  {
    if which < 0 {
      return Nil, Nil;
    }
    hide TreeAt, TreeApart, TreeArea, Chain, Apart, Area, Cat, LastOr, Length, OnlyInside;
    ghost var c := m.cells;
    var after;
    after, pre, rest := GetArrayItem(m, parent, which, f);
    if after == NULL {
      if parent != NULL {
        CursorNode(c, f, pre, rest, after);
        CatNil(pre);
        if newitem != NULL {
          Alone(c, parent, f, t);
        }
      }
      var ok := AddItemToArray(m, parent, newitem, f, t);
    } else {
      CursorNode(c, f, pre, rest, after);
      LongerThan(pre, rest);
      InsertBefore(m, parent, after, newitem, f, pre, rest, t);
    }
  }

  lemma LongerThan(pre: Forest, rest: Forest)
    requires rest.Sibling?
    ensures Length(pre) < Length(Cat(pre, rest))
  {
    LengthCat(pre, rest);
  }

  /** The tree has been put into the list between the two parts of it, and nothing else has changed. */
  predicate Inserts(c: Cells, d: Cells, parent: Addr, f: Forest, pre: Forest, t: Tree, rest: Forest) {
    && f == Cat(pre, rest) && Lists(d, parent, Cat(pre, Sibling(t, rest))) && d.Keys == c.Keys
    && Owned(Cat(pre, Sibling(t, rest))) == Owned(f) + TreeArea(t, false)
    && OnlyInside(c, d, parent, Owned(f) + TreeArea(t, false), FirstOr(pre, t.at))
  }

  /** The links of cJSON_InsertItemInArray when there is an item at the index. */
  method InsertBefore(m: Memory, parent: Addr, after: Addr, newitem: Addr, ghost f: Forest, ghost pre: Forest,
      ghost rest: Forest, ghost t: Tree)
    requires newitem == t.at && Lists(m.cells, parent, f) && Loose(m.cells, parent, f, t)
    requires f == Cat(pre, rest) && rest.Sibling? && after == rest.head.at
    modifies m`cells
    ensures Inserts(old(m.cells), m.cells, parent, f, pre, t, rest)
  {
    hide TreeAt, TreeApart, TreeArea, Chain, Apart, Area, Cat, LastOr, Same;
    ghost var c := m.cells;
    Alone(c, parent, f, t);
    CutList(c, parent, f, pre, rest);
    m.cells := WithNext(m.cells, newitem, after);
    m.cells := WithPrev(m.cells, newitem, m.cells[after].prev);
    m.cells := WithPrev(m.cells, after, newitem);
    if after == m.cells[parent].child {
      m.cells := WithChild(m.cells, parent, newitem);
    } else {
      m.cells := WithNext(m.cells, m.cells[newitem].prev, newitem);
    }
    ghost var last := if pre.Sibling? then {LastOr(pre, NULL)} else {};
    ghost var few := {parent, newitem, after} + last;
    assert Elsewhere(c, m.cells, few)
      && OnlyInside(c, m.cells, parent, Owned(f) + TreeArea(t, false), FirstOr(pre, newitem));
    hide Elsewhere, OnlyInside;
    if pre.Sibling? {
      EndsAre(c, m.cells, pre, NULL, newitem, few);
    }
    EndsAre(c, m.cells, rest, newitem, NULL, few);
    EndsAre(c, m.cells, One(t), LastOr(pre, NULL), after, few);
    Inserted(c, m.cells, parent, pre, rest, t);
  }

  /** Two memories differ at a few addresses only. */
  predicate Elsewhere(cells: Cells, other: Cells, few: set<Addr>) {
    cells.Keys == other.Keys && forall a | a in cells && a !in few :: cells[a] == other[a]
  }

  /** Only the links at the ends of a chain have changed, and some addresses outside it. */
  lemma EndsAre(c: Cells, d: Cells, f: Forest, prev: Addr, next: Addr, few: set<Addr>)
    requires f.Sibling? && Owned(f) <= c.Keys && Owned(f) !! few - {f.head.at, LastOr(f, NULL)}
    requires f.head.at in Owned(f) && LastOr(f, NULL) in Owned(f)
    requires c[f.head.at].Node? && c[LastOr(f, NULL)].Node? && Elsewhere(c, d, few)
    requires var first, last := f.head.at, LastOr(f, NULL);
      if first == last then LinksAre(c, d, first, prev, next) else PrevIs(c, d, first, prev) && NextIs(c, d, last, next)
    ensures Same(Ends(c, f, prev, next), d, Owned(f))
  {
    hide Area;
  }

  lemma Inserted(c: Cells, d: Cells, parent: Addr, pre: Forest, rest: Forest, t: Tree)
    requires Ended(c, pre, NULL, First(rest)) && Ended(c, rest, LastOr(pre, NULL), NULL)
    requires Ended(c, One(t), NULL, NULL) && rest.Sibling?
    requires Owned(pre) !! Owned(rest) && Owned(One(t)) !! Owned(pre) + Owned(rest) + {parent}
    requires parent !in Owned(pre) + Owned(rest)
    requires parent != NULL && parent in d && d[parent].Node? && d[parent].child == FirstOr(pre, t.at)
    requires pre.Sibling? ==> Same(Ends(c, pre, NULL, t.at), d, Owned(pre))
    requires Same(Ends(c, rest, t.at, NULL), d, Owned(rest))
    requires Same(Ends(c, One(t), LastOr(pre, NULL), First(rest)), d, Owned(One(t)))
    ensures Lists(d, parent, Cat(pre, Sibling(t, rest)))
    ensures Owned(Cat(pre, Sibling(t, rest))) == Owned(pre) + Owned(rest) + Owned(One(t))
  {
    hide TreeAt, Chain, Apart, Area;
    if pre.Sibling? {
      Relink(c, d, pre, NULL, First(rest), NULL, t.at);
    } else {
      NilChain(d, NULL, t.at);
    }
    Relink(c, d, rest, LastOr(pre, NULL), NULL, t.at, NULL);
    Relink(c, d, One(t), NULL, NULL, LastOr(pre, NULL), First(rest));
    ChainCat(d, One(t), rest, LastOr(pre, NULL), NULL, false);
    Joined(One(t), rest, NULL);
    MakeList(d, parent, pre, Cat(One(t), rest));
  }

  lemma NilChain(d: Cells, prev: Addr, next: Addr)
    ensures Chain(d, Nil, prev, next, false)
  {
  }

  /** One tree of a list, between the parts before and behind it. */
  lemma CutTree(c: Cells, parent: Addr, f: Forest, pre: Forest, t: Tree, post: Forest)
    requires Lists(c, parent, f) && f == Cat(pre, Sibling(t, post))
    ensures Ended(c, pre, NULL, t.at) && Ended(c, One(t), LastOr(pre, NULL), First(post)) && Ended(c, post, t.at, NULL)
    ensures Owned(pre) !! Owned(post) && Owned(One(t)) !! Owned(pre) + Owned(post)
    ensures Owned(One(t)) == TreeArea(t, false)
    ensures Owned(f) == Owned(pre) + Owned(One(t)) + Owned(post) && First(f) == FirstOr(pre, t.at)
    ensures LastOr(One(t), NULL) == t.at
  {
    CutList(c, parent, f, pre, Sibling(t, post));
    hide TreeAt, TreeApart, TreeArea, Area, Cat;
    assert Cat(One(t), post) == Sibling(t, post) by { OneCat(t, post); }
    ChainCat(c, One(t), post, LastOr(pre, NULL), NULL, false);
    Joined(One(t), post, NULL);
    OneIs(c, t, LastOr(pre, NULL), First(post));
    EndedIs(c, One(t), LastOr(pre, NULL), First(post));
    EndedIs(c, post, t.at, NULL);
  }

  lemma OneCat(t: Tree, post: Forest)
    ensures Cat(One(t), post) == Sibling(t, post)
  {
  }

  /** The tree has been taken out of the list and is linked to no sibling, and nothing else has changed. */
  predicate Detaches(c: Cells, d: Cells, parent: Addr, f: Forest, pre: Forest, t: Tree, post: Forest) {
    && Lists(d, parent, Cat(pre, post)) && Loose(d, parent, Cat(pre, post), t) && d.Keys == c.Keys
    && Owned(f) == Owned(Cat(pre, post)) + TreeArea(t, false)
    && OnlyInside(c, d, parent, Owned(f), FirstOr(pre, First(post)))
  }

  /** cJSON_DetachItemViaPointer: the tree leaves the list and is linked to no sibling. */
  method DetachItemViaPointer(m: Memory, parent: Addr, item: Addr, ghost f: Forest, ghost pre: Forest,
      ghost t: Tree, ghost post: Forest)
      returns (detached: Addr)
    requires parent != NULL && item != NULL ==>
      Lists(m.cells, parent, f) && f == Cat(pre, Sibling(t, post)) && item == t.at
    modifies m`cells
    ensures parent == NULL || item == NULL ==> detached == NULL && m.cells == old(m.cells)
    ensures parent != NULL && item != NULL ==> detached == item
    ensures parent != NULL && item != NULL ==> Detaches(old(m.cells), m.cells, parent, f, pre, t, post)
  {
    hide TreeAt, TreeApart, TreeArea, Chain, Apart, Area, Cat, LastOr, OnlyInside;
    if parent == NULL || item == NULL {
      return NULL;
    }
    CutTree(m.cells, parent, f, pre, t, post);
    Unlink(m, parent, item, pre, t, post);
    return item;
  }

  /** A tree in a list, between the parts before and behind it. */
  predicate Between(c: Cells, parent: Addr, pre: Forest, t: Tree, post: Forest) {
    && Ended(c, pre, NULL, t.at) && Ended(c, One(t), LastOr(pre, NULL), First(post)) && Ended(c, post, t.at, NULL)
    && LastOr(One(t), NULL) == t.at && Owned(pre) !! Owned(post) && Owned(One(t)) !! Owned(pre) + Owned(post)
    && parent != NULL && parent in c && c[parent].Node? && c[parent].child == FirstOr(pre, t.at)
    && parent !in Owned(pre) + Owned(post) + Owned(One(t))
  }

  /** The nodes beside a tree in a list. */
  function Neighbours(pre: Forest, post: Forest): set<Addr> {
    (if pre.Sibling? then {LastOr(pre, NULL)} else {}) + (if post.Sibling? then {post.head.at} else {})
  }

  /** The links that cJSON_DetachItemViaPointer sets. */
  method Unlink(m: Memory, parent: Addr, item: Addr, ghost pre: Forest, ghost t: Tree, ghost post: Forest)
    requires item == t.at && Between(m.cells, parent, pre, t, post)
    modifies m`cells
    ensures Lists(m.cells, parent, Cat(pre, post)) && Loose(m.cells, parent, Cat(pre, post), t)
    ensures m.cells.Keys == old(m.cells.Keys)
    ensures Owned(Cat(pre, post)) == Owned(pre) + Owned(post)
    ensures OnlyInside(old(m.cells), m.cells, parent, Owned(pre) + Owned(One(t)) + Owned(post),
      FirstOr(pre, First(post)))
  {
    hide TreeAt, TreeApart, TreeArea, Chain, Apart, Area, Cat, LastOr, Same, Lists, Loose, OnlyInside;
    ghost var c := m.cells;
    PrevOf(c, pre, NULL, item);
    var prev, next := m.cells[item].prev, m.cells[item].next;
    if prev != NULL {
      m.cells := WithNext(m.cells, prev, next);
    }
    if next != NULL {
      m.cells := WithPrev(m.cells, next, prev);
    }
    if item == m.cells[parent].child {
      m.cells := WithChild(m.cells, parent, next);
    }
    m.cells := WithPrev(m.cells, item, NULL);
    m.cells := WithNext(m.cells, item, NULL);
    Unlinked(c, m.cells, parent, pre, t, post);
  }

  lemma Unlinked(c: Cells, d: Cells, parent: Addr, pre: Forest, t: Tree, post: Forest)
    requires Between(c, parent, pre, t, post) && Elsewhere(c, d, {parent, t.at} + Neighbours(pre, post))
    requires pre.Sibling? ==> NextIs(c, d, LastOr(pre, NULL), First(post))
    requires post.Sibling? ==> PrevIs(c, d, post.head.at, LastOr(pre, NULL))
    requires LinksAre(c, d, t.at, NULL, NULL) && ChildIs(c, d, parent, FirstOr(pre, First(post)))
    ensures Lists(d, parent, Cat(pre, post)) && Loose(d, parent, Cat(pre, post), t)
    ensures Owned(Cat(pre, post)) == Owned(pre) + Owned(post)
    ensures OnlyInside(c, d, parent, Owned(pre) + Owned(One(t)) + Owned(post), FirstOr(pre, First(post)))
  {
    hide TreeAt, TreeApart, TreeArea, Chain, Apart, Area, Cat, LastOr, Same, Lists, Loose;
    var few := {parent, t.at} + Neighbours(pre, post);
    if pre.Sibling? {
      EndsAre(c, d, pre, NULL, First(post), few);
    }
    if post.Sibling? {
      EndsAre(c, d, post, LastOr(pre, NULL), NULL, few);
    }
    EndsAre(c, d, One(t), NULL, NULL, few);
    Detached(c, d, parent, pre, t, post);
  }

  /** The node before the end of a chain is NULL exactly if the chain is empty. */
  lemma PrevOf(c: Cells, f: Forest, prev: Addr, next: Addr)
    requires Ended(c, f, prev, next)
    ensures f.Nil? ==> LastOr(f, prev) == prev
    ensures f.Sibling? ==> LastOr(f, NULL) != NULL
  {
    hide TreeAt, TreeArea, TreeApart;
    if f.Sibling? {
      LastNotNull(c, f, prev, next);
    }
  }

  lemma {:induction false} LastNotNull(c: Cells, f: Forest, prev: Addr, next: Addr)
    requires f.Sibling? && Chain(c, f, prev, next, false)
    ensures LastOr(f, NULL) != NULL
    decreases f
  {
    hide TreeAt, TreeArea;
    NodeIs(c, f.head, prev, FirstOr(f.tail, next), false);
    if f.tail.Sibling? {
      LastNotNull(c, f.tail, f.head.at, next);
      LastIn(f.tail, f.head.at);
    }
  }

  lemma Detached(c: Cells, d: Cells, parent: Addr, pre: Forest, t: Tree, post: Forest)
    requires Between(c, parent, pre, t, post)
    requires parent in d && d[parent].Node? && d[parent].child == FirstOr(pre, First(post))
    requires pre.Sibling? ==> Same(Ends(c, pre, NULL, First(post)), d, Owned(pre))
    requires post.Sibling? ==> Same(Ends(c, post, LastOr(pre, NULL), NULL), d, Owned(post))
    requires Same(Ends(c, One(t), NULL, NULL), d, Owned(One(t)))
    ensures Lists(d, parent, Cat(pre, post)) && Loose(d, parent, Cat(pre, post), t)
    ensures Owned(Cat(pre, post)) == Owned(pre) + Owned(post)
  {
    hide TreeAt, TreeApart, TreeArea, Chain, Apart, Area;
    NilChain(d, NULL, First(post));
    NilChain(d, LastOr(pre, NULL), NULL);
    if pre.Sibling? {
      Relink(c, d, pre, NULL, t.at, NULL, First(post));
    }
    if post.Sibling? {
      Relink(c, d, post, t.at, NULL, LastOr(pre, NULL), NULL);
    }
    Relink(c, d, One(t), LastOr(pre, NULL), First(post), NULL, NULL);
    MakeList(d, parent, pre, post);
    OneIs(d, t, NULL, NULL);
  }

  /** cJSON_DetachItemFromArray: the tree at the index leaves the list; past the end nothing happens. */
  method DetachItemFromArray(m: Memory, parent: Addr, which: int, ghost f: Forest)
      returns (detached: Addr, ghost pre: Forest, ghost rest: Forest)
    requires parent != NULL ==> Lists(m.cells, parent, f)
    modifies m`cells
    ensures parent == NULL || which < 0 || which >= Length(f) ==> detached == NULL && m.cells == old(m.cells)
    ensures parent != NULL && 0 <= which < Length(f) ==>
      && f == Cat(pre, rest) && Length(pre) == which && rest.Sibling? && detached == rest.head.at
      && Detaches(old(m.cells), m.cells, parent, f, pre, rest.head, rest.tail)
  {
    if which < 0 {
      return NULL, Nil, Nil;
    }
    hide TreeAt, TreeApart, TreeArea, Chain, Apart, Area, LastOr, Detaches;
    var item;
    item, pre, rest := GetArrayItem(m, parent, which, f);
    if parent != NULL {
      CursorNode(m.cells, f, pre, rest, item);
      LengthCat(pre, rest);
    }
    if item == NULL {
      return NULL, Nil, Nil;
    }
    detached := DetachItemViaPointer(m, parent, item, f, pre, rest.head, rest.tail);
  }

  /** cJSON_ReplaceItemViaPointer: the replacement takes the place of the tree, which is deleted. */
  method ReplaceItemViaPointer(m: Memory, parent: Addr, item: Addr, replacement: Addr,
                               ghost f: Forest, ghost pre: Forest, ghost t: Tree, ghost post: Forest, ghost r: Tree)
                                 returns (ok: bool)
    requires parent != NULL && item != NULL && replacement != NULL ==>
      && Lists(m.cells, parent, f) && f == Cat(pre, Sibling(t, post)) && item == t.at && replacement == r.at
      && (r == t || Loose(m.cells, parent, f, r))
    modifies m`cells
    ensures ok <==> parent != NULL && item != NULL && replacement != NULL
    ensures !ok || item == replacement ==> m.cells == old(m.cells)
    ensures ok ==> Lists(m.cells, parent, Cat(pre, Sibling(r, post)))
    ensures ok && item != replacement ==> m.cells.Keys == old(m.cells.Keys) - TreeArea(t, false)
    ensures ok ==> OnlyInside(old(m.cells), m.cells, parent, Owned(f) + TreeArea(r, false), FirstOr(pre, replacement))
  {
    hide TreeAt, TreeApart, TreeArea, Chain, Apart, Area, Cat, LastOr, Same;
    if parent == NULL || replacement == NULL || item == NULL {
      return false;
    }
    ghost var c := m.cells;
    CutTree(c, parent, f, pre, t, post);
    if replacement == item {
      if r != t {
        NodeIn(r);
        NodeIn(t);
      }
      return true;
    }
    Alone(c, parent, f, r);
    PutInstead(m, parent, item, replacement, pre, t, post, r);
    ghost var d := m.cells;
    m.Delete(item, One(t), NULL);
    StillLists(d, m.cells, parent, Cat(pre, Sibling(r, post)));
    ok := true;
  }

  /** A tree in a list, and another one that stands apart from the list. */
  predicate Beside(c: Cells, parent: Addr, pre: Forest, t: Tree, post: Forest, r: Tree) {
    && Between(c, parent, pre, t, post) && Ended(c, One(r), NULL, NULL) && LastOr(One(r), NULL) == r.at
    && Owned(One(r)) !! Owned(pre) + Owned(post) + Owned(One(t)) + {parent}
  }

  /** The links that cJSON_ReplaceItemViaPointer sets. */
  method PutInstead(m: Memory, parent: Addr, item: Addr, replacement: Addr, ghost pre: Forest, ghost t: Tree,
      ghost post: Forest, ghost r: Tree)
    requires item == t.at && replacement == r.at && Beside(m.cells, parent, pre, t, post, r)
    modifies m`cells
    ensures Lists(m.cells, parent, Cat(pre, Sibling(r, post))) && m.cells.Keys == old(m.cells.Keys)
    ensures Chain(m.cells, One(t), NULL, NULL, false) && Apart(One(t))
    ensures Owned(Cat(pre, Sibling(r, post))) == Owned(pre) + Owned(One(r)) + Owned(post)
    ensures OnlyInside(old(m.cells), m.cells, parent,
      Owned(pre) + Owned(One(t)) + Owned(post) + Owned(One(r)), FirstOr(pre, replacement))
  {
    hide TreeAt, TreeApart, TreeArea, Chain, Apart, Area, Cat, LastOr, Same, Lists, Loose;
    ghost var c := m.cells;
    PrevOf(c, pre, NULL, item);
    var prev, next := m.cells[item].prev, m.cells[item].next;
    m.cells := WithNext(m.cells, replacement, next);
    m.cells := WithPrev(m.cells, replacement, prev);
    if next != NULL {
      m.cells := WithPrev(m.cells, next, replacement);
    }
    if prev != NULL {
      m.cells := WithNext(m.cells, prev, replacement);
    }
    if m.cells[parent].child == item {
      m.cells := WithChild(m.cells, parent, replacement);
    }
    m.cells := WithNext(m.cells, item, NULL);
    m.cells := WithPrev(m.cells, item, NULL);
    Replaced(c, m.cells, parent, pre, t, post, r);
  }

  lemma Replaced(c: Cells, d: Cells, parent: Addr, pre: Forest, t: Tree, post: Forest, r: Tree)
    requires Beside(c, parent, pre, t, post, r) && Elsewhere(c, d, {parent, t.at, r.at} + Neighbours(pre, post))
    requires pre.Sibling? ==> NextIs(c, d, LastOr(pre, NULL), r.at)
    requires post.Sibling? ==> PrevIs(c, d, post.head.at, r.at)
    requires LinksAre(c, d, t.at, NULL, NULL) && LinksAre(c, d, r.at, LastOr(pre, NULL), First(post))
    requires ChildIs(c, d, parent, FirstOr(pre, r.at))
    ensures Lists(d, parent, Cat(pre, Sibling(r, post))) && Chain(d, One(t), NULL, NULL, false) && Apart(One(t))
    ensures Owned(Cat(pre, Sibling(r, post))) == Owned(pre) + Owned(One(r)) + Owned(post)
    ensures OnlyInside(c, d, parent, Owned(pre) + Owned(One(t)) + Owned(post) + Owned(One(r)), FirstOr(pre, r.at))
  {
    hide TreeAt, TreeApart, TreeArea, Chain, Apart, Area, Cat, LastOr, Same, Lists;
    var few := {parent, t.at, r.at} + Neighbours(pre, post);
    if pre.Sibling? {
      EndsAre(c, d, pre, NULL, r.at, few);
    }
    if post.Sibling? {
      EndsAre(c, d, post, r.at, NULL, few);
    }
    EndsAre(c, d, One(t), NULL, NULL, few);
    EndsAre(c, d, One(r), LastOr(pre, NULL), First(post), few);
    Relinks(c, d, parent, pre, t, post, r);
  }

  lemma Relinks(c: Cells, d: Cells, parent: Addr, pre: Forest, t: Tree, post: Forest, r: Tree)
    requires Beside(c, parent, pre, t, post, r)
    requires parent in d && d[parent].Node? && d[parent].child == FirstOr(pre, r.at)
    requires pre.Sibling? ==> Same(Ends(c, pre, NULL, r.at), d, Owned(pre))
    requires post.Sibling? ==> Same(Ends(c, post, r.at, NULL), d, Owned(post))
    requires Same(Ends(c, One(t), NULL, NULL), d, Owned(One(t)))
    requires Same(Ends(c, One(r), LastOr(pre, NULL), First(post)), d, Owned(One(r)))
    ensures Lists(d, parent, Cat(pre, Sibling(r, post))) && Chain(d, One(t), NULL, NULL, false) && Apart(One(t))
    ensures Owned(Cat(pre, Sibling(r, post))) == Owned(pre) + Owned(One(r)) + Owned(post)
  {
    hide TreeAt, TreeApart, TreeArea, Chain, Apart, Area;
    NilChain(d, NULL, r.at);
    NilChain(d, r.at, NULL);
    if pre.Sibling? {
      Relink(c, d, pre, NULL, t.at, NULL, r.at);
    }
    if post.Sibling? {
      Relink(c, d, post, t.at, NULL, r.at, NULL);
    }
    Relink(c, d, One(t), LastOr(pre, NULL), First(post), NULL, NULL);
    Relink(c, d, One(r), NULL, NULL, LastOr(pre, NULL), First(post));
    OneCat(r, post);
    ChainCat(d, One(r), post, LastOr(pre, NULL), NULL, false);
    Joined(One(r), post, NULL);
    MakeList(d, parent, pre, Cat(One(r), post));
  }

  /** Freeing what a list does not own leaves the list in place. */
  lemma StillLists(c: Cells, d: Cells, parent: Addr, f: Forest)
    requires Lists(c, parent, f) && parent in d && d[parent] == c[parent] && Owned(f) <= d.Keys && forall a | a in d ::
      a in c && d[a] == c[a]
    ensures Lists(d, parent, f)
  {
    hide Chain, Apart, Area;
    AreaLive(c, f, NULL, NULL, false);
    Frame(c, d, f, NULL, NULL, false);
  }

  // ----- the document around an edited list -----

  /** The node at `a` is one that the tree owns, and its children are `f`. */
  predicate Holds(t: Tree, a: Addr, f: Forest)
    decreases t, 0
  {
    !t.isReference && ((t.at == a && t.children == f) || HoldsIn(t.children, a, f))
  }

  predicate HoldsIn(g: Forest, a: Addr, f: Forest)
    decreases g, 1
  {
    g.Sibling? && (Holds(g.head, a, f) || HoldsIn(g.tail, a, f))
  }

  /** The tree with other children at the node at `a`. */
  function Rehung(t: Tree, a: Addr, f: Forest): Tree
    decreases t, 0
  {
    if t.isReference then t
    else if t.at == a then t.(children := f)
    else t.(children := RehungIn(t.children, a, f))
  }

  function RehungIn(g: Forest, a: Addr, f: Forest): (r: Forest)
    ensures FirstOr(r, NULL) == FirstOr(g, NULL)
    decreases g, 1
  {
    if g.Nil? then Nil else Sibling(Rehung(g.head, a, f), RehungIn(g.tail, a, f))
  }

  /** What a tree holds is part of it. */
  lemma {:induction false} HeldArea(t: Tree, a: Addr, f: Forest)
    requires Holds(t, a, f)
    ensures a in TreeArea(t, false) && Owned(f) <= TreeArea(t, false)
    ensures t.at != a ==> HoldsIn(t.children, a, f)
    decreases t, 0
  {
    if HoldsIn(t.children, a, f) {
      HeldAreaIn(t.children, a, f);
    }
  }

  lemma {:induction false} HeldAreaIn(g: Forest, a: Addr, f: Forest)
    requires HoldsIn(g, a, f)
    ensures a in Owned(g) && Owned(f) <= Owned(g)
    decreases g, 1
  {
    if Holds(g.head, a, f) {
      HeldArea(g.head, a, f);
    } else {
      HeldAreaIn(g.tail, a, f);
    }
  }

  /** An edit of the list at one node of a tree leaves the tree in place with the edited list at that node. */
  lemma {:induction false} EditInTree(c: Cells, d: Cells, t: Tree, prev: Addr, next: Addr, a: Addr, f: Forest,
      g: Forest, extra: set<Addr>)
    requires TreeAt(c, t, prev, next, false) && TreeApart(t) && Holds(t, a, f) && Lists(d, a, g)
    requires OnlyInside(c, d, a, Owned(f) + extra, First(g)) && extra !! TreeArea(t, false)
    ensures TreeAt(d, Rehung(t, a, g), prev, next, false)
    decreases t, 0
  {
    if t.at == a {
      if HoldsIn(t.children, a, f) {
        HeldAreaIn(t.children, a, f);
      }
    } else {
      HeldArea(t, a, f);
      HeldAreaIn(t.children, a, f);
      EditInForest(c, d, t.children, NULL, NULL, a, f, g, extra);
    }
  }

  lemma {:induction false} EditInForest(c: Cells, d: Cells, h: Forest, prev: Addr, next: Addr, a: Addr, f: Forest,
      g: Forest, extra: set<Addr>)
    requires Chain(c, h, prev, next, false) && Apart(h) && HoldsIn(h, a, f) && Lists(d, a, g)
    requires OnlyInside(c, d, a, Owned(f) + extra, First(g)) && extra !! Owned(h)
    ensures Chain(d, RehungIn(h, a, g), prev, next, false)
    decreases h, 1
  {
    AreaLive(c, h, prev, next, false);
    if Holds(h.head, a, f) {
      HeldArea(h.head, a, f);
      EditInTree(c, d, h.head, prev, FirstOr(h.tail, next), a, f, g, extra);
      Frame(c, d, h.tail, h.head.at, next, false);
      Unheld(h.tail, a, g);
    } else {
      HeldAreaIn(h.tail, a, f);
      FrameTree(c, d, h.head, prev, FirstOr(h.tail, next), false);
      EditInForest(c, d, h.tail, h.head.at, next, a, f, g, extra);
      UnheldTree(h.head, a, g);
    }
  }

  /** The tree with an edited list still owns nothing twice, so that it can be edited again. */
  lemma {:induction false} EditApart(t: Tree, a: Addr, f: Forest, g: Forest)
    requires TreeApart(t) && Holds(t, a, f) && Apart(g) && a !in Owned(g) && Owned(g) !! TreeArea(t, false) - Owned(f)
    ensures TreeApart(Rehung(t, a, g)) && TreeArea(Rehung(t, a, g), false) == TreeArea(t, false) - Owned(f) + Owned(g)
    decreases t, 0
  {
    HeldArea(t, a, f);
    hide Holds, HoldsIn, RehungIn, Apart, Area;
    if HoldsIn(t.children, a, f) {
      HeldAreaIn(t.children, a, f);
    }
    if t.at != a {
      EditApartIn(t.children, a, f, g);
    }
  }

  lemma {:induction false} EditApartIn(h: Forest, a: Addr, f: Forest, g: Forest)
    requires Apart(h) && HoldsIn(h, a, f) && Apart(g) && a !in Owned(g) && Owned(g) !! Owned(h) - Owned(f)
    ensures Apart(RehungIn(h, a, g)) && Owned(RehungIn(h, a, g)) == Owned(h) - Owned(f) + Owned(g)
    decreases h, 1
  {
    if Holds(h.head, a, f) {
      HeldArea(h.head, a, f);
      EditApart(h.head, a, f, g);
      Unheld(h.tail, a, g);
    } else {
      HeldAreaIn(h.tail, a, f);
      EditApartIn(h.tail, a, f, g);
      UnheldTree(h.head, a, g);
    }
  }

  lemma {:induction false} UnheldTree(t: Tree, a: Addr, f: Forest)
    requires a !in TreeArea(t, false)
    ensures Rehung(t, a, f) == t
    decreases t, 0
  {
    if !t.isReference {
      Unheld(t.children, a, f);
    }
  }

  lemma {:induction false} Unheld(g: Forest, a: Addr, f: Forest)
    requires a !in Owned(g)
    ensures RehungIn(g, a, f) == g
    decreases g, 1
  {
    if g.Sibling? {
      UnheldTree(g.head, a, f);
      Unheld(g.tail, a, f);
    }
  }
}
