/** Deep copies: a new tree that owns everything it needs, or no change at all when memory runs out. */
module CJsonDuplicate {
  import opened CJsonMemory
  import opened CJsonParser
  import E = CJsonEdit
  import C = CJsonCompare

  /** The copy is no reference anywhere, and the constant keys that it shares are there to be read. */
  predicate Solid(base: Cells, t: Tree)
    decreases t, 0
  {
    !t.isReference && (t.constKey ==> TextAt(base, t.key, t.name)) && AllSolid(base, t.children)
  }

  predicate AllSolid(base: Cells, f: Forest)
    decreases f, 1
  {
    match f
    case Nil => true
    case Sibling(t, rest) => Solid(base, t) && AllSolid(base, rest)
  }

  /** All of `base` is still there. */
  predicate Keeps(base: Cells, cells: Cells) {
    forall a | a in base :: a in cells && cells[a] == base[a]
  }

  /** A solid tree can be read deeply. */
  lemma {:induction false} SolidReads(base: Cells, cells: Cells, t: Tree, prev: Addr, next: Addr)
    requires TreeAt(cells, t, prev, next, false) && Solid(base, t) && Keeps(base, cells)
    ensures TreeAt(cells, t, prev, next, true)
    decreases t, 0
  {
    AllSolidReads(base, cells, t.children, NULL, NULL);
  }

  lemma {:induction false} AllSolidReads(base: Cells, cells: Cells, f: Forest, prev: Addr, next: Addr)
    requires Chain(cells, f, prev, next, false) && AllSolid(base, f) && Keeps(base, cells)
    ensures Chain(cells, f, prev, next, true)
    decreases f, 1
  {
    if f.Sibling? {
      SolidReads(base, cells, f.head, prev, FirstOr(f.tail, next));
      AllSolidReads(base, cells, f.tail, f.head.at, next);
    }
  }

  lemma {:induction false} SolidCat(base: Cells, f: Forest, t: Tree)
    requires AllSolid(base, f) && Solid(base, t)
    ensures AllSolid(base, Cat(f, One(t)))
    decreases f
  {
    hide Solid;
    if f.Sibling? {
      SolidCat(base, f.tail, t);
    } else {
      assert AllSolid(base, Nil);
    }
  }

  /** The copy of an item with no children yet. */
  function Stub(t: Tree, at: Addr): Tree {
    Tree(at, t.kind, false, t.constKey, t.number, NULL, [], NULL, [], Nil)
  }

  /** cJSON_strdup */
  method Strdup(m: Memory, text: Addr, ghost since: nat) returns (copy: Addr)
    requires m.Fine(since) && (text != NULL ==> text in m.cells && m.cells[text].Block?)
    modifies m
    ensures m.asked >= old(m.asked) && (text == NULL ==> copy == NULL && m.Fine(since))
    ensures text != NULL ==> (copy == NULL <==> !m.Fine(since))
    ensures copy == NULL ==> m.cells == old(m.cells)
    ensures text != NULL && copy != NULL ==> copy !in old(m.cells)
    ensures text != NULL && copy != NULL ==> m.cells == old(m.cells)[copy := old(m.cells)[text]]
  {
    if text == NULL {
      return NULL;
    }
    copy := m.Allocate(m.cells[text]);
  }

  /** A tree alone at the end of what has been built. */
  lemma BuiltOne(start: Cells, c: Cells, t: Tree)
    ensures Built(start, c, One(t)) <==>
      && TreeAt(c, t, NULL, NULL, false) && TreeApart(t) && TreeArea(t, false) !! start.Keys
      && c.Keys == start.Keys + TreeArea(t, false) && Keeps(start, c)
  {
    E.OneIs(c, t, NULL, NULL);
  }

  /** A new string for a node that has none there. */
  lemma ValueCopied(start: Cells, c: Cells, d: Cells, t: Tree, u: Tree)
    requires Built(start, c, One(t)) && t.value == NULL && !t.isReference && u.value != NULL && u.value !in c
    requires t.at in c && c[t.at].Node?
    requires u == t.(value := u.value, text := u.text)
    requires d == c[u.value := Block(u.text)][t.at := c[t.at].(value := u.value)]
    requires t.children.Nil?
    ensures Built(start, d, One(u))
  {
    BuiltOne(start, c, t);
    BuiltOne(start, d, u);
    NilArea();
  }

  lemma KeyCopied(start: Cells, c: Cells, d: Cells, t: Tree, u: Tree)
    requires Built(start, c, One(t)) && t.key == NULL && !t.isReference && !t.constKey && u.key != NULL && u.key !in c
    requires t.at in c && c[t.at].Node?
    requires u == t.(key := u.key, name := u.name) && d == c[u.key := Block(u.name)][t.at := c[t.at].(key := u.key)]
    requires t.children.Nil?
    ensures Built(start, d, One(u))
  {
    BuiltOne(start, c, t);
    BuiltOne(start, d, u);
    NilArea();
  }

  lemma KeyShared(start: Cells, c: Cells, d: Cells, t: Tree, u: Tree)
    requires Built(start, c, One(t)) && t.constKey && t.at in c && c[t.at].Node? && t.children.Nil? && !t.isReference
    requires u == t.(key := u.key, name := u.name) && d == c[t.at := c[t.at].(key := u.key)]
    ensures Built(start, d, One(u))
  {
    BuiltOne(start, c, t);
    BuiltOne(start, d, u);
    NilArea();
  }

  /** A new node. */
  lemma StubBuilt(start: Cells, c: Cells, t: Tree, at: Addr)
    requires at != NULL && at !in start
    requires c == start[at := Node(NULL, NULL, NULL, t.kind, false, t.constKey, t.number, NULL, NULL)]
    ensures Built(start, c, One(Stub(t, at)))
  {
    BuiltOne(start, c, Stub(t, at));
    NilArea();
    assert TreeArea(Stub(t, at), false) == {at};
    assert TreeApart(Stub(t, at));
  }

  /** A tree and its copy, node by node. */
  predicate Copies(t: Tree, u: Tree)
    decreases t, 0
  {
    CopiesNode(t, u) && AllCopies(t.children, u.children)
  }

  predicate CopiesNode(t: Tree, u: Tree) {
    && t.kind == u.kind && t.number == u.number && t.text == u.text && t.name == u.name && t.constKey == u.constKey
    && (t.value == NULL <==> u.value == NULL) && (t.key == NULL <==> u.key == NULL) && !u.isReference
    && (t.constKey ==> u.key == t.key)
  }

  predicate AllCopies(f: Forest, g: Forest)
    decreases f, 1
  {
    match f
    case Nil => g.Nil?
    case Sibling(t, rest) => g.Sibling? && Copies(t, g.head) && AllCopies(rest, g.tail)
  }

  /** A copy means the same, and is as proper as its source. */
  lemma {:induction false} CopyMeans(t: Tree, u: Tree)
    requires Copies(t, u)
    ensures TreeItem(t) == TreeItem(u) && (C.Proper(t) <==> C.Proper(u))
    decreases t, 0
  {
    AllCopiesMean(t.children, u.children);
  }

  lemma {:induction false} AllCopiesMean(f: Forest, g: Forest)
    requires AllCopies(f, g)
    ensures ForestItems(f) == ForestItems(g) && ForestFields(f) == ForestFields(g)
    ensures (C.AllProper(f) <==> C.AllProper(g)) && (C.AllNamed(f) <==> C.AllNamed(g))
    decreases f, 1
  {
    hide TreeItem, C.Proper;
    if f.Sibling? {
      CopyMeans(f.head, g.head);
      AllCopiesMean(f.tail, g.tail);
    }
  }

  lemma {:induction false} CopiesCat(f: Forest, g: Forest, t: Tree, u: Tree)
    requires AllCopies(f, g) && Copies(t, u)
    ensures AllCopies(Cat(f, One(t)), Cat(g, One(u)))
    decreases f
  {
    hide Copies;
    if f.Sibling? {
      CopiesCat(f.tail, g.tail, t, u);
    } else {
      assert AllCopies(Nil, Nil);
    }
  }

  /** The part of cJSON_Duplicate in front of the children; without memory for all of it, nothing is left. */
  method CopyNode(m: Memory, item: Addr, ghost base: Cells, ghost t: Tree, ghost p: Addr, ghost n: Addr,
      ghost since: nat)
      returns (copy: Addr, ghost u: Tree)
    requires m.Fine(since) && Keeps(base, m.cells) && item == t.at && TreeAt(base, t, p, n, true)
    modifies m
    ensures (copy == NULL <==> !m.Fine(since)) && m.asked >= old(m.asked)
    ensures copy == NULL ==> m.cells == old(m.cells)
    ensures copy != NULL ==> u.at == copy && Built(old(m.cells), m.cells, One(u)) && CopiesNode(t, u) && u.children.Nil?
  {
    hide TreeAt, TreeApart, Chain, Apart, Built;
    ghost var start := m.cells;
    u := t;
    C.TreeReads(base, t, p, n);
    var node := m.cells[item];
    copy := m.Allocate(BLANK);
    if copy == NULL {
      return;
    }
    m.cells := m.cells[copy := BLANK.(kind := node.kind, constKey := node.constKey, number := node.number)];
    u := Stub(t, copy);
    StubBuilt(start, m.cells, t, copy);
    if node.value != NULL {
      CopyAt(start, m.cells, u);
      ghost var c := m.cells;
      var value := Strdup(m, node.value, since);
      if value == NULL {
        DeleteCopy(m, copy, start, u);
        copy := NULL;
        return;
      }
      m.cells := m.cells[copy := m.cells[copy].(value := value)];
      ValueCopied(start, c, m.cells, u, u.(value := value, text := t.text));
      u := u.(value := value, text := t.text);
    }
    if node.key != NULL {
      if node.constKey {
        CopyAt(start, m.cells, u);
        ghost var c := m.cells;
        m.cells := m.cells[copy := m.cells[copy].(key := node.key)];
        KeyShared(start, c, m.cells, u, u.(key := node.key, name := t.name));
        u := u.(key := node.key, name := t.name);
      } else {
        CopyAt(start, m.cells, u);
        ghost var c := m.cells;
        var key := Strdup(m, node.key, since);
        if key == NULL {
          DeleteCopy(m, copy, start, u);
          copy := NULL;
          return;
        }
        m.cells := m.cells[copy := m.cells[copy].(key := key)];
        KeyCopied(start, c, m.cells, u, u.(key := key, name := t.name));
        u := u.(key := key, name := t.name);
      }
    }
  }

  /** What stands at the copy, and that the older memory is still there. */
  lemma CopyAt(start: Cells, c: Cells, u: Tree)
    requires Built(start, c, One(u))
    ensures NodeAt(c, u, NULL, NULL) && Keeps(start, c) && u.at !in start
  {
    BuiltOne(start, c, u);
  }

  /** cJSON_Delete of an unfinished copy. */
  method DeleteCopy(m: Memory, copy: Addr, ghost start: Cells, ghost u: Tree)
    requires copy == u.at && Built(start, m.cells, One(u))
    modifies m`cells
    ensures m.cells == start
  {
    hide Chain, Apart, Area;
    Unbuilt(start, m.cells, One(u));
    m.Delete(copy, One(u), NULL);
  }

  /**
   * cJSON_Duplicate: a copy that owns new memory only, or NULL and memory as it was, exactly if a request for memory
   * is refused. Nothing has been refused since the request numbered `since`.
   */
  method Duplicate(m: Memory, item: Addr, recurse: bool, ghost base: Cells, ghost t: Tree, ghost p: Addr, ghost n: Addr,
      ghost since: nat)
      returns (copy: Addr, ghost u: Tree)
    requires m.Fine(since) && Keeps(base, m.cells) && (item != NULL ==> item == t.at && TreeAt(base, t, p, n, true))
    modifies m
    ensures m.asked >= old(m.asked) && (item == NULL ==> copy == NULL && m.Fine(since))
    ensures item != NULL ==> (copy == NULL <==> !m.Fine(since))
    ensures copy == NULL ==> m.cells == old(m.cells)
    ensures copy != NULL ==> u.at == copy && Built(old(m.cells), m.cells, One(u)) && Solid(base, u)
    ensures copy != NULL ==> if recurse then Copies(t, u) else CopiesNode(t, u) && u.children.Nil?
    decreases t
  {
    hide TreeAt, TreeApart, Chain, Apart, Built, Solid, C.Reads, Copies, LastOr;
    u := t;
    if item == NULL {
      return NULL, t;
    }
    ghost var start := m.cells;
    copy, u := CopyNode(m, item, base, t, p, n, since);
    C.TreeReads(base, t, p, n);
    if copy == NULL {
      return;
    }
    ghost var stub := u;
    NodeSolid(base, t, stub, Nil);
    if !recurse {
      return;
    }
    CopyAt(start, m.cells, u);
    var child := m.cells[item].child;
    var next := NULL;
    ghost var done, rest, prev, f := Nil, t.children, NULL, Nil;
    C.ReadsNode(base, child, rest, prev);
    NoTrees();
    while child != NULL
      invariant m.Fine(since) && m.asked >= old(m.asked) && C.Reads(base, child, rest, prev)
        && (child == NULL <==> rest.Nil?) && t.children == Cat(done, rest)
      invariant rest == t.children || rest < t.children
      invariant u == stub.(children := f) && Built(start, m.cells, One(u)) && next == LastOr(f, NULL)
      invariant Keeps(start, m.cells) && AllCopies(done, f) && AllSolid(base, f)
      decreases rest
    {
      C.ReadsNode(base, child, rest, prev);
      ghost var c := m.cells;
      var newchild;
      ghost var w;
      newchild, w := Duplicate(m, child, true, base, rest.head, prev, First(rest.tail), since);
      if newchild == NULL {
        DeleteCopy(m, copy, start, u);
        copy := NULL;
        return;
      }
      LinkChild(m, copy, next, newchild, start, c, u, w);
      SolidCat(base, f, w);
      CopiesCat(done, f, rest.head, w);
      CatAssoc(done, One(rest.head), rest.tail);
      E.LastOfCat(f, One(w), NULL);
      LastOne(w, LastOr(f, NULL));
      done, f := Cat(done, One(rest.head)), Cat(f, One(w));
      u := stub.(children := f);
      CopyAt(start, m.cells, u);
      next := newchild;
      prev, rest, child := child, rest.tail, m.cells[child].next;
      C.ReadsNode(base, child, rest, prev);
    }
    CatNil(done);
    NodeSolid(base, t, stub, f);
  }

  lemma NoTrees()
    ensures Cat(Nil, Nil) == Nil && AllCopies(Nil, Nil) && LastOr(Nil, NULL) == NULL
    ensures forall f: Forest {:trigger Cat(Nil, f)} :: Cat(Nil, f) == f
    ensures forall base: Cells {:trigger AllSolid(base, Nil)} :: AllSolid(base, Nil)
  {
  }

  lemma LastOne(w: Tree, other: Addr)
    ensures LastOr(One(w), other) == w.at
  {
  }

  /** With copied children, a copied node is a copied tree. */
  lemma NodeSolid(base: Cells, t: Tree, stub: Tree, f: Forest)
    requires CopiesNode(t, stub) && (stub.constKey ==> stub.key == t.key && TextAt(base, t.key, t.name))
      && AllSolid(base, f)
    ensures Solid(base, stub.(children := f))
    ensures AllCopies(t.children, f) ==> Copies(t, stub.(children := f))
  {
  }

  /** The new child at the end of the children of the copy. */
  method LinkChild(m: Memory, copy: Addr, next: Addr, newchild: Addr, ghost start: Cells, ghost c: Cells,
      ghost u: Tree, ghost w: Tree)
    requires copy == u.at && newchild == w.at && next == LastOr(u.children, NULL) && !u.isReference
    requires Built(start, c, One(u)) && Built(c, m.cells, One(w))
    modifies m`cells
    ensures Built(start, m.cells, One(u.(children := Cat(u.children, One(w)))))
  {
    hide TreeAt, TreeApart, Chain, Apart, Built, LastOr, Area;
    ghost var c1 := m.cells;
    CopyAt(start, c, u);
    CopyAt(c, c1, w);
    ChildEnds(start, c, c1, u);
    if next != NULL {
      m.cells := E.WithNext(m.cells, next, newchild);
      m.cells := E.WithPrev(m.cells, newchild, next);
    } else {
      m.cells := E.WithChild(m.cells, copy, newchild);
    }
    ChildLinked(start, c, c1, m.cells, u, w);
  }

  lemma ChildEnds(start: Cells, c: Cells, c1: Cells, u: Tree)
    requires Built(start, c, One(u)) && Keeps(c, c1) && !u.isReference
    ensures Chain(c1, u.children, NULL, NULL, false) && Apart(u.children) && Owned(u.children) <= c.Keys
    ensures u.children.Nil? <==> LastOr(u.children, NULL) == NULL
    ensures u.children.Sibling? ==> LastOr(u.children, NULL) in c1 && c1[LastOr(u.children, NULL)].Node?
    ensures u.children.Sibling? ==> LastOr(u.children, NULL) in Owned(u.children) && u.at !in Owned(u.children)
  {
    BuiltOne(start, c, u);
    var f := u.children;
    assert Chain(c, f, NULL, NULL, false) && Apart(f) && u.at !in Owned(f);
    hide TreeAt, TreeApart, TreeArea, Chain, Apart;
    AreaLive(c, f, NULL, NULL, false);
    Frame(c, c1, f, NULL, NULL, false);
    if f.Sibling? {
      E.EndsIn(c1, f, NULL, NULL);
      E.LastNotNull(c1, f, NULL, NULL);
    }
  }

  /** The tree `w` has been linked behind the children of `u`. */
  predicate Links(start: Cells, c: Cells, c1: Cells, d: Cells, u: Tree, w: Tree) {
    && Built(start, c, One(u)) && Built(c, c1, One(w)) && !u.isReference
    && w.at in c1 && c1[w.at].Node? && u.at in c1 && c1[u.at].Node?
    && if u.children.Nil? then d == E.WithChild(c1, u.at, w.at)
       else
         && LastOr(u.children, NULL) in c1 && c1[LastOr(u.children, NULL)].Node?
         && d == E.WithPrev(E.WithNext(c1, LastOr(u.children, NULL), w.at), w.at, LastOr(u.children, NULL))
  }

  lemma ChildLinked(start: Cells, c: Cells, c1: Cells, d: Cells, u: Tree, w: Tree)
    requires Links(start, c, c1, d, u, w)
    ensures Built(start, d, One(u.(children := Cat(u.children, One(w)))))
  {
    BuiltOne(start, c, u);
    BuiltOne(c, c1, w);
    ChildEnds(start, c, c1, u);
    ChildrenLinked(start, c, c1, d, u, w);
    TreeGrown(start, c, c1, d, u, w);
    ApartGrown(start, c, c1, u, w);
    AreaGrown(start, c, c1, d, u, w);
    BuiltOne(start, d, u.(children := Cat(u.children, One(w))));
  }

  lemma ChildrenLinked(start: Cells, c: Cells, c1: Cells, d: Cells, u: Tree, w: Tree)
    requires Links(start, c, c1, d, u, w)
    ensures Chain(d, Cat(u.children, One(w)), NULL, NULL, false) && Apart(Cat(u.children, One(w)))
    ensures Owned(Cat(u.children, One(w))) == Owned(u.children) + TreeArea(w, false)
    ensures First(Cat(u.children, One(w))) == FirstOr(u.children, w.at)
  {
    OwnedNode(start, c, u);
    BuiltOne(c, c1, w);
    ChildEnds(start, c, c1, u);
    hide TreeAt, TreeApart, TreeArea, Chain, Apart, Area, Built;
    E.OneIs(c1, w, NULL, NULL);
    ListGrown(c1, d, u.at, u.children, w);
  }

  lemma OwnedNode(start: Cells, c: Cells, u: Tree)
    requires Built(start, c, One(u)) && !u.isReference
    ensures u.at in c && u.at !in Owned(u.children) && Owned(u.children) <= c.Keys
  {
    BuiltOne(start, c, u);
  }

  /** A list and a tree apart from it, linked together. */
  lemma ListGrown(c1: Cells, d: Cells, parent: Addr, f: Forest, w: Tree)
    requires Chain(c1, f, NULL, NULL, false) && Apart(f) && Chain(c1, One(w), NULL, NULL, false) && Apart(One(w))
    requires Owned(One(w)) == TreeArea(w, false) && Owned(f) !! Owned(One(w)) && parent !in Owned(f) + Owned(One(w))
    requires parent in c1 && c1[parent].Node? && w.at in c1 && c1[w.at].Node?
    requires f.Nil? ==> d == E.WithChild(c1, parent, w.at)
    requires f.Sibling? ==> LastOr(f, NULL) in c1 && c1[LastOr(f, NULL)].Node?
    requires f.Sibling? ==> d == E.WithPrev(E.WithNext(c1, LastOr(f, NULL), w.at), w.at, LastOr(f, NULL))
    ensures Chain(d, Cat(f, One(w)), NULL, NULL, false) && Apart(Cat(f, One(w)))
    ensures Owned(Cat(f, One(w))) == Owned(f) + TreeArea(w, false) && First(Cat(f, One(w))) == FirstOr(f, w.at)
  {
    hide TreeAt, TreeApart, TreeArea, Chain, Apart, Area;
    E.EndsIn(c1, One(w), NULL, NULL);
    E.Joined(f, One(w), NULL);
    if f.Nil? {
      E.Relink(c1, d, One(w), NULL, NULL, NULL, NULL);
    } else {
      E.EndsIn(c1, f, NULL, NULL);
      E.Relink(c1, d, f, NULL, NULL, NULL, w.at);
      E.Relink(c1, d, One(w), NULL, NULL, LastOr(f, NULL), NULL);
    }
    ChainCat(d, f, One(w), NULL, NULL, false);
  }

  lemma TreeGrown(start: Cells, c: Cells, c1: Cells, d: Cells, u: Tree, w: Tree)
    requires Links(start, c, c1, d, u, w)
    requires var f := Cat(u.children, One(w)); Chain(d, f, NULL, NULL, false) && First(f) == FirstOr(u.children, w.at)
    ensures TreeAt(d, u.(children := Cat(u.children, One(w))), NULL, NULL, false)
  {
    BuiltOne(start, c, u);
    BuiltOne(c, c1, w);
    ChildEnds(start, c, c1, u);
    E.NodeIn(w);
    E.NodeIn(u);
    hide Built, Chain, Apart, TreeApart, Area, TreeAt, TreeArea;
    TreeLive(c, u, NULL, NULL, false);
    FrameTree(c, c1, u, NULL, NULL, false);
    NodeGrown(c1, d, u, w, Cat(u.children, One(w)));
  }

  /** A node with its strings after a child has been linked to it. */
  lemma NodeGrown(c1: Cells, d: Cells, u: Tree, w: Tree, f: Forest)
    requires TreeAt(c1, u, NULL, NULL, false) && !u.isReference && w.at in c1 && c1[w.at].Node? && u.at != w.at
    requires if u.children.Nil? then d == E.WithChild(c1, u.at, w.at)
      else
        && LastOr(u.children, NULL) in c1 && c1[LastOr(u.children, NULL)].Node? && LastOr(u.children, NULL) != u.at
        && d == E.WithPrev(E.WithNext(c1, LastOr(u.children, NULL), w.at), w.at, LastOr(u.children, NULL))
    requires Chain(d, f, NULL, NULL, false) && First(f) == FirstOr(u.children, w.at)
    ensures TreeAt(d, u.(children := f), NULL, NULL, false)
  {
    hide Chain, LastOr;
  }

  lemma ApartGrown(start: Cells, c: Cells, c1: Cells, u: Tree, w: Tree)
    requires Built(start, c, One(u)) && Built(c, c1, One(w)) && !u.isReference
    requires Apart(Cat(u.children, One(w))) && Owned(Cat(u.children, One(w))) == Owned(u.children) + TreeArea(w, false)
    ensures TreeApart(u.(children := Cat(u.children, One(w))))
  {
    BuiltOne(start, c, u);
    BuiltOne(c, c1, w);
    hide Chain, Apart, TreeAt, Area, Built, Cat, LastOr;
  }

  lemma AreaGrown(start: Cells, c: Cells, c1: Cells, d: Cells, u: Tree, w: Tree)
    requires Links(start, c, c1, d, u, w) && Owned(Cat(u.children, One(w))) == Owned(u.children) + TreeArea(w, false)
    ensures var v := u.(children := Cat(u.children, One(w)));
      && TreeArea(v, false) == TreeArea(u, false) + TreeArea(w, false)
      && d.Keys == start.Keys + TreeArea(v, false) && TreeArea(v, false) !! start.Keys && Keeps(start, d)
  {
    BuiltOne(start, c, u);
    BuiltOne(c, c1, w);
    ChildEnds(start, c, c1, u);
    E.NodeIn(w);
    hide Chain, Apart, Area, Built, Cat, LastOr, TreeAt, TreeApart;
  }

  // ----- a copy compares equal to its source -----

  /** After copying, source and copy can both be read, mean the same, and share nothing that either owns. */
  lemma CopyEqual(start: Cells, c: Cells, t: Tree, p: Addr, n: Addr, u: Tree)
    requires TreeAt(start, t, p, n, true) && Built(start, c, One(u)) && Solid(start, u) && Copies(t, u)
    ensures TreeAt(c, t, p, n, true) && TreeAt(c, u, NULL, NULL, true)
    ensures TreeItem(t) == TreeItem(u) && (C.Proper(t) <==> C.Proper(u))
    ensures TreeArea(t, true) !! TreeArea(u, false)
  {
    hide TreeAt, TreeApart, TreeArea, Built, Solid, Copies;
    BuiltOne(start, c, u);
    TreeLive(start, t, p, n, true);
    FrameTree(start, c, t, p, n, true);
    SolidReads(start, c, u, NULL, NULL);
    CopyMeans(t, u);
  }

  /** cJSON_Duplicate and then cJSON_Compare: a recursive copy of a proper item compares equal to it. */
  method DuplicateCompares(m: Memory, round: C.Rounding, item: Addr, ghost t: Tree, ghost p: Addr, ghost n: Addr)
    returns (copy: Addr, equal: bool)
    requires item != NULL && item == t.at && TreeAt(m.cells, t, p, n, true) && C.Proper(t)
    modifies m
    ensures equal <==> copy != NULL
    ensures (copy != NULL <==> m.Fine(old(m.asked))) && m.asked >= old(m.asked)
  {
    hide TreeAt, TreeApart, TreeArea, Built, Solid, Copies, C.Proper;
    ghost var start, u := m.cells, t;
    copy, u := Duplicate(m, item, true, start, t, p, n, m.asked);
    equal := false;
    if copy != NULL {
      CopyEqual(start, m.cells, t, p, n, u);
      equal := C.Compare(m, round, item, copy, t, p, n, u, NULL, NULL);
    }
  }
}
