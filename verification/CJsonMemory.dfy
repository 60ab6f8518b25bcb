/** The heap that cJSON items live in: addresses, nodes linked both ways, strings, allocation that may be refused. */
module CJsonMemory {
  import opened Ascii
  import opened CJsonItem

  type Addr = nat

  const NULL: Addr := 0

  datatype Kind = InvalidKind | FalseKind | TrueKind | NullKind | NumberKind
    | StringKind | ArrayKind | ObjectKind | RawKind

  /** An allocated piece of memory: a struct of type cJSON, or a string. */
  datatype Cell =
    | Node(next: Addr, prev: Addr, child: Addr, kind: Kind, isReference: bool,
      constKey: bool, number: CString, value: Addr, key: Addr)
    | Block(bytes: CString)

  /** What cJSON_New_Item returns, filled with zeros. */
  const BLANK := Node(NULL, NULL, NULL, InvalidKind, false, false, [], NULL, NULL)

  type Cells = map<Addr, Cell>

  /** An item in memory with everything that hangs on it; `text` and `name` are the strings at `value` and `key`. */
  datatype Tree = Tree(at: Addr, kind: Kind, isReference: bool, constKey: bool, number: CString,
                       value: Addr, text: CString, key: Addr, name: CString, children: Forest)

  /** A chain of siblings. */
  datatype Forest = Nil | Sibling(head: Tree, tail: Forest)

  function FirstOr(f: Forest, other: Addr): Addr {
    if f.Nil? then other else f.head.at
  }

  function LastOr(f: Forest, other: Addr): Addr {
    if f.Nil? then other else LastOr(f.tail, f.head.at)
  }

  function First(f: Forest): Addr {
    FirstOr(f, NULL)
  }

  function Cat(f: Forest, g: Forest): Forest {
    match f
    case Nil => g
    case Sibling(t, rest) => Sibling(t, Cat(rest, g))
  }

  function One(t: Tree): Forest {
    Sibling(t, Nil)
  }

  function Length(f: Forest): nat {
    match f
    case Nil => 0
    case Sibling(_, rest) => 1 + Length(rest)
  }

  // ----- shape -----

  predicate NodeAt(cells: Cells, t: Tree, prev: Addr, next: Addr) {
    && t.at != NULL && t.at in cells
    && cells[t.at] == Node(next, prev, First(t.children), t.kind, t.isReference, t.constKey, t.number, t.value, t.key)
  }

  predicate TextAt(cells: Cells, a: Addr, s: CString) {
    if a == NULL then s == [] else a in cells && cells[a] == Block(s)
  }

  /**
   * The tree stands in memory between two siblings. What a reference points to and keys that are constant
   * belong to somebody else; they are looked at only if `deep`.
   */
  predicate TreeAt(cells: Cells, t: Tree, prev: Addr, next: Addr, deep: bool)
    decreases t, 0
  {
    && NodeAt(cells, t, prev, next)
    && (deep || !t.isReference ==> TextAt(cells, t.value, t.text) && Chain(cells, t.children, NULL, NULL, deep))
    && (deep || !t.constKey ==> TextAt(cells, t.key, t.name))
  }

  /** The siblings are linked both ways, from `prev` on the left to `next` on the right. */
  predicate Chain(cells: Cells, f: Forest, prev: Addr, next: Addr, deep: bool)
    decreases f, 1
  {
    match f
    case Nil => true
    case Sibling(t, rest) => TreeAt(cells, t, prev, FirstOr(rest, next), deep) && Chain(cells, rest, t.at, next, deep)
  }

  /** The strings that belong to the node itself, or that it can read if `deep`. */
  function Strings(t: Tree, deep: bool): set<Addr> {
    (if (deep || !t.isReference) && t.value != NULL then {t.value} else {})
    + (if (deep || !t.constKey) && t.key != NULL then {t.key} else {})
  }

  /** The addresses that a tree owns, or all that it can read if `deep`. */
  function TreeArea(t: Tree, deep: bool): set<Addr>
    decreases t, 0
  {
    {t.at} + Strings(t, deep) + (if deep || !t.isReference then Area(t.children, deep) else {})
  }

  function Area(f: Forest, deep: bool): set<Addr>
    decreases f, 1
  {
    match f
    case Nil => {}
    case Sibling(t, rest) => TreeArea(t, deep) + Area(rest, deep)
  }

  function Owned(f: Forest): set<Addr> {
    Area(f, false)
  }

  /** Nothing is owned twice. */
  predicate TreeApart(t: Tree)
    decreases t, 0
  {
    && t.at !in Strings(t, false)
    && (!t.isReference && t.value != NULL && !t.constKey && t.key != NULL ==> t.value != t.key)
    && (!t.isReference ==> Apart(t.children) && Owned(t.children) !! {t.at} + Strings(t, false))
  }

  predicate Apart(f: Forest)
    decreases f, 1
  {
    match f
    case Nil => true
    case Sibling(t, rest) => TreeApart(t) && Apart(rest) && TreeArea(t, false) !! Owned(rest)
  }

  /** Every node owns its strings and its children; a string has its bytes, and a member of an object its key. */
  predicate Own(t: Tree)
    decreases t, 0
  {
    && !t.isReference && !t.constKey && AllOwn(t.children)
    && (t.kind.StringKind? ==> t.value != NULL) && (t.kind.ObjectKind? ==> AllKeyed(t.children))
  }

  predicate AllOwn(f: Forest)
    decreases f, 1
  {
    match f
    case Nil => true
    case Sibling(t, rest) => Own(t) && AllOwn(rest)
  }

  predicate AllKeyed(f: Forest) {
    match f
    case Nil => true
    case Sibling(t, rest) => t.key != NULL && AllKeyed(rest)
  }

  /** Two memories hold the same on an area that is allocated in both. */
  predicate Same(cells: Cells, other: Cells, area: set<Addr>) {
    forall a | a in area :: a in cells && a in other && cells[a] == other[a]
  }

  // ----- meaning -----

  function TreeItem(t: Tree): Item
    decreases t, 0
  {
    match t.kind
    case InvalidKind => Invalid
    case FalseKind => False
    case TrueKind => True
    case NullKind => Null
    case NumberKind => Number(t.number)
    case StringKind => String(t.text)
    case RawKind => Raw(t.text)
    case ArrayKind => Array(ForestItems(t.children))
    case ObjectKind => Object(ForestFields(t.children))
  }

  function ForestItems(f: Forest): Items
    decreases f, 1
  {
    match f
    case Nil => NoItems
    case Sibling(t, rest) => Cons(TreeItem(t), ForestItems(rest))
  }

  function ForestFields(f: Forest): Fields
    decreases f, 1
  {
    match f
    case Nil => NoFields
    case Sibling(t, rest) => Field(t.name, TreeItem(t), ForestFields(rest))
  }

  // ----- lemmas -----

  lemma {:induction false} FrameTree(cells: Cells, other: Cells, t: Tree, prev: Addr, next: Addr, deep: bool)
    requires TreeAt(cells, t, prev, next, deep) && Same(cells, other, TreeArea(t, deep))
    ensures TreeAt(other, t, prev, next, deep)
    decreases t, 0
  {
    if deep || !t.isReference {
      Frame(cells, other, t.children, NULL, NULL, deep);
    }
  }

  /** A chain stays in place if its area does not change. */
  lemma {:induction false} Frame(cells: Cells, other: Cells, f: Forest, prev: Addr, next: Addr, deep: bool)
    requires Chain(cells, f, prev, next, deep) && Same(cells, other, Area(f, deep))
    ensures Chain(other, f, prev, next, deep)
    decreases f, 1
  {
    if f.Sibling? {
      FrameTree(cells, other, f.head, prev, FirstOr(f.tail, next), deep);
      Frame(cells, other, f.tail, f.head.at, next, deep);
    }
  }

  lemma {:induction false} AreaLive(cells: Cells, f: Forest, prev: Addr, next: Addr, deep: bool)
    requires Chain(cells, f, prev, next, deep)
    ensures Area(f, deep) <= cells.Keys
    decreases f, 1
  {
    if f.Sibling? {
      TreeLive(cells, f.head, prev, FirstOr(f.tail, next), deep);
      AreaLive(cells, f.tail, f.head.at, next, deep);
    }
  }

  lemma {:induction false} TreeLive(cells: Cells, t: Tree, prev: Addr, next: Addr, deep: bool)
    requires TreeAt(cells, t, prev, next, deep)
    ensures TreeArea(t, deep) <= cells.Keys
    decreases t, 0
  {
    if deep || !t.isReference {
      AreaLive(cells, t.children, NULL, NULL, deep);
    }
  }

  /** A tree that owns all its parts can be read to its end. */
  lemma {:induction false} OwnReads(cells: Cells, t: Tree, prev: Addr, next: Addr)
    requires TreeAt(cells, t, prev, next, false) && Own(t)
    ensures TreeAt(cells, t, prev, next, true) && TreeArea(t, true) == TreeArea(t, false)
    decreases t, 0
  {
    AllOwnRead(cells, t.children, NULL, NULL);
  }

  lemma {:induction false} AllOwnRead(cells: Cells, f: Forest, prev: Addr, next: Addr)
    requires Chain(cells, f, prev, next, false) && AllOwn(f)
    ensures Chain(cells, f, prev, next, true) && Area(f, true) == Area(f, false)
    decreases f, 1
  {
    hide TreeAt, TreeArea, Own;
    if f.Sibling? {
      OwnReads(cells, f.head, prev, FirstOr(f.tail, next));
      AllOwnRead(cells, f.tail, f.head.at, next);
    }
  }

  lemma {:induction false} OwnCat(f: Forest, t: Tree)
    requires AllOwn(f) && Own(t)
    ensures AllOwn(Cat(f, One(t)))
    decreases f
  {
    hide Own;
    if f.Sibling? {
      OwnCat(f.tail, t);
    } else {
      assert AllOwn(Nil);
    }
  }

  lemma {:induction false} KeyedCat(f: Forest, t: Tree)
    requires AllKeyed(f) && t.key != NULL
    ensures AllKeyed(Cat(f, One(t)))
    decreases f
  {
    if f.Sibling? {
      KeyedCat(f.tail, t);
    } else {
      assert AllKeyed(Nil);
    }
  }

  /** Two chains are one chain exactly if they are linked to each other. */
  lemma {:induction false} ChainCat(cells: Cells, f: Forest, g: Forest, prev: Addr, next: Addr, deep: bool)
    ensures Chain(cells, Cat(f, g), prev, next, deep)
      <==> Chain(cells, f, prev, FirstOr(g, next), deep) && Chain(cells, g, LastOr(f, prev), next, deep)
    decreases f
  {
    hide TreeAt;
    if f.Sibling? {
      ChainCat(cells, f.tail, g, f.head.at, next, deep);
    }
  }

  lemma {:induction false} AreaCat(f: Forest, g: Forest, deep: bool)
    ensures Area(Cat(f, g), deep) == Area(f, deep) + Area(g, deep)
    decreases f
  {
    hide TreeArea;
    if f.Sibling? {
      AreaCat(f.tail, g, deep);
    }
  }

  lemma {:induction false} ApartCat(f: Forest, g: Forest)
    ensures Apart(Cat(f, g)) <==> Apart(f) && Apart(g) && Owned(f) !! Owned(g)
    decreases f
  {
    hide TreeArea, TreeApart;
    if f.Sibling? {
      AreaCat(f.tail, g, false);
      ApartCat(f.tail, g);
    }
  }

  lemma {:induction false} CatAssoc(f: Forest, g: Forest, h: Forest)
    ensures Cat(Cat(f, g), h) == Cat(f, Cat(g, h))
    decreases f
  {
    if f.Sibling? {
      CatAssoc(f.tail, g, h);
    }
  }

  lemma {:induction false} CatNil(f: Forest)
    ensures Cat(f, Nil) == f
    decreases f
  {
    if f.Sibling? {
      CatNil(f.tail);
    }
  }

  lemma {:induction false} SomeFree(cells: Cells) returns (a: Addr)
    ensures a != NULL && a !in cells
  {
    a := Above(cells.Keys) + 1;
  }

  ghost function Above(s: set<Addr>): (n: nat)
    ensures forall a | a in s :: a <= n
    decreases |s|
  {
    if s == {} then 0
    else
      var a :| a in s;
      var n := Above(s - {a});
      assert forall b | b in s :: b == a || b in s - {a};
      if a > n then a else n
  }

  lemma NodeIs(cells: Cells, t: Tree, prev: Addr, next: Addr, deep: bool)
    requires TreeAt(cells, t, prev, next, deep)
    ensures NodeAt(cells, t, prev, next)
  {
  }

  lemma HeadAt(cells: Cells, f: Forest, prev: Addr, next: Addr, deep: bool)
    requires Chain(cells, f, prev, next, deep) && f.Sibling?
    ensures TreeAt(cells, f.head, prev, FirstOr(f.tail, next), deep)
  {
  }

  lemma NilArea()
    ensures Owned(Nil) == {}
  {
  }

  class Memory {
    var cells: Cells
    /** Which requests for memory the hooks grant: the first, the second and so on. */
    const grants: nat -> bool
    /** How many requests there have been. */
    var asked: nat

    constructor (grants: nat -> bool)
      ensures cells == map[] && asked == 0 && this.grants == grants
    {
      cells, asked, this.grants := map[], 0, grants;
    }

    /** No request has been refused from the one numbered `since` on. */
    ghost predicate Fine(since: nat)
      reads this`asked
    {
      since <= asked && forall k :: since <= k < asked ==> grants(k)
    }

    /** A request for memory of any use. */
    method Request() returns (granted: bool)
      modifies this`asked
      ensures granted == grants(old(asked)) && asked == old(asked) + 1
    {
      granted := grants(asked);
      asked := asked + 1;
    }

    /** An allocation hook: a new address, or NULL if the request is refused. */
    method Allocate(cell: Cell) returns (a: Addr)
      modifies this
      ensures asked == old(asked) + 1 && (a == NULL <==> !grants(old(asked)))
      ensures a == NULL ==> cells == old(cells)
      ensures a != NULL ==> a !in old(cells) && cells == old(cells)[a := cell]
    {
      a := NULL;
      var granted := Request();
      if granted {
        ghost var free := SomeFree(cells);
        a :| a != NULL && a !in cells;
        cells := cells[a := cell];
      }
    }

    /** The deallocation hook; freeing twice, or freeing what is not allocated, is excluded. */
    method Free(a: Addr)
      requires a in cells
      modifies this`cells
      ensures cells == old(cells) - {a}
    {
      cells := cells - {a};
    }

    /** cJSON_Delete frees the item and its later siblings: everything they own, and nothing else. */
    method Delete(item: Addr, ghost f: Forest, ghost prev: Addr)
      requires item == First(f) && Chain(cells, f, prev, NULL, false) && Apart(f)
      modifies this`cells
      ensures cells == old(cells) - Owned(f)
      decreases f, 1
    {
      hide TreeAt, TreeArea, TreeApart;
      var current := item;
      ghost var g, p := f, prev;
      ghost var freed: set<Addr> := {};
      while current != NULL
        invariant current == First(g) && Chain(cells, g, p, NULL, false) && Apart(g)
        invariant g == f || g < f
        invariant freed + Owned(g) == Owned(f) && freed !! Owned(g) && cells == old(cells) - freed
        decreases g
      {
        ghost var t, before := g.head, cells;
        NodeIs(cells, t, p, FirstOr(g.tail, NULL), false);
        var next := cells[current].next;
        DeleteOne(current, t, p, next);
        AreaLive(before, g.tail, t.at, NULL, false);
        Frame(before, cells, g.tail, t.at, NULL, false);
        freed := freed + TreeArea(t, false);
        current, p, g := next, t.at, g.tail;
      }
      if g.Sibling? {
        NodeIs(cells, g.head, p, FirstOr(g.tail, NULL), false);
      }
    }

    /** One round of the loop of cJSON_Delete. */
    method DeleteOne(item: Addr, ghost t: Tree, ghost prev: Addr, ghost next: Addr)
      requires item == t.at && TreeAt(cells, t, prev, next, false) && TreeApart(t)
      modifies this`cells
      ensures cells == old(cells) - TreeArea(t, false)
      decreases t, 0
    {
      hide Chain, Area;
      var node := cells[item];
      NilArea();
      if !node.isReference && node.child != NULL {
        Delete(node.child, t.children, NULL);
      }
      assert cells == old(cells) - (if t.isReference then {} else Owned(t.children)) by {
        if !t.isReference && node.child == NULL && t.children.Sibling? {
          NodeIs(old(cells), t.children.head, NULL, FirstOr(t.children.tail, NULL), false)
            by { HeadAt(old(cells), t.children, NULL, NULL, false); }
        }
      }
      if !node.isReference && node.value != NULL {
        Free(node.value);
      }
      if !node.constKey && node.key != NULL {
        Free(node.key);
      }
      Free(item);
    }
  }
}
