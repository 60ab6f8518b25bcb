/** Comparing items: with distinct sibling keys, it decides whether two items mean the same. */
module CJsonCompare {
  import opened Ascii
  import opened CJsonItem
  import opened CJsonMemory
  import opened CJsonNumber

  /** What an item means: an object is a map, an array a sequence. */
  datatype Value =
    | InvalidValue
    | Constant(kind: Kind)
    | NumberValue(x: real)
    | StringValue(s: CString)
    | RawValue(r: CString)
    | ArrayValue(elems: seq<Value>)
    | ObjectValue(members: map<CString, Value>)

  /** Numbers are rounded when they are read; `round` is any such rounding. */
  type Rounding = real -> real

  function Meaning(item: Item, round: Rounding): Value {
    match item
    case Invalid => InvalidValue
    case Null => Constant(NullKind)
    case False => Constant(FalseKind)
    case True => Constant(TrueKind)
    case Number(t) => NumberValue(round(NumeralValue(t)))
    case String(s) => StringValue(s)
    case Raw(r) => RawValue(r)
    case Array(items) => ArrayValue(ItemsMeaning(items, round))
    case Object(fields) => ObjectValue(FieldsMeaning(fields, round))
  }

  function ItemsMeaning(items: Items, round: Rounding): seq<Value> {
    match items
    case NoItems => []
    case Cons(v, rest) => [Meaning(v, round)] + ItemsMeaning(rest, round)
  }

  function FieldsMeaning(fields: Fields, round: Rounding): (r: map<CString, Value>)
    ensures r.Keys == FieldNames(fields)
  {
    match fields
    case NoFields => map[]
    case Field(key, v, rest) => FieldsMeaning(rest, round)[key := Meaning(v, round)]
  }

  function FieldNames(fields: Fields): set<CString> {
    match fields
    case NoFields => {}
    case Field(key, _, rest) => {key} + FieldNames(rest)
  }

  /** No item is invalid, strings are there, members have keys, and the keys of siblings are distinct. */
  predicate Proper(t: Tree)
    decreases t, 0
  {
    match t.kind
    case InvalidKind => false
    case StringKind => t.value != NULL
    case RawKind => t.value != NULL
    case ArrayKind => AllProper(t.children)
    case ObjectKind => AllProper(t.children) && AllNamed(t.children)
    case _ => true
  }

  predicate AllProper(f: Forest)
    decreases f, 1
  {
    match f
    case Nil => true
    case Sibling(t, rest) => Proper(t) && AllProper(rest)
  }

  predicate AllNamed(f: Forest) {
    match f
    case Nil => true
    case Sibling(t, rest) => t.key != NULL && t.name !in FieldNames(ForestFields(rest)) && AllNamed(rest)
  }

  /** The size of a tree, for termination. */
  function Weight(t: Tree): nat
    decreases t, 0
  {
    1 + ForestWeight(t.children)
  }

  function ForestWeight(f: Forest): nat
    decreases f, 1
  {
    match f
    case Nil => 0
    case Sibling(t, rest) => Weight(t) + ForestWeight(rest)
  }

  /** An address stands for one tree only. */
  lemma {:induction false} TreeUnique(c: Cells, t: Tree, p: Addr, n: Addr, u: Tree, p': Addr, n': Addr)
    requires TreeAt(c, t, p, n, true) && TreeAt(c, u, p', n', true) && t.at == u.at
    ensures t == u
    decreases t, 0
  {
    ForestUnique(c, t.children, NULL, u.children, NULL);
  }

  lemma {:induction false} ForestUnique(c: Cells, f: Forest, p: Addr, g: Forest, p': Addr)
    requires Chain(c, f, p, NULL, true) && Chain(c, g, p', NULL, true) && First(f) == First(g)
    ensures f == g
    decreases f, 1
  {
    hide TreeAt;
    if f.Sibling? {
      NodeIs(c, f.head, p, First(f.tail), true);
    }
    if g.Sibling? {
      NodeIs(c, g.head, p', First(g.tail), true);
    }
    if f.Sibling? && g.Sibling? {
      TreeUnique(c, f.head, p, First(f.tail), g.head, p', First(g.tail));
      ForestUnique(c, f.tail, f.head.at, g.tail, g.head.at);
    }
  }

  /** A loop cursor in a chain that may be read deeply. */
  predicate Reads(c: Cells, a: Addr, f: Forest, prev: Addr) {
    a == First(f) && Chain(c, f, prev, NULL, true)
  }

  lemma ReadsNode(c: Cells, a: Addr, f: Forest, prev: Addr)
    requires Reads(c, a, f, prev)
    ensures (a == NULL <==> f.Nil?) && a == First(f)
    ensures f.Sibling? ==> NodeAt(c, f.head, prev, First(f.tail)) && TextAt(c, f.head.key, f.head.name)
    ensures f.Sibling? ==> TreeAt(c, f.head, prev, First(f.tail), true) && Reads(c, First(f.tail), f.tail, f.head.at)
  {
    if f.Sibling? {
      TreeReads(c, f.head, prev, First(f.tail));
    }
  }

  lemma TreeReads(c: Cells, t: Tree, p: Addr, n: Addr)
    requires TreeAt(c, t, p, n, true)
    ensures NodeAt(c, t, p, n) && Reads(c, First(t.children), t.children, NULL)
    ensures TextAt(c, t.value, t.text) && TextAt(c, t.key, t.name)
  {
  }

  /** The children from the first one on that has the name, or that has none. */
  function Found(f: Forest, name: CString): Forest {
    if f.Nil? || f.head.key == NULL || f.head.name == name then f else Found(f.tail, name)
  }

  /** The tree is one of the siblings. */
  predicate Child(u: Tree, f: Forest) {
    f.Sibling? && (f.head == u || Child(u, f.tail))
  }

  /** No child before the one that is found has the name, or no name; and the one that is found has. */
  lemma {:induction false} FoundFirst(f: Forest, name: CString) returns (before: Forest)
    ensures f == Cat(before, Found(f, name)) && forall u: Tree :: Child(u, before) ==> u.key != NULL && u.name != name
    ensures Found(f, name).Sibling? ==> Found(f, name).head.key == NULL || Found(f, name).head.name == name
    decreases f
  {
    before := Nil;
    if f.Sibling? && f.head.key != NULL && f.head.name != name {
      before := FoundFirst(f.tail, name);
      before := Sibling(f.head, before);
    }
  }

  /** Looking a name up among children with distinct names finds the one value of that name. */
  lemma {:induction false} FoundIs(f: Forest, name: CString, round: Rounding)
    ensures var r := Found(f, name);
      r.Sibling? && r.head.key != NULL ==> Child(r.head, f) && r.head.name == name && Weight(r.head) <= ForestWeight(f)
    ensures AllProper(f) && Found(f, name).Sibling? ==> Proper(Found(f, name).head)
    ensures AllNamed(f) ==> (Found(f, name).Sibling? <==> name in FieldNames(ForestFields(f)))
    ensures AllNamed(f) && Found(f, name).Sibling? ==>
      Found(f, name).head.key != NULL
        && FieldsMeaning(ForestFields(f), round)[name] == Meaning(TreeItem(Found(f, name).head), round)
    decreases f
  {
    hide Meaning, TreeItem, Proper, Weight;
    if f.Sibling? {
      FoundIs(f.tail, name, round);
    }
  }

  /** get_object_item, case sensitive: the first child with the name, unless one without a name comes before it. */
  method GetObjectItem(m: Memory, parent: Addr, name: CString, ghost t: Tree, ghost p: Addr, ghost n: Addr,
      ghost round: Rounding)
      returns (item: Addr, ghost u: Tree, ghost up: Addr, ghost un: Addr)
    requires parent == t.at && TreeAt(m.cells, t, p, n, true)
    ensures var r := Found(t.children, name);
      if r.Nil? || r.head.key == NULL then item == NULL else item == r.head.at && u == r.head
    ensures item != NULL ==> item == u.at && TreeAt(m.cells, u, up, un, true) && Weight(u) < Weight(t)
    ensures item != NULL ==> Child(u, t.children) && u.name == name && u.key != NULL
    ensures AllNamed(t.children) ==> (item != NULL <==> name in FieldNames(ForestFields(t.children)))
    ensures AllNamed(t.children) && item != NULL ==>
      FieldsMeaning(ForestFields(t.children), round)[name] == Meaning(TreeItem(u), round)
    ensures AllProper(t.children) && item != NULL ==> Proper(u)
  {
    hide TreeAt, Chain, TreeItem, Proper, Weight, Meaning, Child;
    TreeReads(m.cells, t, p, n);
    item := m.cells[parent].child;
    ghost var f, prev := t.children, NULL;
    u, up, un := t, NULL, NULL;
    WeightOf(t);
    FoundIs(f, name, round);
    ReadsNode(m.cells, item, f, prev);
    while item != NULL && m.cells[item].key != NULL && m.cells[m.cells[item].key].bytes != name
      invariant Reads(m.cells, item, f, prev) && (item == NULL <==> f.Nil?)
      invariant f.Sibling? ==> NodeAt(m.cells, f.head, prev, First(f.tail)) && TextAt(m.cells, f.head.key, f.head.name)
      invariant f.Sibling? ==> TreeAt(m.cells, f.head, prev, First(f.tail), true)
      invariant Found(f, name) == Found(t.children, name)
      decreases f
    {
      ReadsNode(m.cells, item, f, prev);
      item, prev, f := m.cells[item].next, item, f.tail;
      ReadsNode(m.cells, item, f, prev);
    }
    if item == NULL || m.cells[item].key == NULL {
      return NULL, t, NULL, NULL;
    }
    u, up, un := f.head, prev, First(f.tail);
  }

  lemma WeightOf(t: Tree)
    ensures Weight(t) == 1 + ForestWeight(t.children)
  {
  }

  /** What a tree means by its kind, and when it is proper. */
  lemma MeaningOf(t: Tree, round: Rounding)
    ensures var v := Meaning(TreeItem(t), round);
      match t.kind
      case InvalidKind => !Proper(t)
      case NullKind => v == Constant(NullKind)
      case FalseKind => v == Constant(FalseKind)
      case TrueKind => v == Constant(TrueKind)
      case NumberKind => v == NumberValue(round(NumeralValue(t.number)))
      case StringKind => v == StringValue(t.text) && (Proper(t) <==> t.value != NULL)
      case RawKind => v == RawValue(t.text) && (Proper(t) <==> t.value != NULL)
      case ArrayKind =>
        v == ArrayValue(ItemsMeaning(ForestItems(t.children), round)) && (Proper(t) <==> AllProper(t.children))
      case ObjectKind =>
        && v == ObjectValue(FieldsMeaning(ForestFields(t.children), round))
        && (Proper(t) <==> AllProper(t.children) && AllNamed(t.children))
  {
  }

  /** cJSON_Compare, case sensitive: it decides whether proper items mean the same. */
  method Compare(m: Memory, round: Rounding, a: Addr, b: Addr, ghost t: Tree, ghost p: Addr, ghost n: Addr,
      ghost u: Tree, ghost p': Addr, ghost n': Addr)
      returns (equal: bool)
    requires a != NULL ==> a == t.at && TreeAt(m.cells, t, p, n, true)
    requires b != NULL ==> b == u.at && TreeAt(m.cells, u, p', n', true)
    ensures a == NULL || b == NULL ==> !equal
    ensures a != NULL && b != NULL && Proper(t) && Proper(u) ==>
      (equal <==> Meaning(TreeItem(t), round) == Meaning(TreeItem(u), round))
    decreases Weight(t) + Weight(u), 1
  {
    if a == NULL || b == NULL {
      return false;
    }
    hide TreeAt, Chain, Weight, Reads, NumeralValue, Meaning, TreeItem, ItemsMeaning, FieldsMeaning, Contained, Proper;
    MeaningOf(t, round);
    MeaningOf(u, round);
    BothContained(FieldsMeaning(ForestFields(t.children), round), FieldsMeaning(ForestFields(u.children), round));
    TreeReads(m.cells, t, p, n);
    TreeReads(m.cells, u, p', n');
    var x, y := m.cells[a], m.cells[b];
    if x.kind != y.kind || x.kind == InvalidKind {
      return false;
    }
    if a == b {
      TreeUnique(m.cells, t, p, n, u, p', n');
      return true;
    }
    match x.kind
    case FalseKind => equal := true;
    case TrueKind => equal := true;
    case NullKind => equal := true;
    case NumberKind => equal := round(NumeralValue(x.number)) == round(NumeralValue(y.number));
    case StringKind =>
      equal := x.value != NULL && y.value != NULL && m.cells[x.value].bytes == m.cells[y.value].bytes;
    case RawKind =>
      equal := x.value != NULL && y.value != NULL && m.cells[x.value].bytes == m.cells[y.value].bytes;
    case ArrayKind =>
      equal := CompareArrays(m, round, a, b, t, p, n, u, p', n');
    case ObjectKind =>
      equal := Within(m, round, a, b, t, p, n, u, p', n');
      if equal {
        equal := Within(m, round, b, a, u, p', n', t, p, n);
      }
  }

  /** The loop of cJSON_Compare over two arrays. */
  method CompareArrays(m: Memory, round: Rounding, a: Addr, b: Addr, ghost t: Tree, ghost p: Addr, ghost n: Addr,
      ghost u: Tree, ghost p': Addr, ghost n': Addr)
      returns (equal: bool)
    requires a == t.at && TreeAt(m.cells, t, p, n, true) && b == u.at && TreeAt(m.cells, u, p', n', true)
    ensures AllProper(t.children) && AllProper(u.children) ==>
      (equal <==> ItemsMeaning(ForestItems(t.children), round) == ItemsMeaning(ForestItems(u.children), round))
    decreases Weight(t) + Weight(u), 0
  {
    hide TreeAt, Chain, Weight, Reads, Proper, Meaning, TreeItem;
    TreeReads(m.cells, t, p, n);
    TreeReads(m.cells, u, p', n');
    WeightOf(t);
    WeightOf(u);
    var x, y := m.cells[a].child, m.cells[b].child;
    ghost var f, fp, g, gp := t.children, NULL, u.children, NULL;
    ghost var same := ItemsMeaning(ForestItems(t.children), round) == ItemsMeaning(ForestItems(u.children), round);
    ReadsNode(m.cells, x, f, fp);
    ReadsNode(m.cells, y, g, gp);
    while x != NULL && y != NULL
      invariant Reads(m.cells, x, f, fp) && Reads(m.cells, y, g, gp)
        && (x == NULL <==> f.Nil?) && (y == NULL <==> g.Nil?)
      invariant ForestWeight(f) < Weight(t) && ForestWeight(g) < Weight(u)
      invariant AllProper(t.children) ==> AllProper(f)
      invariant AllProper(u.children) ==> AllProper(g)
      invariant AllProper(t.children) && AllProper(u.children) ==>
        (same <==> ItemsMeaning(ForestItems(f), round) == ItemsMeaning(ForestItems(g), round))
      decreases f
    {
      ReadsNode(m.cells, x, f, fp);
      ReadsNode(m.cells, y, g, gp);
      FirstDiffers(f, g, round);
      var e := Compare(m, round, x, y, f.head, fp, First(f.tail), g.head, gp, First(g.tail));
      if !e {
        return false;
      }
      x, fp, f := m.cells[x].next, x, f.tail;
      y, gp, g := m.cells[y].next, y, g.tail;
      ReadsNode(m.cells, x, f, fp);
      ReadsNode(m.cells, y, g, gp);
    }
    equal := x == y;
  }

  lemma FirstDiffers(f: Forest, g: Forest, round: Rounding)
    requires f.Sibling? && g.Sibling?
    ensures (ItemsMeaning(ForestItems(f), round) == ItemsMeaning(ForestItems(g), round)) == (
      && Meaning(TreeItem(f.head), round) == Meaning(TreeItem(g.head), round)
      && ItemsMeaning(ForestItems(f.tail), round) == ItemsMeaning(ForestItems(g.tail), round))
    ensures ForestWeight(f) == Weight(f.head) + ForestWeight(f.tail)
    ensures ForestWeight(g) == Weight(g.head) + ForestWeight(g.tail)
  {
    hide Meaning, TreeItem, Weight;
    var a, s := Meaning(TreeItem(f.head), round), ItemsMeaning(ForestItems(f.tail), round);
    var b, r := Meaning(TreeItem(g.head), round), ItemsMeaning(ForestItems(g.tail), round);
    assert ([a] + s)[0] == a && ([a] + s)[1..] == s && ([b] + r)[0] == b && ([b] + r)[1..] == r;
  }

  /** One object is contained in the other. */
  predicate Contained(f: map<CString, Value>, g: map<CString, Value>) {
    forall k | k in f :: k in g && f[k] == g[k]
  }

  lemma BothContained(f: map<CString, Value>, g: map<CString, Value>)
    ensures Contained(f, g) && Contained(g, f) <==> f == g
  {
  }

  /** One of the two loops of cJSON_Compare over objects. */
  method Within(m: Memory, round: Rounding, a: Addr, b: Addr, ghost t: Tree, ghost p: Addr, ghost n: Addr,
      ghost u: Tree, ghost p': Addr, ghost n': Addr)
      returns (within: bool)
    requires a == t.at && TreeAt(m.cells, t, p, n, true) && b == u.at && TreeAt(m.cells, u, p', n', true)
    ensures AllProper(t.children) && AllNamed(t.children) && AllProper(u.children) && AllNamed(u.children) ==>
      (within <==>
        Contained(FieldsMeaning(ForestFields(t.children), round), FieldsMeaning(ForestFields(u.children), round)))
    decreases Weight(t) + Weight(u), 0
  {
    hide TreeAt, Chain, Weight, Reads, Proper, Meaning, TreeItem;
    TreeReads(m.cells, t, p, n);
    WeightOf(t);
    var x := m.cells[a].child;
    ghost var f, fp := t.children, NULL;
    ghost var all := FieldsMeaning(ForestFields(t.children), round);
    ghost var other := FieldsMeaning(ForestFields(u.children), round);
    ghost var proper := AllProper(t.children) && AllNamed(t.children) && AllProper(u.children) && AllNamed(u.children);
    ReadsNode(m.cells, x, f, fp);
    while x != NULL
      invariant Reads(m.cells, x, f, fp) && (x == NULL <==> f.Nil?) && ForestWeight(f) < Weight(t)
      invariant proper ==> AllProper(f) && AllNamed(f)
      invariant proper ==> (Contained(all, other) <==> Contained(FieldsMeaning(ForestFields(f), round), other))
      decreases f
    {
      ReadsNode(m.cells, x, f, fp);
      FirstMember(f, other, round);
      var y := NULL;
      ghost var v, vp, vn := u, NULL, NULL;
      if m.cells[x].key != NULL {
        y, v, vp, vn := GetObjectItem(m, b, m.cells[m.cells[x].key].bytes, u, p', n', round);
      }
      if y == NULL {
        return false;
      }
      var e := Compare(m, round, x, y, f.head, fp, First(f.tail), v, vp, vn);
      if !e {
        return false;
      }
      x, fp, f := m.cells[x].next, x, f.tail;
      ReadsNode(m.cells, x, f, fp);
    }
    within := true;
  }

  lemma FirstMember(f: Forest, other: map<CString, Value>, round: Rounding)
    requires f.Sibling?
    ensures AllNamed(f) ==> (Contained(FieldsMeaning(ForestFields(f), round), other) <==>
      && f.head.name in other && other[f.head.name] == Meaning(TreeItem(f.head), round)
      && Contained(FieldsMeaning(ForestFields(f.tail), round), other))
    ensures ForestWeight(f) == Weight(f.head) + ForestWeight(f.tail)
  {
    hide Meaning, TreeItem, Weight;
    if AllNamed(f) {
      var all, tail := FieldsMeaning(ForestFields(f), round), FieldsMeaning(ForestFields(f.tail), round);
      assert all == tail[f.head.name := Meaning(TreeItem(f.head), round)];
      assert forall k | k in tail :: k in all && all[k] == tail[k];
    }
  }
}
