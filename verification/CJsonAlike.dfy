/** When two items mean the same, member by member: an independent reading of what cJSON_Compare decides. */
module CJsonAlike {
  import opened Ascii
  import opened CJsonItem
  import opened CJsonCompare
  import opened CJsonMemory
  import opened CJsonNumber

  /** No object has two members of the same name. */
  predicate Distinct(item: Item) {
    match item
    case Array(items) => DistinctItems(items)
    case Object(fields) => DistinctFields(fields)
    case _ => true
  }

  predicate DistinctItems(items: Items) {
    match items
    case NoItems => true
    case Cons(v, rest) => Distinct(v) && DistinctItems(rest)
  }

  predicate DistinctFields(fields: Fields) {
    match fields
    case NoFields => true
    case Field(key, v, rest) => Distinct(v) && key !in FieldNames(rest) && DistinctFields(rest)
  }

  /** The first member of a name. */
  function MemberOf(fields: Fields, name: CString): Item
    requires name in FieldNames(fields)
  {
    if fields.key == name then fields.value else MemberOf(fields.rest, name)
  }

  /**
   * The items are of the same kind; numbers are equal after rounding, strings byte by byte, arrays element by element
   * in order, and objects have the same names and under each name items that are alike, in any order.
   */
  predicate Alike(a: Item, b: Item, round: Rounding)
    decreases a
  {
    match a
    case Invalid => b.Invalid?
    case Null => b.Null?
    case False => b.False?
    case True => b.True?
    case Number(s) => b.Number? && round(NumeralValue(s)) == round(NumeralValue(b.text))
    case String(s) => b.String? && s == b.value
    case Raw(s) => b.Raw? && s == b.raw
    case Array(items) => b.Array? && AllAlike(items, b.items, round)
    case Object(fields) =>
      b.Object? && FieldNames(fields) == FieldNames(b.fields) && MembersAlike(fields, b.fields, round)
  }

  predicate AllAlike(a: Items, b: Items, round: Rounding)
    decreases a
  {
    if a.NoItems? then b.NoItems? else b.Cons? && Alike(a.head, b.head, round) && AllAlike(a.tail, b.tail, round)
  }

  /** Every member has one of the same name in `b` that is alike. */
  predicate MembersAlike(a: Fields, b: Fields, round: Rounding)
    decreases a
  {
    a.Field? ==>
      && a.key in FieldNames(b) && Alike(a.value, MemberOf(b, a.key), round) && MembersAlike(a.rest, b, round)
  }

  /** The value of a name in the meaning of an object is that of the first member of the name. */
  lemma {:induction false} MeaningAt(fields: Fields, name: CString, round: Rounding)
    requires name in FieldNames(fields)
    ensures FieldsMeaning(fields, round)[name] == Meaning(MemberOf(fields, name), round)
    decreases fields
  {
    hide Meaning;
    if fields.key != name {
      MeaningAt(fields.rest, name, round);
    }
  }

  lemma {:induction false} DistinctMember(fields: Fields, name: CString)
    requires DistinctFields(fields) && name in FieldNames(fields)
    ensures Distinct(MemberOf(fields, name))
    decreases fields
  {
    hide Distinct;
    if fields.key != name {
      DistinctMember(fields.rest, name);
    }
  }

  /** Two items without repeated names mean the same exactly if they are alike. */
  lemma {:induction false} MeaningAlike(a: Item, b: Item, round: Rounding)
    requires Distinct(a) && Distinct(b)
    ensures Meaning(a, round) == Meaning(b, round) <==> Alike(a, b, round)
    decreases a
  {
    hide NumeralValue;
    if a.Array? && b.Array? {
      ItemsAlike(a.items, b.items, round);
    } else if a.Object? && b.Object? {
      FieldsAlike(a.fields, b.fields, round);
    }
  }

  lemma {:induction false} ItemsAlike(a: Items, b: Items, round: Rounding)
    requires DistinctItems(a) && DistinctItems(b)
    ensures ItemsMeaning(a, round) == ItemsMeaning(b, round) <==> AllAlike(a, b, round)
    decreases a
  {
    hide Meaning, Alike, Distinct;
    if a.Cons? && b.Cons? {
      MeaningAlike(a.head, b.head, round);
      ItemsAlike(a.tail, b.tail, round);
      HeadTail(Meaning(a.head, round), ItemsMeaning(a.tail, round),
        Meaning(b.head, round), ItemsMeaning(b.tail, round));
    }
  }

  lemma HeadTail(v: Value, s: seq<Value>, w: Value, t: seq<Value>)
    ensures [v] + s == [w] + t <==> v == w && s == t
  {
    if [v] + s == [w] + t {
      assert ([v] + s)[0] == ([w] + t)[0] && ([v] + s)[1..] == ([w] + t)[1..];
    }
  }

  /** The members of `a` mean in `b` what they mean in `a`. */
  lemma {:induction false} MembersMean(a: Fields, b: Fields, round: Rounding)
    requires DistinctFields(a) && DistinctFields(b)
    ensures MembersAlike(a, b, round) <==>
      forall name | name in FieldNames(a) ::
        name in FieldNames(b) && FieldsMeaning(a, round)[name] == FieldsMeaning(b, round)[name]
    decreases a, 0
  {
    hide Meaning, Alike, Distinct, FieldsMeaning;
    if a.Field? {
      MembersMean(a.rest, b, round);
      FieldsStep(a, round);
      if a.key in FieldNames(b) {
        DistinctMember(b, a.key);
        MeaningAlike(a.value, MemberOf(b, a.key), round);
        MeaningAt(b, a.key, round);
      }
    }
  }

  lemma FieldsStep(a: Fields, round: Rounding)
    requires a.Field?
    ensures FieldsMeaning(a, round) == FieldsMeaning(a.rest, round)[a.key := Meaning(a.value, round)]
  {
  }

  lemma {:induction false} FieldsAlike(a: Fields, b: Fields, round: Rounding)
    requires DistinctFields(a) && DistinctFields(b)
    ensures FieldsMeaning(a, round) == FieldsMeaning(b, round)
      <==> FieldNames(a) == FieldNames(b) && MembersAlike(a, b, round)
    decreases a, 1
  {
    hide Meaning, Alike, Distinct;
    MembersMean(a, b, round);
    var f, g := FieldsMeaning(a, round), FieldsMeaning(b, round);
    hide FieldsMeaning, MembersAlike;
    assert f.Keys == FieldNames(a) && g.Keys == FieldNames(b);
    if f.Keys == g.Keys && forall name | name in f :: f[name] == g[name] {
      assert f == g;
    }
  }

  lemma {:induction false} ProperDistinct(t: Tree)
    requires Proper(t)
    ensures Distinct(TreeItem(t))
    decreases t, 0
  {
    if t.kind.ArrayKind? || t.kind.ObjectKind? {
      ProperDistinctIn(t.children);
    }
  }

  lemma {:induction false} ProperDistinctIn(f: Forest)
    requires AllProper(f)
    ensures DistinctItems(ForestItems(f)) && (AllNamed(f) ==> DistinctFields(ForestFields(f)))
    decreases f, 1
  {
    hide Proper, TreeItem, Distinct;
    if f.Sibling? {
      ProperDistinct(f.head);
      ProperDistinctIn(f.tail);
    }
  }

  /** On proper items cJSON_Compare decides whether they are alike. */
  lemma ComparedAlike(t: Tree, u: Tree, round: Rounding)
    requires Proper(t) && Proper(u)
    ensures Meaning(TreeItem(t), round) == Meaning(TreeItem(u), round) <==> Alike(TreeItem(t), TreeItem(u), round)
  {
    ProperDistinct(t);
    ProperDistinct(u);
    MeaningAlike(TreeItem(t), TreeItem(u), round);
  }
}
