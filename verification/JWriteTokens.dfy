/** The writer's output read back by the tokenizer: one token per root, key and value, in call order. */
module JWriteTokens {
  import opened Ascii
  import J = JsonText
  import W = JWriteSpec
  import D = JWriteDenotation
  import S = JWriteSession
  import T = JsmnSpec
  import Tree = JsmnTree
  import Digits
  import Dtoa
  import DtoaBuffer

  /** What a token says: its kind and, unless it is a container, the bytes that it spans. */
  datatype Item = Item(kind: T.Kind, content: Bytes)

  function Read(js: Bytes, t: T.Token): Item {
    Item(t.kind, if !t.IsContainer() && 0 <= t.start <= t.end <= |js| then js[t.start..t.end] else [])
  }

  /** The tokens say the items, one by one. */
  ghost predicate Says(js: Bytes, toks: seq<T.Token>, items: seq<Item>) {
    |toks| == |items| && forall i :: 0 <= i < |toks| ==> Read(js, toks[i]) == items[i]
  }

  lemma SaysJoin(js: Bytes, a: seq<T.Token>, x: seq<Item>, b: seq<T.Token>, y: seq<Item>)
    requires Says(js, a, x) && Says(js, b, y)
    ensures Says(js, a + b, x + y)
  {
  }

  /** The items of a value in preorder. */
  function Flat(v: J.Value): seq<Item> {
    match v
    case Lit(t) => [Item(T.Primitive, t)]
    case Str(raw) => [Item(T.Text, raw)]
    case Arr(_, es) => [Item(T.Array, [])] + FlatElems(es)
    case Obj(_, ms) => [Item(T.Object, [])] + FlatMembers(ms)
  }

  function FlatElems(es: J.Elems): seq<Item> {
    match es
    case NoElems => []
    case Elem(v, _, _, rest) => Flat(v) + FlatElems(rest)
  }

  function FlatMembers(ms: J.Members): seq<Item> {
    match ms
    case NoMembers => []
    case Member(key, _, _, v, _, _, rest) => [Item(T.Text, key)] + Flat(v) + FlatMembers(rest)
  }

  lemma AtContent(js: Bytes, at: nat, piece: Bytes)
    requires At(js, at, piece)
    ensures at + |piece| <= |js| && js[at..at + |piece|] == piece
  {
    AtIndex(js, at, piece);
  }

  lemma QuotedAt(js: Bytes, at: nat, raw: Bytes)
    requires At(js, at, J.Quoted(raw))
    ensures Read(js, T.Token(T.Text, at + 1, at + 1 + |raw|, 0, -1)) == Item(T.Text, raw)
    ensures Read(js, T.Token(T.Text, at + 1, at + 1 + |raw|, 1, -1)) == Item(T.Text, raw)
  {
    assert J.Quoted(raw) == [QUOTE] + (raw + [QUOTE]);
    AtHead(js, at, QUOTE, raw + [QUOTE]);
    AtSplit(js, at + 1, raw, [QUOTE]);
    AtContent(js, at + 1, raw);
  }

  lemma NoMembersSay(js: Bytes, at: nat, up: int, n: nat)
    ensures Says(js, Tree.MemberToks(false, J.NoMembers, at, up, n), FlatMembers(J.NoMembers))
  {
  }

  /** The tokens of a value that stands at `at` say its items. */
  lemma {:induction false} ReadValue(js: Bytes, v: J.Value, at: nat, up: int, n: nat)
    requires At(js, at, J.Text(v))
    ensures Says(js, Tree.Toks(false, v, at, up, n), Flat(v))
    decreases v, 1
  {
    match v
    case Lit(t) =>
      AtContent(js, at, t);
    case Str(raw) =>
      QuotedAt(js, at, raw);
    case Arr(_, _) =>
      ReadContainer(js, v, at, up, n);
    case Obj(_, _) =>
      ReadContainer(js, v, at, up, n);
  }

  lemma {:induction false} ReadContainer(js: Bytes, v: J.Value, at: nat, up: int, n: nat)
    requires At(js, at, J.Text(v)) && (v.Arr? || v.Obj?)
    ensures Says(js, Tree.Toks(false, v, at, up, n), Flat(v))
    decreases v, 0
  {
    hide Says, Tree.Toks, Flat, At, J.Text;
    match v
    case Arr(lead, es) =>
      J.ArrayAt(js, v, at);
      ReadElems(js, es, at + 1 + |lead|, n, n + 1);
      SaysArray(js, v, at, up, n);
    case Obj(lead, ms) =>
      J.ObjectAt(js, v, at);
      ReadMembers(js, ms, at + 1 + |lead|, n, n + 1);
      SaysObject(js, v, at, up, n);
  }

  lemma SaysArray(js: Bytes, v: J.Value, at: nat, up: int, n: nat)
    requires v.Arr? && Says(js, Tree.ElemToks(false, v.elems, at + 1 + |v.lead|, n, n + 1), FlatElems(v.elems))
    ensures Says(js, Tree.Toks(false, v, at, up, n), Flat(v))
  {
    SaysContainer(js, T.Token(T.Array, at, at + |J.Text(v)|, J.ElemCount(v.elems), -1),
      Tree.ElemToks(false, v.elems, at + 1 + |v.lead|, n, n + 1), FlatElems(v.elems),
        Tree.Toks(false, v, at, up, n), Flat(v));
  }

  lemma SaysObject(js: Bytes, v: J.Value, at: nat, up: int, n: nat)
    requires v.Obj? && Says(js, Tree.MemberToks(false, v.members, at + 1 + |v.lead|, n, n + 1), FlatMembers(v.members))
    ensures Says(js, Tree.Toks(false, v, at, up, n), Flat(v))
  {
    SaysContainer(js, T.Token(T.Object, at, at + |J.Text(v)|, J.MemberCount(v.members), -1),
      Tree.MemberToks(false, v.members, at + 1 + |v.lead|, n, n + 1),
        FlatMembers(v.members), Tree.Toks(false, v, at, up, n), Flat(v));
  }

  lemma SaysContainer(js: Bytes, t: T.Token, toks: seq<T.Token>, items: seq<Item>, all: seq<T.Token>, z: seq<Item>)
    requires t.IsContainer() && Says(js, toks, items) && all == [t] + toks && z == [Item(t.kind, [])] + items
    ensures Says(js, all, z)
  {
    SaysJoin(js, [t], [Item(t.kind, [])], toks, items);
  }

  lemma {:induction false} ReadElems(js: Bytes, es: J.Elems, at: nat, up: int, n: nat)
    requires At(js, at, J.ElemsText(es)) || es.NoElems?
    ensures Says(js, Tree.ElemToks(false, es, at, up, n), FlatElems(es))
    decreases es, 0
  {
    if es.Elem? {
      hide Says, Tree.Toks, Tree.ElemToks, Flat, FlatElems;
      J.ElemAt(js, es, at);
      ReadValue(js, es.v, at, up, n);
      ReadElems(js, es.rest, at + |J.Text(es.v)| + |es.post| + 1 + |es.sep|, up, n + Tree.Count(es.v));
      SaysElems(js, es, at, up, n);
    }
  }

  lemma SaysElems(js: Bytes, es: J.Elems, at: nat, up: int, n: nat)
    requires es.Elem? && Says(js, Tree.Toks(false, es.v, at, up, n), Flat(es.v))
    requires var next := at + |J.Text(es.v)| + |es.post| + 1 + |es.sep|;
      Says(js, Tree.ElemToks(false, es.rest, next, up, n + Tree.Count(es.v)), FlatElems(es.rest))
    ensures Says(js, Tree.ElemToks(false, es, at, up, n), FlatElems(es))
  {
    var next := at + |J.Text(es.v)| + |es.post| + 1 + |es.sep|;
    SaysElem(js, Tree.Toks(false, es.v, at, up, n), Flat(es.v),
      Tree.ElemToks(false, es.rest, next, up, n + Tree.Count(es.v)), FlatElems(es.rest),
      Tree.ElemToks(false, es, at, up, n), FlatElems(es));
  }

  lemma SaysElem(js: Bytes, v: seq<T.Token>, x: seq<Item>, later: seq<T.Token>, y: seq<Item>,
      all: seq<T.Token>, z: seq<Item>)
    requires Says(js, v, x) && Says(js, later, y) && all == v + later && z == x + y
    ensures Says(js, all, z)
  {
    SaysJoin(js, v, x, later, y);
  }

  lemma {:induction false} ReadMembers(js: Bytes, ms: J.Members, at: nat, up: int, n: nat)
    requires At(js, at, J.MembersText(ms)) || ms.NoMembers?
    ensures Says(js, Tree.MemberToks(false, ms, at, up, n), FlatMembers(ms))
    decreases ms, 0
  {
    if ms.NoMembers? {
      NoMembersSay(js, at, up, n);
    } else {
      hide Says, Tree.Toks, Tree.MemberToks, Flat, FlatMembers, At;
      var value := J.ValueAt(ms, at);
      J.MemberAt(js, ms, at);
      ReadValue(js, ms.v, value, n, n + 1);
      ReadMembers(js, ms.rest, value + |J.Text(ms.v)| + |ms.post| + 1 + |ms.sep|, up, n + 1 + Tree.Count(ms.v));
      SaysMembers(js, ms, at, up, n);
    }
  }

  lemma SaysMembers(js: Bytes, ms: J.Members, at: nat, up: int, n: nat)
    requires ms.Member? && At(js, at, J.Quoted(ms.key))
    requires Says(js, Tree.Toks(false, ms.v, J.ValueAt(ms, at), n, n + 1), Flat(ms.v))
    requires var next := J.ValueAt(ms, at) + |J.Text(ms.v)| + |ms.post| + 1 + |ms.sep|;
      Says(js, Tree.MemberToks(false, ms.rest, next, up, n + 1 + Tree.Count(ms.v)), FlatMembers(ms.rest))
    ensures Says(js, Tree.MemberToks(false, ms, at, up, n), FlatMembers(ms))
  {
    var next := J.ValueAt(ms, at) + |J.Text(ms.v)| + |ms.post| + 1 + |ms.sep|;
    SaysMember(js, at, ms.key, Tree.Toks(false, ms.v, J.ValueAt(ms, at), n, n + 1), Flat(ms.v),
      Tree.MemberToks(false, ms.rest, next, up, n + 1 + Tree.Count(ms.v)), FlatMembers(ms.rest),
      Tree.MemberToks(false, ms, at, up, n), FlatMembers(ms));
  }

  lemma SaysMember(js: Bytes, at: nat, raw: Bytes, v: seq<T.Token>, x: seq<Item>, later: seq<T.Token>, y: seq<Item>,
                   all: seq<T.Token>, z: seq<Item>)
    requires At(js, at, J.Quoted(raw)) && Says(js, v, x) && Says(js, later, y)
    requires all == [T.Token(T.Text, at + 1, at + 1 + |raw|, 1, -1)] + v + later && z == [Item(T.Text, raw)] + x + y
    ensures Says(js, all, z)
  {
    QuotedAt(js, at, raw);
    var key := [T.Token(T.Text, at + 1, at + 1 + |raw|, 1, -1)];
    SaysJoin(js, key, [Item(T.Text, raw)], v, x);
    SaysJoin(js, key + v, [Item(T.Text, raw)] + x, later, y);
  }

  function PayloadItem(p: W.Payload): Item {
    match p
    case Raw(text) => Item(T.Primitive, text)
    case Quoted(body) => Item(T.Text, body)
    case NewObject => Item(T.Object, [])
    case NewArray => Item(T.Array, [])
  }

  /** The items that the calls write, in call order. */
  function Items(calls: seq<W.Call>): seq<Item>
    decreases |calls|
  {
    if calls == [] then []
    else
      (match calls[0]
       case PutMember(key, p) => [Item(T.Text, key)] + [PayloadItem(p)]
       case PutElement(p) => [PayloadItem(p)]
       case End => []) + Items(calls[1..])
  }

  /** Strings without quotes and backslashes, and raw text that is a JSON primitive. */
  predicate PlainPayload(p: W.Payload) {
    match p
    case Raw(text) => J.LitOk(text)
    case Quoted(body) => PlainBody(body)
    case _ => true
  }

  predicate PlainBody(s: Bytes) {
    forall i :: 0 <= i < |s| ==> s[i] != NUL && s[i] != QUOTE && s[i] != BACKSLASH
  }

  predicate PlainCall(c: W.Call) {
    match c
    case PutMember(key, p) => PlainBody(key) && PlainPayload(p)
    case PutElement(p) => PlainPayload(p)
    case End => true
  }

  predicate Plain(calls: seq<W.Call>) {
    forall i :: 0 <= i < |calls| ==> PlainCall(calls[i])
  }

  /** The numbers that the writer formats itself are JSON primitives. */
  lemma NumbersArePlain(n: int, x: real)
    ensures J.LitOk(Digits.Decimal(n)) && J.LitOk(Dtoa.Text(x, 6))
  {
    Digits.DecimalBytes(n);
    DtoaBuffer.TextBytes(x, 6);
    NumberIsLit(Digits.Decimal(n));
    NumberIsLit(Dtoa.Text(x, 6));
  }

  lemma NumberIsLit(s: Bytes)
    requires Digits.NumberBytes(s) && |s| > 0
    ensures J.LitOk(s)
  {
    assert forall i :: 0 <= i < |s| ==> Digits.NumberByte(s[i]) && J.LitByte(s[i]);
  }

  lemma {:induction false} PlainBodyOk(s: Bytes)
    requires PlainBody(s)
    ensures J.BodyOk(s)
    decreases |s|
  {
    if s != [] {
      PlainBodyOk(s[1..]);
    }
  }

  lemma NewLineBlank(pretty: bool, n: nat)
    ensures AllBlank(W.NewLine(pretty, n))
  {
  }

  /** Reading a value takes a suffix of the calls, and writes well-formed text and the items of the calls taken. */
  lemma {:induction false} ValueItems(pretty: bool, level: nat, p: W.Payload, calls: seq<W.Call>)
    requires PlainPayload(p) && Plain(calls)
    ensures var (v, rest) := D.ReadValue(pretty, level, p, calls);
      J.ValueOk(v) && Plain(rest) && [PayloadItem(p)] + Items(calls) == Flat(v) + Items(rest)
    decreases |calls|, 1
  {
    match p
    case Raw(_) =>
    case Quoted(body) =>
      PlainBodyOk(body);
    case NewObject =>
      MembersItems(pretty, level + 1, calls);
      NewLineBlank(pretty, level + 1);
      var (ms, rest) := D.ReadMembers(pretty, level + 1, calls);
      Regroup([PayloadItem(p)], FlatMembers(ms), Items(rest));
      EndItems(rest);
    case NewArray =>
      ElemsItems(pretty, level + 1, calls);
      NewLineBlank(pretty, level + 1);
      var (es, rest) := D.ReadElems(pretty, level + 1, calls);
      Regroup([PayloadItem(p)], FlatElems(es), Items(rest));
      EndItems(rest);
  }

  lemma Regroup(a: seq<Item>, b: seq<Item>, c: seq<Item>)
    ensures a + (b + c) == (a + b) + c
  {
  }

  lemma EndItems(calls: seq<W.Call>)
    requires Plain(calls)
    ensures Plain(D.SkipEnd(calls)) && Items(D.SkipEnd(calls)) == Items(calls)
  {
  }

  lemma {:induction false} ElemsItems(pretty: bool, level: nat, calls: seq<W.Call>)
    requires level > 0 && Plain(calls)
    ensures var (es, rest) := D.ReadElems(pretty, level, calls);
      J.ElemsOk(es) && Plain(rest) && Items(calls) == FlatElems(es) + Items(rest)
    decreases |calls|, 0
  {
    if calls != [] && calls[0].PutElement? {
      assert PlainCall(calls[0]);
      var (v, rest) := D.ReadValue(pretty, level, calls[0].payload, calls[1..]);
      ValueItems(pretty, level, calls[0].payload, calls[1..]);
      ElemsItems(pretty, level, rest);
      var (es, rest') := D.ReadElems(pretty, level, rest);
      NewLineBlank(pretty, level);
      NewLineBlank(pretty, level - 1);
      Regroup(Flat(v), FlatElems(es), Items(rest'));
    }
  }

  lemma {:induction false} MembersItems(pretty: bool, level: nat, calls: seq<W.Call>)
    requires level > 0 && Plain(calls)
    ensures var (ms, rest) := D.ReadMembers(pretty, level, calls);
      J.MembersOk(ms) && Plain(rest) && Items(calls) == FlatMembers(ms) + Items(rest)
    decreases |calls|, 0
  {
    if calls != [] && calls[0].PutMember? {
      assert PlainCall(calls[0]);
      var key := Item(T.Text, calls[0].key);
      var p := calls[0].payload;
      var (v, rest) := D.ReadValue(pretty, level, p, calls[1..]);
      ValueItems(pretty, level, p, calls[1..]);
      MembersItems(pretty, level, rest);
      var (ms, rest') := D.ReadMembers(pretty, level, rest);
      NewLineBlank(pretty, level);
      NewLineBlank(pretty, level - 1);
      PlainBodyOk(calls[0].key);
      Regroup([key], [PayloadItem(p)], Items(calls[1..]));
      Regroup([key], Flat(v), Items(rest));
      Regroup([key] + Flat(v), FlatMembers(ms), Items(rest'));
    }
  }

  /** Well-structured calls of a root are read to their end. */
  lemma RootItems(root: W.NodeKind, pretty: bool, calls: seq<W.Call>)
    requires D.Structure([root], calls) == W.Ok && Plain(calls)
    ensures var v := D.Denote(root, pretty, calls);
      J.ValueOk(v) && Flat(v) == [Item(if root == W.ObjectNode then T.Object else T.Array, [])] + Items(calls)
  {
    NewLineBlank(pretty, 0);
    NewLineBlank(pretty, 1);
    S.RestOfRoot(root, pretty, calls);
    if root == W.ObjectNode {
      MembersItems(pretty, 1, calls);
    } else {
      ElemsItems(pretty, 1, calls);
    }
  }

  /**
   * Whenever jwClose returns OK for plain calls, jsmn accepts the written bytes, with a token array that is
   * just large enough, and its tokens are the root and every key and value of the calls in call order.
   */
  lemma WriterToTokens(limit: nat, root: W.NodeKind, pretty: bool, calls: seq<W.Call>, cap: nat)
    requires Plain(calls)
    requires W.Session(limit, root, pretty, calls).error == W.Ok
    requires cap >= 1 + |Items(calls)|
    ensures var js := W.Session(limit, root, pretty, calls).text;
      var (r, s) := T.Run(false, js, cap, T.INIT);
      && r == T.Done(1 + |Items(calls)|)
      && Says(js, s.toks, [Item(if root == W.ObjectNode then T.Object else T.Array, [])] + Items(calls))
  {
    S.SessionResult(limit, root, pretty, calls);
    RootItems(root, pretty, calls);
    var v := D.Denote(root, pretty, calls);
    assert W.Session(limit, root, pretty, calls).text == J.Text(v);
    WholeText(v, cap);
  }

  /** The text of a value, all by itself, gives the tokens of its items. */
  lemma WholeText(v: J.Value, cap: nat)
    requires J.ValueOk(v) && |Flat(v)| <= cap
    ensures var (r, s) := T.Run(false, J.Text(v), cap, T.INIT);
      r == T.Done(|Flat(v)|) && Says(J.Text(v), s.toks, Flat(v))
  {
    var doc := J.Doc([], v, []);
    assert J.DocText(doc) == J.Text(v);
    AtIndex(J.Text(v), 0, J.Text(v));
    ReadValue(J.Text(v), v, 0, -1, 0);
    Tree.DocRun(false, doc, cap);
  }
}
