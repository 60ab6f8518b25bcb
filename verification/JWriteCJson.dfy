/** The writer's output read back by cJSON: the item that the calls describe. */
module JWriteCJson {
  import opened Ascii
  import opened CJsonItem
  import J = JsonText
  import W = JWriteSpec
  import D = JWriteDenotation
  import S = JWriteSession
  import T = JWriteTokens
  import P = CJsonParse
  import R = CJsonRead
  import L = CJsonLayout
  import CJsonNumber
  import Digits
  import Dtoa
  import DtoaBuffer

  /** Raw text is a literal name or a numeral that cJSON reads whole. */
  predicate Literal(p: W.Payload) {
    p.Raw? ==> LitItem(p.text).Some?
  }

  /** cJSON reads the text as a number. */
  predicate ReadWhole(s: Bytes) {
    LitItem(s).Some? && LitItem(s).value.Number? && LitItem(s).value.text == s
  }

  /**
   * The numbers that the writer formats itself are read whole by cJSON: integers as they are, and others as the
   * nearest multiple of 10^-6, exactly if no carry was lost in writing.
   */
  lemma NumbersAreLiteral(n: int, x: real)
    requires INT_MIN <= n <= INT_MAX && Dtoa.Abs(x) <= INT_MAX as real
    ensures ReadWhole(Digits.Decimal(n)) && CJsonNumber.NumeralValue(Digits.Decimal(n)) == n as real
    ensures ReadWhole(Dtoa.Text(x, 6))
    ensures var y := Dtoa.ShiftReal(CJsonNumber.NumeralValue(Dtoa.Text(x, 6)), 6);
      y - 0.5 <= Dtoa.ShiftReal(x, 6) <= y + 0.5 <==> !Dtoa.CarryLost(x, 6)
  {
    CJsonNumber.IntegerRead(n);
    Digits.DecimalBytes(n);
    Digits.DecimalLength(n);
    NumeralIsLit(Digits.Decimal(n));
    hide *;
    CJsonNumber.WrittenRead(x, 6);
    CJsonNumber.WrittenNearest(x, 6);
    SixPlaces();
    DtoaBuffer.TextBytes(x, 6);
    DtoaBuffer.TextLength(x, 6);
    NumeralIsLit(Dtoa.Text(x, 6));
  }

  lemma SixPlaces()
    ensures Dtoa.ClampPrec(6) == 6
  {
  }

  lemma NumeralIsLit(s: Bytes)
    requires 0 < |s| <= NUMBER_LIMIT && StrtodLength(s) == |s|
      && (IsDigit(s[0]) || s[0] == MINUS) && Digits.NumberBytes(s)
    ensures ReadWhole(s)
  {
    hide StrtodLength;
    assert forall i :: 0 <= i < |s| ==> Digits.NumberByte(s[i]) && IsNumberByte(s[i]) && s[i] != 0;
  }

  predicate LiteralCall(c: W.Call) {
    match c
    case PutMember(_, p) => Literal(p)
    case PutElement(p) => Literal(p)
    case End => true
  }

  predicate Literals(calls: seq<W.Call>) {
    forall i :: 0 <= i < |calls| ==> LiteralCall(calls[i])
  }

  /** A body without quotes and backslashes denotes itself. */
  lemma PlainValue(s: CString)
    requires T.PlainBody(s)
    ensures BodyValue(s) == Some(s)
  {
    var c := s + [QUOTE];
    T.PlainBodyOk(s);
    AtSelf(c);
    AtSplit(c, 0, s, [QUOTE]);
    BodyCloses(c, 0, s);
    PlainDecodes(c, 0, s);
    BeforeAll(s);
  }

  lemma {:induction false} PlainDecodes(c: Bytes, p: nat, s: Bytes)
    requires T.PlainBody(s) && At(c, p, s) && p + |s| < |c|
    ensures Decode(c, p, p + |s|) == (Some(s), p + |s|)
    decreases |s|
  {
    if s != [] {
      PlainDecodes(c, p + 1, s[1..]);
      assert [s[0]] + s[1..] == s;
    }
  }

  /** What the calls describe denotes an item. */
  lemma {:induction false} ValueDenotes(pretty: bool, level: nat, p: W.Payload, calls: seq<W.Call>)
    requires T.PlainPayload(p) && T.Plain(calls) && Literal(p) && Literals(calls)
    ensures var (v, rest) := D.ReadValue(pretty, level, p, calls);
      ItemOf(v).Some? && T.Plain(rest) && Literals(rest)
    decreases |calls|, 1
  {
    hide BodyValue, LitItem, T.PlainBody, W.NewLine;
    match p
    case Raw(_) =>
    case Quoted(body) =>
      PlainValue(body);
    case NewObject =>
      MembersDenote(pretty, level + 1, calls);
    case NewArray =>
      ElemsDenote(pretty, level + 1, calls);
  }

  lemma {:induction false} ElemsDenote(pretty: bool, level: nat, calls: seq<W.Call>)
    requires level > 0 && T.Plain(calls) && Literals(calls)
    ensures var (es, rest) := D.ReadElems(pretty, level, calls);
      ItemsOf(es).Some? && T.Plain(rest) && Literals(rest)
    decreases |calls|, 0
  {
    hide ItemOf, W.NewLine;
    if calls != [] && calls[0].PutElement? {
      assert T.PlainCall(calls[0]) && LiteralCall(calls[0]);
      ValueDenotes(pretty, level, calls[0].payload, calls[1..]);
      ElemsDenote(pretty, level, D.ReadValue(pretty, level, calls[0].payload, calls[1..]).1);
    }
  }

  lemma {:induction false} MembersDenote(pretty: bool, level: nat, calls: seq<W.Call>)
    requires level > 0 && T.Plain(calls) && Literals(calls)
    ensures var (ms, rest) := D.ReadMembers(pretty, level, calls);
      FieldsOf(ms).Some? && T.Plain(rest) && Literals(rest)
    decreases |calls|, 0
  {
    hide ItemOf, BodyValue, W.NewLine;
    if calls != [] && calls[0].PutMember? {
      assert T.PlainCall(calls[0]) && LiteralCall(calls[0]);
      PlainValue(calls[0].key);
      ValueDenotes(pretty, level, calls[0].payload, calls[1..]);
      MembersDenote(pretty, level, D.ReadValue(pretty, level, calls[0].payload, calls[1..]).1);
    }
  }

  /** A well-structured value is nested no deeper than the writer's node stack. */
  lemma {:induction false} ValueDepth(pretty: bool, level: nat, kinds: seq<W.NodeKind>,
    p: W.Payload, calls: seq<W.Call>)
    requires 0 < |kinds| <= W.STACK_DEPTH && D.StructureIn(kinds, p, calls) == W.Ok
    ensures var (v, rest) := D.ReadValue(pretty, level, p, calls);
      |kinds| + Depth(v) <= W.STACK_DEPTH && D.Structure(kinds, rest) == W.Ok
    decreases |calls|, 1
  {
    hide W.NewLine, D.Structure;
    match p
    case Raw(_) =>
    case Quoted(_) =>
    case NewObject =>
      var inner := kinds + [W.ObjectNode];
      MembersFit(pretty, level + 1, inner, calls);
      Closed(kinds, inner, D.ReadMembers(pretty, level + 1, calls).1);
    case NewArray =>
      var inner := kinds + [W.ArrayNode];
      ElemsFit(pretty, level + 1, inner, calls);
      Closed(kinds, inner, D.ReadElems(pretty, level + 1, calls).1);
  }

  /** Behind the contents of a nested container stands its end. */
  lemma Closed(kinds: seq<W.NodeKind>, inner: seq<W.NodeKind>, rest: seq<W.Call>)
    requires |kinds| > 0 && |inner| == |kinds| + 1 && inner[..|kinds|] == kinds && D.Structure(inner, rest) == W.Ok
    requires rest != [] ==>
      !(rest[0].PutMember? && inner[|kinds|] == W.ObjectNode) && !(rest[0].PutElement? && inner[|kinds|] == W.ArrayNode)
    ensures D.Structure(kinds, D.SkipEnd(rest)) == W.Ok
  {
  }

  lemma {:induction false} ElemsFit(pretty: bool, level: nat, kinds: seq<W.NodeKind>, calls: seq<W.Call>)
    requires level > 0 && 0 < |kinds| <= W.STACK_DEPTH && kinds[|kinds| - 1] == W.ArrayNode
    requires D.Structure(kinds, calls) == W.Ok
    ensures var (es, rest) := D.ReadElems(pretty, level, calls);
      |kinds| + ElemsDepth(es) <= W.STACK_DEPTH && D.Structure(kinds, rest) == W.Ok
        && (rest != [] ==> !rest[0].PutElement?)
    decreases |calls|, 0
  {
    hide W.NewLine, Depth;
    if calls != [] && calls[0].PutElement? {
      ValueDepth(pretty, level, kinds, calls[0].payload, calls[1..]);
      ElemsFit(pretty, level, kinds, D.ReadValue(pretty, level, calls[0].payload, calls[1..]).1);
    }
  }

  lemma {:induction false} MembersFit(pretty: bool, level: nat, kinds: seq<W.NodeKind>, calls: seq<W.Call>)
    requires level > 0 && 0 < |kinds| <= W.STACK_DEPTH && kinds[|kinds| - 1] == W.ObjectNode
    requires D.Structure(kinds, calls) == W.Ok
    ensures var (ms, rest) := D.ReadMembers(pretty, level, calls);
      |kinds| + MembersDepth(ms) <= W.STACK_DEPTH && D.Structure(kinds, rest) == W.Ok
        && (rest != [] ==> !rest[0].PutMember?)
    decreases |calls|, 0
  {
    hide W.NewLine, Depth;
    if calls != [] && calls[0].PutMember? {
      ValueDepth(pretty, level, kinds, calls[0].payload, calls[1..]);
      MembersFit(pretty, level, kinds, D.ReadValue(pretty, level, calls[0].payload, calls[1..]).1);
    }
  }

  /**
   * Whenever jwClose returns OK for plain calls, cJSON accepts the written bytes, to their end, as the item that
   * the calls describe, compact or pretty.
   */
  lemma WriterToCJson(limit: nat, root: W.NodeKind, pretty: bool, calls: seq<W.Call>)
    requires T.Plain(calls) && Literals(calls) && W.Session(limit, root, pretty, calls).error == W.Ok
    ensures L.NoNul(W.Session(limit, root, pretty, calls).text)
    ensures var text := W.Session(limit, root, pretty, calls).text;
      && P.ParseWithOpts(text, true) == (ItemOf(D.Denote(root, pretty, calls)), |text|)
      && ItemOf(D.Denote(root, pretty, calls)).Some?
  {
    hide W.NewLine, J.ValueOk, ItemOf, Depth;
    var v := D.Denote(root, pretty, calls);
    S.SessionResult(limit, root, pretty, calls);
    T.RootItems(root, pretty, calls);
    RootDenotes(root, pretty, calls);
    L.TextNoNul(v);
    assert W.Session(limit, root, pretty, calls).text == J.Text(v);
    assert J.DocText(J.Doc([], v, [])) == J.Text(v);
    R.AcceptsStrict(J.Text(v), J.Doc([], v, []));
  }

  lemma RootDenotes(root: W.NodeKind, pretty: bool, calls: seq<W.Call>)
    requires T.Plain(calls) && Literals(calls) && D.Structure([root], calls) == W.Ok
    ensures ItemOf(D.Denote(root, pretty, calls)).Some? && Depth(D.Denote(root, pretty, calls)) <= W.STACK_DEPTH
  {
    hide W.NewLine;
    if root == W.ObjectNode {
      MembersDenote(pretty, 1, calls);
      MembersFit(pretty, 1, [root], calls);
    } else {
      ElemsDenote(pretty, 1, calls);
      ElemsFit(pretty, 1, [root], calls);
    }
  }
}
