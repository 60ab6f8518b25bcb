/** What jsmn produces on JSON: the tokens of the tree in preorder, with exact spans and sizes. */
module JsmnTree {
  import opened Ascii
  import opened JsmnSpec
  import J = JsonText

  /** Number of tokens of a value. */
  function Count(v: J.Value): nat {
    match v
    case Lit(_) => 1
    case Str(_) => 1
    case Arr(_, es) => 1 + ElemsTokens(es)
    case Obj(_, ms) => 1 + MembersTokens(ms)
  }

  function ElemsTokens(es: J.Elems): nat {
    match es
    case NoElems => 0
    case Elem(v, _, _, rest) => Count(v) + ElemsTokens(rest)
  }

  function MembersTokens(ms: J.Members): nat {
    match ms
    case NoMembers => 0
    case Member(_, _, _, v, _, _, rest) => 1 + Count(v) + MembersTokens(rest)
  }

  /**
   * The tokens of `v` in preorder, when its text stands at `at`, its parent token is `up` and its own
   * token has index `n`. An array's size is its number of elements, an object's its number of members,
   * a key's is 1.
   */
  function Toks(links: bool, v: J.Value, at: nat, up: int, n: nat): (r: seq<Token>)
    ensures |r| == Count(v)
  {
    var p := Parent(links, up);
    match v
    case Lit(t) => [Token(Primitive, at, at + |t|, 0, p)]
    case Str(raw) => [Token(Text, at + 1, at + 1 + |raw|, 0, p)]
    case Arr(lead, es) =>
      [Token(Array, at, at + |J.Text(v)|, J.ElemCount(es), p)] + ElemToks(links, es, at + 1 + |lead|, n, n + 1)
    case Obj(lead, ms) =>
      [Token(Object, at, at + |J.Text(v)|, J.MemberCount(ms), p)] + MemberToks(links, ms, at + 1 + |lead|, n, n + 1)
  }

  function ElemToks(links: bool, es: J.Elems, at: nat, up: int, n: nat): (r: seq<Token>)
    ensures |r| == ElemsTokens(es)
  {
    match es
    case NoElems => []
    case Elem(v, post, sep, rest) =>
      Toks(links, v, at, up, n) + ElemToks(links, rest, at + |J.Text(v)| + |post| + 1 + |sep|, up, n + Count(v))
  }

  function MemberToks(links: bool, ms: J.Members, at: nat, up: int, n: nat): (r: seq<Token>)
    ensures |r| == MembersTokens(ms)
  {
    match ms
    case NoMembers => []
    case Member(key, preColon, postColon, v, post, sep, rest) =>
      var value := at + |key| + 2 + |preColon| + 1 + |postColon|;
      [Token(Text, at + 1, at + 1 + |key|, 1, Parent(links, up))]
      + Toks(links, v, value, n, n + 1)
      + MemberToks(links, rest, value + |J.Text(v)| + |post| + 1 + |sep|, up, n + 1 + Count(v))
  }

  /** Every token is closed and, with links, descends from `up`. */
  predicate Below(links: bool, toks: seq<Token>, up: int) {
    forall i :: 0 <= i < |toks| ==> !toks[i].IsOpen() && (links ==> toks[i].parent >= up)
  }

  lemma BelowJoin(links: bool, a: seq<Token>, b: seq<Token>, up: int)
    requires Below(links, a, up) && Below(links, b, up)
    ensures Below(links, a + b, up)
  {
  }

  lemma BelowUp(links: bool, a: seq<Token>, up: int, lower: int)
    requires Below(links, a, up) && lower <= up
    ensures Below(links, a, lower)
  {
  }

  lemma {:induction false} ToksBelow(links: bool, v: J.Value, at: nat, up: int, n: nat)
    requires up <= n
    ensures Below(links, Toks(links, v, at, up, n), up)
    decreases v, 1
  {
    match v
    case Lit(_) =>
    case Str(_) =>
    case Arr(lead, es) =>
      var children := ElemToks(links, es, at + 1 + |lead|, n, n + 1);
      ElemToksBelow(links, es, at + 1 + |lead|, n, n + 1);
      BelowUp(links, children, n, up);
      BelowJoin(links, [Token(Array, at, at + |J.Text(v)|, J.ElemCount(es), Parent(links, up))], children, up);
    case Obj(lead, ms) =>
      var children := MemberToks(links, ms, at + 1 + |lead|, n, n + 1);
      MemberToksBelow(links, ms, at + 1 + |lead|, n, n + 1);
      BelowUp(links, children, n, up);
      BelowJoin(links, [Token(Object, at, at + |J.Text(v)|, J.MemberCount(ms), Parent(links, up))], children, up);
  }

  lemma {:induction false} ElemToksBelow(links: bool, es: J.Elems, at: nat, up: int, n: nat)
    requires up <= n
    ensures Below(links, ElemToks(links, es, at, up, n), up)
    decreases es, 0
  {
    if es.Elem? {
      var next := at + |J.Text(es.v)| + |es.post| + 1 + |es.sep|;
      ToksBelow(links, es.v, at, up, n);
      ElemToksBelow(links, es.rest, next, up, n + Count(es.v));
      BelowJoin(links, Toks(links, es.v, at, up, n), ElemToks(links, es.rest, next, up, n + Count(es.v)), up);
    }
  }

  lemma {:induction false} MemberToksBelow(links: bool, ms: J.Members, at: nat, up: int, n: nat)
    requires up <= n
    ensures Below(links, MemberToks(links, ms, at, up, n), up)
    decreases ms, 0
  {
    if ms.Member? {
      var value := J.ValueAt(ms, at);
      var next := value + |J.Text(ms.v)| + |ms.post| + 1 + |ms.sep|;
      var key := [Token(Text, at + 1, at + 1 + |ms.key|, 1, Parent(links, up))];
      var v := Toks(links, ms.v, value, n, n + 1);
      ToksBelow(links, ms.v, value, n, n + 1);
      BelowUp(links, v, n, up);
      MemberToksBelow(links, ms.rest, next, up, n + 1 + Count(ms.v));
      BelowJoin(links, key, v, up);
      BelowJoin(links, key + v, MemberToks(links, ms.rest, next, up, n + 1 + Count(ms.v)), up);
    }
  }

  /** A primitive cannot go on at `e`. */
  predicate TokenEnds(js: Bytes, e: nat) {
    !Active(js, e) || IsDelimiter(js[e])
  }

  lemma {:induction false} ScanLit(js: Bytes, at: nat, t: Bytes)
    requires At(js, at, t) && (forall i :: 0 <= i < |t| ==> J.LitByte(t[i])) && TokenEnds(js, at + |t|)
    ensures ScanPrimitive(js, at) == Found(at + |t|)
    decreases |t|
  {
    if |t| > 0 {
      assert t == [t[0]] + t[1..];
      AtHead(js, at, t[0], t[1..]);
      ScanLit(js, at + 1, t[1..]);
    }
  }

  lemma {:induction false} ScanBody(js: Bytes, at: nat, raw: Bytes)
    requires At(js, at, raw + [QUOTE]) && J.BodyOk(raw)
    ensures ScanString(js, at) == Found(at + |raw|)
    decreases |raw|
  {
    var s := raw + [QUOTE];
    AtIndex(js, at, s);
    assert js[at + 0] == s[0];
    if raw == [] {
    } else if raw[0] != BACKSLASH {
      AtSuffix(js, at, s, 1);
      assert s[1..] == raw[1..] + [QUOTE];
      ScanBody(js, at + 1, raw[1..]);
    } else if IsShortEscape(raw[1]) {
      assert js[at + 1] == s[1];
      AtSuffix(js, at, s, 2);
      assert s[2..] == raw[2..] + [QUOTE];
      ScanBody(js, at + 2, raw[2..]);
    } else {
      assert js[at + 1] == s[1];
      assert js[at + 2] == s[2] && js[at + 3] == s[3] && js[at + 4] == s[4] && js[at + 5] == s[5];
      ScanDigits(js, at + 2, 4);
      AtSuffix(js, at, s, 6);
      assert s[6..] == raw[6..] + [QUOTE];
      ScanBody(js, at + 6, raw[6..]);
    }
  }

  lemma {:induction false} ScanDigits(js: Bytes, at: nat, n: nat)
    requires at + n <= |js| && forall i :: at <= i < at + n ==> IsHex(js[i])
    ensures ScanHex(js, at, n) == Found(at + n)
    decreases n
  {
    if n > 0 {
      ScanDigits(js, at + 1, n - 1);
    }
  }

  /** With room for the tokens of `t`, every run from `s` goes on as the run from `t`. */
  ghost predicate Leads(links: bool, js: Bytes, s: State, t: State) {
    Valid(s) && Valid(t) && forall cap: nat :: |t.toks| <= cap ==> Run(links, js, cap, s) == Run(links, js, cap, t)
  }

  lemma LeadsStep(links: bool, js: Bytes, s: State, t: State)
    requires Valid(s) && Active(js, s.pos)
    requires forall cap: nat :: |t.toks| <= cap ==> Step(links, js, cap, s) == Next(t)
    ensures Leads(links, js, s, t)
  {
    assert Step(links, js, |t.toks|, s) == Next(t);
  }

  lemma LeadsOn(links: bool, js: Bytes, s: State, t: State, u: State)
    requires Leads(links, js, s, t) && Leads(links, js, t, u) && |t.toks| <= |u.toks|
    ensures Leads(links, js, s, u)
  {
  }

  lemma {:induction false} RunBlank(links: bool, js: Bytes, s: State, ws: Bytes)
    requires Valid(s) && At(js, s.pos, ws) && AllBlank(ws)
    ensures Leads(links, js, s, s.(pos := s.pos + |ws|))
    decreases |ws|
  {
    if |ws| > 0 {
      assert ws == [ws[0]] + ws[1..];
      AtHead(js, s.pos, ws[0], ws[1..]);
      var t := s.(pos := s.pos + 1);
      LeadsStep(links, js, s, t);
      RunBlank(links, js, t, ws[1..]);
      LeadsOn(links, js, s, t, s.(pos := s.pos + |ws|));
    }
  }

  /** What stands after blanks ends a token, so the blanks do too. */
  lemma BlankEnds(js: Bytes, at: nat, ws: Bytes, after: Bytes)
    requires At(js, at, ws + after) && AllBlank(ws) && |after| > 0 && IsDelimiter(after[0])
    ensures TokenEnds(js, at)
  {
    var all := ws + after;
    assert js[at + 0] == all[0];
  }

  /** `toks` with `n` more children for the token at `i`. */
  function BumpBy(toks: seq<Token>, i: nat, n: nat): (r: seq<Token>)
    requires i < |toks|
    ensures |r| == |toks|
  {
    toks[i := toks[i].(size := toks[i].size + n)]
  }

  lemma BumpJoin(toks: seq<Token>, k: nat, n: nat, first: seq<Token>, rest: seq<Token>)
    requires k < |toks|
    ensures BumpBy(BumpBy(toks, k, 1) + first, k, n) + rest == BumpBy(toks, k, n + 1) + (first + rest)
  {
    assert BumpBy(BumpBy(toks, k, 1) + first, k, n) == BumpBy(toks, k, n + 1) + first;
  }

  /** The state is inside container `k`: every later token is closed and, with links, descends from it. */
  predicate Inside(links: bool, s: State, k: nat) {
    && Valid(s) && k < |s.toks| && s.toks[k].IsOpen()
    && (forall i :: k < i < |s.toks| ==> !s.toks[i].IsOpen())
    && (links ==> forall i :: k < i < |s.toks| ==> s.toks[i].parent >= k)
  }

  lemma {:induction false} InsideLast(toks: seq<Token>, k: nat, n: nat)
    requires k < n <= |toks| && toks[k].IsOpen() && forall i :: k < i < n ==> !toks[i].IsOpen()
    ensures LastOpen(toks, n) == k
    decreases n
  {
    if n - 1 > k {
      InsideLast(toks, k, n - 1);
    }
  }

  lemma {:induction false} InsideClimb(toks: seq<Token>, k: nat, i: nat)
    requires ParentsBelow(toks) && k <= i < |toks| && toks[k].IsOpen()
    requires forall j :: k < j < |toks| ==> !toks[j].IsOpen() && toks[j].parent >= k
    ensures Climb(toks, i) == k
    decreases i
  {
    if i > k {
      InsideClimb(toks, k, toks[i].parent);
    }
  }

  lemma {:induction false} LastOpenSame(a: seq<Token>, b: seq<Token>, n: nat)
    requires n <= |a| && n <= |b| && forall i :: 0 <= i < n ==> a[i].IsOpen() == b[i].IsOpen()
    ensures LastOpen(a, n) == LastOpen(b, n)
    decreases n
  {
    if n > 0 {
      LastOpenSame(a, b, n - 1);
    }
  }

  /**
   * The superior token after a value: closing a container moves it to the last open one, unless parents are recorded.
   */
  function SuperAfter(links: bool, v: J.Value, s: State): int
  {
    if !links && (v.Arr? || v.Obj?) then LastOpen(s.toks, |s.toks|) else s.super
  }

  /** Where a value that starts in `s` leaves the tokenizer. */
  function AfterValue(links: bool, v: J.Value, s: State): State
    requires Valid(s)
  {
    State(s.pos + |J.Text(v)|, SuperAfter(links, v, s),
      Bump(s.toks, s.super) + Toks(links, v, s.pos, s.super, |s.toks|))
  }

  lemma {:induction false} ValueRun(links: bool, js: Bytes, v: J.Value, s: State)
    requires Valid(s) && J.ValueOk(v) && At(js, s.pos, J.Text(v)) && TokenEnds(js, s.pos + |J.Text(v)|)
    ensures Leads(links, js, s, AfterValue(links, v, s))
    decreases v, 1
  {
    match v
    case Lit(t) =>
      LitRun(links, js, v, s);
    case Str(raw) =>
      StrRun(links, js, v, s);
    case Arr(lead, es) =>
      ArrayRun(links, js, v, s);
    case Obj(lead, ms) =>
      ObjectRun(links, js, v, s);
  }

  lemma {:induction false} LitRun(links: bool, js: Bytes, v: J.Value, s: State)
    requires v.Lit? && Valid(s) && J.ValueOk(v) && At(js, s.pos, v.text) && TokenEnds(js, s.pos + |v.text|)
    ensures Leads(links, js, s, AfterValue(links, v, s))
  {
    assert v.text == [v.text[0]] + v.text[1..];
    AtHead(js, s.pos, v.text[0], v.text[1..]);
    ScanLit(js, s.pos, v.text);
    LeadsStep(links, js, s, AfterValue(links, v, s));
  }

  lemma StrRun(links: bool, js: Bytes, v: J.Value, s: State)
    requires v.Str? && Valid(s) && J.ValueOk(v) && At(js, s.pos, J.Text(v))
    ensures Leads(links, js, s, AfterValue(links, v, s))
  {
    StringRun(links, js, v.raw, s);
    assert AfterString(links, v.raw, s) == AfterValue(links, v, s);
  }

  /** The state after a string value or a key. */
  function AfterString(links: bool, raw: Bytes, s: State): State
    requires Valid(s)
  {
    Append(s, s.pos + |raw| + 2, Token(Text, s.pos + 1, s.pos + 1 + |raw|, 0, Parent(links, s.super)))
  }

  lemma StringRun(links: bool, js: Bytes, raw: Bytes, s: State)
    requires Valid(s) && J.BodyOk(raw) && At(js, s.pos, J.Quoted(raw))
    ensures Leads(links, js, s, AfterString(links, raw, s))
  {
    assert J.Quoted(raw) == [QUOTE] + (raw + [QUOTE]);
    AtHead(js, s.pos, QUOTE, raw + [QUOTE]);
    ScanBody(js, s.pos + 1, raw);
    hide At, ScanString, Leads, J.Quoted, LastOpen, Climb;
    LeadsStep(links, js, s, AfterString(links, raw, s));
  }

  /** The state after an opening bracket. */
  function Opened(links: bool, s: State, kind: Kind): State
    requires Valid(s)
  {
    State(s.pos + 1, |s.toks|, Bump(s.toks, s.super) + [Token(kind, s.pos, -1, 0, Parent(links, s.super))])
  }

  lemma OpenRun(links: bool, js: Bytes, s: State, kind: Kind)
    requires Valid(s) && (kind == Object || kind == Array)
    requires s.pos < |js| && js[s.pos] == if kind == Object then LBRACE else LBRACKET
    ensures Inside(links, Opened(links, s, kind), |s.toks|) && Leads(links, js, s, Opened(links, s, kind))
  {
    LeadsStep(links, js, s, Opened(links, s, kind));
  }

  /** The state after the closing bracket of container `k`. */
  function Closed(links: bool, s: State, k: nat): State
    requires k < |s.toks|
  {
    State(s.pos + 1, if links then s.toks[k].parent else LastOpen(s.toks, k), EndAt(s.toks, k, s.pos + 1))
  }

  /** Closing the container that the state is inside of. */
  lemma {:induction false} CloseRun(links: bool, js: Bytes, s: State, k: nat)
    requires Inside(links, s, k)
    requires s.pos < |js| && js[s.pos] == if s.toks[k].kind == Object then RBRACE else RBRACKET
    ensures Leads(links, js, s, Closed(links, s, k))
  {
    InsideLast(s.toks, k, |s.toks|);
    if links {
      InsideClimb(s.toks, k, |s.toks| - 1);
    }
    assert Close(links, s, s.toks[k].kind) == Next(Closed(links, s, k));
    LeadsStep(links, js, s, Closed(links, s, k));
  }

  /** From the start of a container to its first element or closing bracket. */
  lemma ContainerOpened(links: bool, js: Bytes, s: State, kind: Kind, lead: Bytes) returns (t: State)
    requires Valid(s) && (kind == Object || kind == Array)
    requires s.pos < |js| && js[s.pos] == if kind == Object then LBRACE else LBRACKET
    requires At(js, s.pos + 1, lead) && AllBlank(lead)
    ensures t == Opened(links, s, kind).(pos := s.pos + 1 + |lead|)
    ensures Leads(links, js, s, t) && Inside(links, t, |s.toks|)
  {
    var s1 := Opened(links, s, kind);
    OpenRun(links, js, s, kind);
    t := s1.(pos := s1.pos + |lead|);
    RunBlank(links, js, s1, lead);
    LeadsOn(links, js, s, s1, t);
  }

  /** From the closing bracket of the container that `s` opened to the state after it. */
  lemma ContainerEnded(links: bool, js: Bytes, v: J.Value, s: State, t: State, children: seq<Token>, n: nat)
    requires Valid(s) && (v.Arr? || v.Obj?) && Leads(links, js, s, t) && Inside(links, t, |s.toks|)
    requires t.pos + 1 == s.pos + |J.Text(v)| && t.pos < |js| && js[t.pos] == if v.Obj? then RBRACE else RBRACKET
    requires var kind := if v.Arr? then Array else Object;
      t.toks == Bump(s.toks, s.super) + [Token(kind, s.pos, -1, n, Parent(links, s.super))] + children
      && Toks(links, v, s.pos, s.super, |s.toks|)
        == [Token(kind, s.pos, s.pos + |J.Text(v)|, n, Parent(links, s.super))] + children
    ensures Leads(links, js, s, AfterValue(links, v, s))
  {
    ContainerClosed(links, v, s, t, children, n);
    CloseRun(links, js, t, |s.toks|);
    LeadsOn(links, js, s, t, Closed(links, t, |s.toks|));
  }

  lemma {:induction false} ArrayRun(links: bool, js: Bytes, v: J.Value, s: State)
    requires v.Arr? && Valid(s) && J.ValueOk(v) && At(js, s.pos, J.Text(v))
    ensures Leads(links, js, s, AfterValue(links, v, s))
    decreases v, 0
  {
    hide At, Leads, ElemToks, BumpBy;
    var Arr(lead, es) := v;
    J.ArrayAt(js, v, s.pos);
    var s1 := ContainerOpened(links, js, s, Array, lead);
    ElemsRun(links, js, es, s1);
    var s2 := AfterElems(links, es, s1);
    LeadsOn(links, js, s, s1, s2);
    AtSplit(js, s1.pos, J.ElemsText(es), [RBRACKET]);
    assert [RBRACKET] + [] == [RBRACKET];
    AtHead(js, s2.pos, RBRACKET, []);
    ArrayToks(links, v, s, s1);
    ContainerEnded(links, js, v, s, s2, ElemToks(links, es, s1.pos, |s.toks|, |s.toks| + 1), J.ElemCount(es));
  }

  lemma ArrayToks(links: bool, v: J.Value, s: State, s1: State)
    requires v.Arr? && Valid(s) && s1 == Opened(links, s, Array).(pos := s.pos + 1 + |v.lead|)
    ensures AfterElems(links, v.elems, s1).toks
      == Bump(s.toks, s.super) + [Token(Array, s.pos, -1, J.ElemCount(v.elems), Parent(links, s.super))]
         + ElemToks(links, v.elems, s1.pos, |s.toks|, |s.toks| + 1)
  {
  }

  lemma ObjectToks(links: bool, v: J.Value, s: State, s1: State)
    requires v.Obj? && Valid(s) && s1 == Opened(links, s, Object).(pos := s.pos + 1 + |v.lead|)
    ensures AfterMembers(links, v.members, s1)
      == Bump(s.toks, s.super) + [Token(Object, s.pos, -1, J.MemberCount(v.members), Parent(links, s.super))]
         + MemberToks(links, v.members, s1.pos, |s.toks|, |s.toks| + 1)
  {
  }

  /** The token of a container whose children have been read, once its end is set, completes the tokens of the value. */
  lemma {:induction false} ContainerClosed(links: bool, v: J.Value, s: State, t: State, children: seq<Token>, n: nat)
    requires Valid(s) && (v.Arr? || v.Obj?)
    requires t.pos + 1 == s.pos + |J.Text(v)|
    requires var kind := if v.Arr? then Array else Object;
      t.toks == Bump(s.toks, s.super) + [Token(kind, s.pos, -1, n, Parent(links, s.super))] + children
      && Toks(links, v, s.pos, s.super, |s.toks|)
        == [Token(kind, s.pos, s.pos + |J.Text(v)|, n, Parent(links, s.super))] + children
    ensures Closed(links, t, |s.toks|) == AfterValue(links, v, s)
  {
    LastOpenSame(t.toks, s.toks, |s.toks|);
    var kind := if v.Arr? then Array else Object;
    var token := Token(kind, s.pos, -1, n, Parent(links, s.super));
    assert t.toks == Bump(s.toks, s.super) + ([token] + children);
    assert EndAt(t.toks, |s.toks|, t.pos + 1) == Bump(s.toks, s.super) + ([token.(end := t.pos + 1)] + children);
  }

  function AfterElems(links: bool, es: J.Elems, s: State): State
    requires 0 <= s.super < |s.toks|
  {
    State(s.pos + |J.ElemsText(es)|, s.super,
      BumpBy(s.toks, s.super, J.ElemCount(es)) + ElemToks(links, es, s.pos, s.super, |s.toks|))
  }

  lemma {:induction false} ElemsRun(links: bool, js: Bytes, es: J.Elems, s: State)
    requires s.super >= 0 && Inside(links, s, s.super)
    requires J.ElemsOk(es) && At(js, s.pos, J.ElemsText(es) + [RBRACKET])
    ensures Inside(links, AfterElems(links, es, s), s.super)
    ensures Leads(links, js, s, AfterElems(links, es, s))
    decreases es, 1
  {
    match es
    case NoElems =>
      assert AfterElems(links, es, s) == s;
    case Elem(v, post, sep, rest) =>
      var s2 := ElemRun(links, js, es, s);
      if rest.NoElems? {
        assert J.ElemCount(rest) == 0 && ElemToks(links, rest, s2.pos + 1 + |sep|, s.super, |s2.toks|) == [];
        assert AfterElems(links, es, s) == s2;
      } else {
        hide At, Leads, Inside, J.ElemsText, ElemToks, BumpBy, Toks;
        CommaRun(links, js, s2, s.super, sep, J.ElemsText(rest) + [RBRACKET]);
        var s3 := s2.(pos := s2.pos + 1 + |sep|, super := s.super);
        LeadsOn(links, js, s, s2, s3);
        ElemsRun(links, js, rest, s3);
        LeadsOn(links, js, s, s3, AfterElems(links, rest, s3));
        ElemsJoin(links, es, s, s3);
      }
  }

  /** One element and the blanks after it. */
  lemma {:induction false} ElemRun(links: bool, js: Bytes, es: J.Elems, s: State) returns (t: State)
    requires s.super >= 0 && Inside(links, s, s.super) && es.Elem?
    requires J.ElemsOk(es) && At(js, s.pos, J.ElemsText(es) + [RBRACKET])
    ensures t == State(s.pos + |J.Text(es.v)| + |es.post|, s.super,
      Bump(s.toks, s.super) + Toks(links, es.v, s.pos, s.super, |s.toks|))
    ensures Leads(links, js, s, t) && Inside(links, t, s.super)
    ensures es.rest.Elem? ==> At(js, t.pos, [COMMA] + (es.sep + (J.ElemsText(es.rest) + [RBRACKET])))
    decreases es, 0
  {
    var Elem(v, post, sep, rest) := es;
    var after := if rest.NoElems? then [RBRACKET] else [COMMA] + (sep + (J.ElemsText(rest) + [RBRACKET]));
    ElemTextSplit(es, post + after);
    AtSplit(js, s.pos, J.Text(v), post + after);
    var s1 := AfterValue(links, v, s);
    AtSplit(js, s1.pos, post, after);
    BlankEnds(js, s1.pos, post, after);
    ValueRun(links, js, v, s);
    ElemDone(links, v, s);
    RunBlank(links, js, s1, post);
    t := s1.(pos := s1.pos + |post|);
    LeadsOn(links, js, s, s1, t);
  }

  lemma ElemTextSplit(es: J.Elems, tail: Bytes)
    requires es.Elem?
    requires tail == es.post
      + (if es.rest.NoElems? then [RBRACKET] else [COMMA] + (es.sep + (J.ElemsText(es.rest) + [RBRACKET])))
    ensures J.ElemsText(es) + [RBRACKET] == J.Text(es.v) + tail
  {
  }

  lemma ElemDone(links: bool, v: J.Value, s: State)
    requires s.super >= 0 && Inside(links, s, s.super) && Valid(AfterValue(links, v, s))
    ensures AfterValue(links, v, s).super == s.super && Inside(links, AfterValue(links, v, s), s.super)
  {
    ToksBelow(links, v, s.pos, s.super, |s.toks|);
    InsideLast(s.toks, s.super, |s.toks|);
  }

  /** The comma between two elements or members, and the blanks after it: back to the container `k`. */
  lemma {:induction false} CommaRun(links: bool, js: Bytes, s: State, k: nat, sep: Bytes, rest: Bytes)
    requires Inside(links, s, k) && At(js, s.pos, [COMMA] + (sep + rest)) && AllBlank(sep)
    requires s.super == k || (s.super >= 0 && !s.toks[s.super].IsContainer() && (links ==> s.toks[s.super].parent == k))
    ensures Leads(links, js, s, s.(pos := s.pos + 1 + |sep|, super := k))
    ensures At(js, s.pos + 1 + |sep|, rest)
  {
    AtHead(js, s.pos, COMMA, sep + rest);
    AtSplit(js, s.pos + 1, sep, rest);
    InsideLast(s.toks, k, |s.toks|);
    var t := s.(pos := s.pos + 1, super := k);
    assert Comma(links, s) == Next(t);
    LeadsStep(links, js, s, t);
    RunBlank(links, js, t, sep);
    LeadsOn(links, js, s, t, t.(pos := t.pos + |sep|));
  }

  lemma {:induction false} ElemsJoin(links: bool, es: J.Elems, s: State, t: State)
    requires 0 <= s.super < |s.toks| && es.Elem? && es.rest.Elem?
    requires t == State(s.pos + |J.Text(es.v)| + |es.post| + 1 + |es.sep|, s.super,
      Bump(s.toks, s.super) + Toks(links, es.v, s.pos, s.super, |s.toks|))
    ensures AfterElems(links, es.rest, t) == AfterElems(links, es, s)
  {
    BumpJoin(s.toks, s.super, J.ElemCount(es.rest), Toks(links, es.v, s.pos, s.super, |s.toks|),
      ElemToks(links, es.rest, t.pos, s.super, |t.toks|));
  }

  lemma {:induction false} ObjectRun(links: bool, js: Bytes, v: J.Value, s: State)
    requires v.Obj? && Valid(s) && J.ValueOk(v) && At(js, s.pos, J.Text(v))
    ensures Leads(links, js, s, AfterValue(links, v, s))
    decreases v, 0
  {
    hide At, Leads, MemberToks, BumpBy;
    var Obj(lead, ms) := v;
    J.ObjectAt(js, v, s.pos);
    var s1 := ContainerOpened(links, js, s, Object, lead);
    var s2 := MembersRun(links, js, ms, s1);
    LeadsOn(links, js, s, s1, s2);
    AtSplit(js, s1.pos, J.MembersText(ms), [RBRACE]);
    assert [RBRACE] + [] == [RBRACE];
    AtHead(js, s2.pos, RBRACE, []);
    ObjectToks(links, v, s, s1);
    ContainerEnded(links, js, v, s, s2, MemberToks(links, ms, s1.pos, |s.toks|, |s.toks| + 1), J.MemberCount(ms));
  }

  /** The tokens after the members `ms` of the object `s.super`. */
  function AfterMembers(links: bool, ms: J.Members, s: State): seq<Token>
    requires 0 <= s.super < |s.toks|
  {
    BumpBy(s.toks, s.super, J.MemberCount(ms)) + MemberToks(links, ms, s.pos, s.super, |s.toks|)
  }

  /** `t` is where the tokenizer stands after the members; its superior token no longer matters. */
  lemma {:induction false} MembersRun(links: bool, js: Bytes, ms: J.Members, s: State) returns (t: State)
    requires s.super >= 0 && Inside(links, s, s.super)
    requires J.MembersOk(ms) && At(js, s.pos, J.MembersText(ms) + [RBRACE])
    ensures Inside(links, t, s.super) && t.pos == s.pos + |J.MembersText(ms)|
    ensures t.toks == AfterMembers(links, ms, s)
    ensures Leads(links, js, s, t)
    decreases ms, 1
  {
    match ms
    case NoMembers =>
      t := s;
    case Member(key, preColon, postColon, v, post, sep, rest) =>
      var s1 := MemberRun(links, js, ms, s);
      if rest.NoMembers? {
        t := s1;
        LastMember(links, ms, s);
      } else {
        var s2 := s1.(pos := s1.pos + 1 + |sep|, super := s.super);
        CommaRun(links, js, s1, s.super, sep, J.MembersText(rest) + [RBRACE]);
        LeadsOn(links, js, s, s1, s2);
        t := MembersRun(links, js, rest, s2);
        LeadsOn(links, js, s, s2, t);
        MembersJoin(links, ms, s, s2);
      }
  }

  /** The tokens after one member of the object `s.super`. */
  function AfterMember(links: bool, ms: J.Members, s: State): seq<Token>
    requires 0 <= s.super < |s.toks| && ms.Member?
  {
    BumpBy(s.toks, s.super, 1)
    + [Token(Text, s.pos + 1, s.pos + 1 + |ms.key|, 1, Parent(links, s.super))]
    + Toks(links, ms.v, J.ValueAt(ms, s.pos), |s.toks|, |s.toks| + 1)
  }

  /** One member and the blanks after it: the superior token is its key or the object. */
  lemma {:induction false} MemberRun(links: bool, js: Bytes, ms: J.Members, s: State) returns (t: State)
    requires s.super >= 0 && Inside(links, s, s.super) && ms.Member?
    requires J.MembersOk(ms) && At(js, s.pos, J.MembersText(ms) + [RBRACE])
    ensures t.pos == J.ValueAt(ms, s.pos) + |J.Text(ms.v)| + |ms.post|
    ensures t.toks == AfterMember(links, ms, s)
    ensures Inside(links, t, s.super) && Leads(links, js, s, t)
    ensures t.super == s.super
      || (t.super >= 0 && !t.toks[t.super].IsContainer() && (links ==> t.toks[t.super].parent == s.super))
    ensures ms.rest.Member? ==> At(js, t.pos, [COMMA] + (ms.sep + (J.MembersText(ms.rest) + [RBRACE])))
    decreases ms, 0
  {
    hide At, Leads, Toks, MemberToks;
    var Member(key, preColon, postColon, v, post, sep, rest) := ms;
    var after := if rest.NoMembers? then [RBRACE] else [COMMA] + (sep + (J.MembersText(rest) + [RBRACE]));
    MemberTextSplit(ms, post + after);
    var s1 := KeyRun(links, js, ms, s, J.Text(v) + (post + after));
    AtSplit(js, s1.pos, J.Text(v), post + after);
    var s2 := AfterValue(links, v, s1);
    AtSplit(js, s2.pos, post, after);
    BlankEnds(js, s2.pos, post, after);
    ValueRun(links, js, v, s1);
    LeadsOn(links, js, s, s1, s2);
    MemberDone(links, ms, s, s1);
    RunBlank(links, js, s2, post);
    t := s2.(pos := s2.pos + |post|);
    LeadsOn(links, js, s, s2, t);
  }

  lemma {:induction false} MemberTextSplit(ms: J.Members, tail: Bytes)
    requires ms.Member?
    requires tail == ms.post
      + (if ms.rest.NoMembers? then [RBRACE] else [COMMA] + (ms.sep + (J.MembersText(ms.rest) + [RBRACE])))
    ensures J.MembersText(ms) + [RBRACE]
      == J.Quoted(ms.key) + (ms.preColon + ([COLON] + (ms.postColon + (J.Text(ms.v) + tail))))
  {
  }

  /** From the start of a member to its value: the key is stored and becomes the superior token. */
  lemma {:induction false} KeyRun(links: bool, js: Bytes, ms: J.Members, s: State, tail: Bytes) returns (t: State)
    requires s.super >= 0 && Inside(links, s, s.super) && ms.Member? && J.MembersOk(ms)
    requires At(js, s.pos, J.Quoted(ms.key) + (ms.preColon + ([COLON] + (ms.postColon + tail))))
    ensures t == AfterString(links, ms.key, s).(pos := J.ValueAt(ms, s.pos), super := |s.toks|)
    ensures At(js, t.pos, tail) && Leads(links, js, s, t)
  {
    var Member(key, preColon, postColon, v, post, sep, rest) := ms;
    AtSplit(js, s.pos, J.Quoted(key), preColon + ([COLON] + (postColon + tail)));
    var s1 := AfterString(links, key, s);
    StringRun(links, js, key, s);
    AtSplit(js, s1.pos, preColon, [COLON] + (postColon + tail));
    var s2 := s1.(pos := s1.pos + |preColon|);
    RunBlank(links, js, s1, preColon);
    LeadsOn(links, js, s, s1, s2);
    AtHead(js, s2.pos, COLON, postColon + tail);
    var s3 := s2.(pos := s2.pos + 1, super := |s2.toks| - 1);
    LeadsStep(links, js, s2, s3);
    LeadsOn(links, js, s, s2, s3);
    AtSplit(js, s3.pos, postColon, tail);
    t := s3.(pos := s3.pos + |postColon|);
    RunBlank(links, js, s3, postColon);
    LeadsOn(links, js, s, s3, t);
  }

  lemma {:induction false} MemberDone(links: bool, ms: J.Members, s: State, s1: State)
    requires s.super >= 0 && Inside(links, s, s.super) && ms.Member?
    requires s1 == AfterString(links, ms.key, s).(pos := J.ValueAt(ms, s.pos), super := |s.toks|)
    requires Valid(s1) && Valid(AfterValue(links, ms.v, s1))
    ensures var s2 := AfterValue(links, ms.v, s1);
      && Inside(links, s2, s.super)
      && s2.toks == AfterMember(links, ms, s)
      && (s2.super == s.super || (s2.super == |s.toks| && !s2.toks[s2.super].IsContainer()))
      && (links ==> s2.super == |s.toks| && s2.toks[s2.super].parent == s.super)
  {
    InsideLast(s1.toks, s.super, |s1.toks|);
    ToksBelow(links, ms.v, s1.pos, s1.super, |s1.toks|);
    var s2 := AfterValue(links, ms.v, s1);
    assert Bump(s1.toks, s1.super) == BumpBy(s.toks, s.super, 1)
           + [Token(Text, s.pos + 1, s.pos + 1 + |ms.key|, 1, Parent(links, s.super))];
  }

  lemma {:induction false} MembersJoin(links: bool, ms: J.Members, s: State, t: State)
    requires 0 <= s.super < |s.toks| && ms.Member?
    requires t.pos == J.ValueAt(ms, s.pos) + |J.Text(ms.v)| + |ms.post| + 1 + |ms.sep|
    requires t.super == s.super && t.toks == AfterMember(links, ms, s)
    ensures AfterMembers(links, ms.rest, t) == AfterMembers(links, ms, s)
  {
    var own := [Token(Text, s.pos + 1, s.pos + 1 + |ms.key|, 1, Parent(links, s.super))]
      + Toks(links, ms.v, J.ValueAt(ms, s.pos), |s.toks|, |s.toks| + 1);
    assert t.toks == BumpBy(s.toks, s.super, 1) + own;
    BumpJoin(s.toks, s.super, J.MemberCount(ms.rest), own, MemberToks(links, ms.rest, t.pos, s.super, |t.toks|));
  }

  lemma LastMember(links: bool, ms: J.Members, s: State)
    requires 0 <= s.super < |s.toks| && ms.Member? && ms.rest.NoMembers?
    ensures AfterMembers(links, ms, s) == AfterMember(links, ms, s)
    ensures |J.MembersText(ms)| == J.ValueAt(ms, 0) + |J.Text(ms.v)| + |ms.post|
  {
    assert J.MemberCount(ms.rest) == 0;
  }

  /**
   * Running jsmn from jsmn_init on any JSON text, with enough tokens, returns their number and yields
   * exactly the preorder tokens of the tree, in both variants of the tokenizer.
   */
  lemma {:induction false} DocRun(links: bool, d: J.Doc, cap: nat)
    requires J.DocOk(d) && Count(d.v) <= cap
    ensures var (r, s) := Run(links, J.DocText(d), cap, INIT);
      && r == Done(Count(d.v))
      && s.pos == |J.DocText(d)|
      && s.toks == Toks(links, d.v, |d.before|, -1, 0)
  {
    var js := J.DocText(d);
    DocAt(js, d.before, J.Text(d.v), d.after);
    BlankEndsText(js, |d.before| + |J.Text(d.v)|, d.after);
    var t := DocLeads(links, js, d);
    ToksBelow(links, d.v, |d.before|, -1, 0);
    assert Run(links, js, cap, INIT) == Run(links, js, cap, t);
  }

  lemma DocAt(js: Bytes, before: Bytes, text: Bytes, after: Bytes)
    requires js == before + (text + after)
    ensures At(js, 0, before) && At(js, |before|, text) && At(js, |before| + |text|, after)
  {
    AtSelf(js);
    hide At;
    AtSplit(js, 0, before, text + after);
    AtSplit(js, |before|, text, after);
  }

  lemma BlankEndsText(js: Bytes, at: nat, after: Bytes)
    requires At(js, at, after) && AllBlank(after) && at + |after| == |js|
    ensures TokenEnds(js, at)
  {
  }

  lemma {:induction false} DocLeads(links: bool, js: Bytes, d: J.Doc) returns (t: State)
    requires J.DocOk(d) && At(js, 0, d.before) && At(js, |d.before|, J.Text(d.v))
    requires At(js, |d.before| + |J.Text(d.v)|, d.after)
    requires TokenEnds(js, |d.before| + |J.Text(d.v)|)
    ensures t.pos == |d.before| + |J.Text(d.v)| + |d.after| && t.toks == Toks(links, d.v, |d.before|, -1, 0)
    ensures Leads(links, js, INIT, t)
  {
    hide At, Leads;
    var s0 := INIT.(pos := |d.before|);
    RunBlank(links, js, INIT, d.before);
    var s1 := AfterValue(links, d.v, s0);
    ValueRun(links, js, d.v, s0);
    LeadsOn(links, js, INIT, s0, s1);
    t := s1.(pos := s1.pos + |d.after|);
    RunBlank(links, js, s1, d.after);
    LeadsOn(links, js, INIT, s1, t);
  }

  /** Tokens without their parent links: what the build without JSMN_PARENT_LINKS stores. */
  function Unlinked(toks: seq<Token>): (r: seq<Token>) {
    seq(|toks|, i requires 0 <= i < |toks| => toks[i].(parent := -1))
  }

  lemma UnlinkedJoin(a: seq<Token>, b: seq<Token>)
    ensures Unlinked(a + b) == Unlinked(a) + Unlinked(b)
  {
  }

  lemma {:induction false} ToksUnlinked(v: J.Value, at: nat, up: int, n: nat)
    ensures Unlinked(Toks(true, v, at, up, n)) == Toks(false, v, at, up, n)
    decreases v, 1
  {
    match v
    case Lit(_) =>
    case Str(_) =>
    case Arr(lead, es) =>
      ElemToksUnlinked(es, at + 1 + |lead|, n, n + 1);
      UnlinkedJoin([Token(Array, at, at + |J.Text(v)|, J.ElemCount(es), up)],
        ElemToks(true, es, at + 1 + |lead|, n, n + 1));
    case Obj(lead, ms) =>
      MemberToksUnlinked(ms, at + 1 + |lead|, n, n + 1);
      UnlinkedJoin([Token(Object, at, at + |J.Text(v)|, J.MemberCount(ms), up)],
        MemberToks(true, ms, at + 1 + |lead|, n, n + 1));
  }

  lemma {:induction false} ElemToksUnlinked(es: J.Elems, at: nat, up: int, n: nat)
    ensures Unlinked(ElemToks(true, es, at, up, n)) == ElemToks(false, es, at, up, n)
    decreases es, 0
  {
    if es.Elem? {
      var at' := at + |J.Text(es.v)| + |es.post| + 1 + |es.sep|;
      ToksUnlinked(es.v, at, up, n);
      ElemToksUnlinked(es.rest, at', up, n + Count(es.v));
      UnlinkedJoin(Toks(true, es.v, at, up, n), ElemToks(true, es.rest, at', up, n + Count(es.v)));
    }
  }

  lemma {:induction false} MemberToksUnlinked(ms: J.Members, at: nat, up: int, n: nat)
    ensures Unlinked(MemberToks(true, ms, at, up, n)) == MemberToks(false, ms, at, up, n)
    decreases ms, 0
  {
    if ms.Member? {
      var value := J.ValueAt(ms, at);
      var at' := value + |J.Text(ms.v)| + |ms.post| + 1 + |ms.sep|;
      var key := [Token(Text, at + 1, at + 1 + |ms.key|, 1, up)];
      ToksUnlinked(ms.v, value, n, n + 1);
      MemberToksUnlinked(ms.rest, at', up, n + 1 + Count(ms.v));
      UnlinkedJoin(key + Toks(true, ms.v, value, n, n + 1), MemberToks(true, ms.rest, at', up, n + 1 + Count(ms.v)));
      UnlinkedJoin(key, Toks(true, ms.v, value, n, n + 1));
    }
  }

  /** On JSON the build with JSMN_PARENT_LINKS returns the same and stores the same tokens, parents aside. */
  lemma LinksAgree(d: J.Doc, cap: nat)
    requires J.DocOk(d) && Count(d.v) <= cap
    ensures var (plain, linked) := (Run(false, J.DocText(d), cap, INIT), Run(true, J.DocText(d), cap, INIT));
      linked.0 == plain.0 && linked.1.pos == plain.1.pos && Unlinked(linked.1.toks) == plain.1.toks
  {
    DocRun(false, d, cap);
    DocRun(true, d, cap);
    ToksUnlinked(d.v, |d.before|, -1, 0);
  }
}
