/** What the token array satisfies after any run of jsmn, on any text, whether it is JSON or not. */
module JsmnShape {
  import opened Ascii
  import opened JsmnLinks
  import opened JsmnSpec

  /** What may stand in a primitive: a visible character other than a colon, a comma or a closing bracket. */
  predicate Inner(b: Byte) {
    ' ' as int < b <= '~' as int && b != ':' as int && b != ',' as int && b != ']' as int && b != '}' as int
  }

  /** What may follow a primitive. */
  predicate Outer(b: Byte) {
    || b == 0 || b == '\t' as int || b == '\r' as int || b == '\n' as int || b == ' ' as int
    || b == ':' as int || b == ',' as int || b == ']' as int || b == '}' as int
  }

  /** A token spans what its kind says: brackets, the inside of a pair of quotes, or all of a run of inner bytes. */
  predicate Spans(js: Bytes, pos: nat, t: Token) {
    match t.kind
    case Undefined => false
    case Primitive =>
      && 0 <= t.start < t.end <= pos <= |js| && (t.end == |js| || Outer(js[t.end]))
      && forall i :: t.start <= i < t.end ==> Inner(js[i])
    case Text => 1 <= t.start <= t.end < pos <= |js| && js[t.start - 1] == QUOTE && js[t.end] == QUOTE
    case Object => Bracketed(js, pos, t, LBRACE, RBRACE)
    case Array => Bracketed(js, pos, t, LBRACKET, RBRACKET)
  }

  predicate Bracketed(js: Bytes, pos: nat, t: Token, left: Byte, right: Byte) {
    && 0 <= t.start < pos <= |js| && js[t.start] == left
    && (t.end == -1 || (t.start < t.end - 1 < pos && js[t.end - 1] == right))
  }

  /** `a` comes first and starts first: `b` lies inside it, or after its end, or `a` is still open. */
  predicate Ordered(a: Token, b: Token) {
    a.start < b.start && (a.end == -1 || a.end <= b.start || (b.end != -1 && b.end <= a.end))
  }

  predicate AllSpan(js: Bytes, pos: nat, toks: seq<Token>) {
    forall i :: 0 <= i < |toks| ==> Spans(js, pos, toks[i])
  }

  predicate AllOrdered(toks: seq<Token>) {
    forall i, j :: 0 <= i < j < |toks| ==> Ordered(toks[i], toks[j])
  }

  ghost predicate Shape(js: Bytes, s: State) {
    Valid(s) && s.pos <= |js| && AllSpan(js, s.pos, s.toks) && AllOrdered(s.toks)
  }

  lemma LaterSpan(js: Bytes, pos: nat, later: nat, toks: seq<Token>)
    requires AllSpan(js, pos, toks) && pos <= later <= |js|
    ensures AllSpan(js, later, toks)
  {
    forall i | 0 <= i < |toks| ensures Spans(js, later, toks[i]) {
      assert Spans(js, pos, toks[i]);
    }
  }

  /** Order depends on starts and ends only. */
  lemma SameOrdered(a: seq<Token>, b: seq<Token>)
    requires AllOrdered(a) && |a| == |b| && forall i :: 0 <= i < |a| ==>
      a[i].start == b[i].start && a[i].end == b[i].end
    ensures AllOrdered(b)
  {
    forall i, j | 0 <= i < j < |b| ensures Ordered(b[i], b[j]) {
      assert Ordered(a[i], a[j]);
    }
  }

  lemma AppendShape(js: Bytes, s: State, pos: nat, t: Token)
    requires Shape(js, s) && s.pos < pos <= |js| && t.start >= s.pos && Spans(js, pos, t)
    requires Valid(Append(s, pos, t))
    ensures Shape(js, Append(s, pos, t))
  {
    var toks := Bump(s.toks, s.super);
    var all := toks + [t];
    SameOrdered(s.toks, toks);
    forall i | 0 <= i < |all| ensures Spans(js, pos, all[i]) {
      if i < |toks| {
        assert Spans(js, s.pos, s.toks[i]);
      }
    }
    forall i, j | 0 <= i < j < |all| ensures Ordered(all[i], all[j]) {
      if j < |toks| {
        assert Ordered(toks[i], toks[j]);
      } else {
        assert Spans(js, s.pos, s.toks[i]);
      }
    }
  }

  lemma CloseShape(js: Bytes, s: State, i: nat)
    requires Shape(js, s) && Active(js, s.pos) && i < |s.toks| && s.toks[i].IsOpen()
    requires forall j :: i < j < |s.toks| ==> !s.toks[j].IsOpen()
    requires js[s.pos] == if s.toks[i].kind == Object then RBRACE else RBRACKET
    ensures AllSpan(js, s.pos + 1, EndAt(s.toks, i, s.pos + 1)) && AllOrdered(EndAt(s.toks, i, s.pos + 1))
  {
    var toks := EndAt(s.toks, i, s.pos + 1);
    forall j | 0 <= j < |toks| ensures Spans(js, s.pos + 1, toks[j]) {
      assert Spans(js, s.pos, s.toks[j]);
    }
    forall a, b | 0 <= a < b < |toks| ensures Ordered(toks[a], toks[b]) {
      assert Ordered(s.toks[a], s.toks[b]) && Spans(js, s.pos, s.toks[b]);
    }
  }

  lemma StepShape(js: Bytes, cap: nat, s: State)
    requires Shape(js, s) && Active(js, s.pos) && Step(false, js, cap, s).Next?
    ensures Shape(js, Step(false, js, cap, s).state)
  {
    hide ScanString, ScanPrimitive, Spans;
    var c := js[s.pos];
    if c == LBRACE || c == LBRACKET {
      OpenShape(js, cap, s, if c == LBRACE then Object else Array);
    } else if c == RBRACE || c == RBRACKET {
      CloseShape(js, s, LastOpen(s.toks, |s.toks|));
    } else if c == QUOTE {
      StringShape(js, cap, s);
    } else if IsDelimiter(c) {
      LaterSpan(js, s.pos, s.pos + 1, s.toks);
    } else {
      PrimitiveShape(js, cap, s);
    }
  }

  lemma OpenShape(js: Bytes, cap: nat, s: State, kind: Kind)
    requires Shape(js, s) && Active(js, s.pos) && (kind == Object || kind == Array)
    requires js[s.pos] == if kind == Object then LBRACE else LBRACKET
    requires Open(false, cap, s, kind).Next?
    ensures Shape(js, Open(false, cap, s, kind).state)
  {
    AppendShape(js, s, s.pos + 1, Token(kind, s.pos, -1, 0, -1));
  }

  lemma StringShape(js: Bytes, cap: nat, s: State)
    requires Shape(js, s) && Active(js, s.pos) && js[s.pos] == QUOTE && StringAt(false, js, cap, s).Next?
    ensures Shape(js, StringAt(false, js, cap, s).state)
  {
    var e := ScanString(js, s.pos + 1).at;
    AppendShape(js, s, e + 1, Token(Text, s.pos + 1, e, 0, -1));
  }

  lemma {:induction false} ScanInner(js: Bytes, pos: nat)
    requires pos <= |js| && ScanPrimitive(js, pos).Found?
    ensures var e := ScanPrimitive(js, pos).at;
      pos <= e <= |js| && (e == |js| || Outer(js[e])) && forall i :: pos <= i < e ==> Inner(js[i])
    decreases |js| - pos
  {
    if Active(js, pos) && !IsDelimiter(js[pos]) {
      ScanInner(js, pos + 1);
    }
  }

  lemma PrimitiveShape(js: Bytes, cap: nat, s: State)
    requires Shape(js, s) && Active(js, s.pos) && !IsDelimiter(js[s.pos]) && PrimitiveAt(false, js, cap, s).Next?
    ensures Shape(js, PrimitiveAt(false, js, cap, s).state)
  {
    var e := ScanPrimitive(js, s.pos).at;
    ScanInner(js, s.pos);
    AppendShape(js, s, e, Token(Primitive, s.pos, e, 0, -1));
  }

  /** The shape depends on kinds, starts and ends only. */
  lemma AlikeShape(js: Bytes, a: State, b: State)
    requires Shape(js, a) && Alike(a, b) && Valid(b)
    ensures Shape(js, b)
  {
    SameOrdered(a.toks, b.toks);
    forall i | 0 <= i < |b.toks| ensures Spans(js, b.pos, b.toks[i]) {
      assert Spans(js, a.pos, a.toks[i]);
    }
  }

  /** With links a step does what it does without them, or it takes a stray bracket. */
  lemma LinkedStepShape(js: Bytes, cap: nat, s: State)
    requires Shape(js, s) && Anchored(s) && Active(js, s.pos) && Step(true, js, cap, s).Next?
    ensures Shape(js, Step(true, js, cap, s).state) && Anchored(Step(true, js, cap, s).state)
  {
    if Stray(js, s) {
      StrayStep(js, cap, s, s);
      LaterSpan(js, s.pos, s.pos + 1, s.toks);
    } else {
      StepAlike(js, cap, s, s);
      StepShape(js, cap, s);
      hide Shape, Alike, Anchored, Step;
      AlikeShape(js, Step(false, js, cap, s).state, Step(true, js, cap, s).state);
    }
  }

  /** The invariant holds wherever a run stops, in both builds. */
  lemma {:induction false} RunShape(links: bool, js: Bytes, cap: nat, s: State)
    requires Shape(js, s) && (links ==> Anchored(s))
    ensures Shape(js, Run(links, js, cap, s).1)
    decreases |js| - s.pos
  {
    hide Step, Anchored, AllSpan, AllOrdered;
    if Active(js, s.pos) && Step(links, js, cap, s).Next? {
      if links {
        LinkedStepShape(js, cap, s);
      } else {
        StepShape(js, cap, s);
      }
      RunShape(links, js, cap, Step(links, js, cap, s).state);
    }
  }

  /**
   * On any accepted text and in both builds: starts increase, all spans are closed, exact, and pairwise nested or
   * disjoint.
   */
  lemma AcceptedShape(links: bool, js: Bytes, cap: nat)
    requires Run(links, js, cap, INIT).0.Done?
    ensures var s := Run(links, js, cap, INIT).1;
      && (forall i :: 0 <= i < |s.toks| ==> Spans(js, |js|, s.toks[i]) && 0 <= s.toks[i].start <= s.toks[i].end <= |js|)
      && (forall i, j :: 0 <= i < j < |s.toks| ==>
            && s.toks[i].start < s.toks[j].start
            && (s.toks[i].end <= s.toks[j].start || s.toks[j].end <= s.toks[i].end))
  {
    RunShape(links, js, cap, INIT);
    RunStops(links, js, cap, INIT);
    hide Run;
    var s := Run(links, js, cap, INIT).1;
    forall i | 0 <= i < |s.toks|
      ensures Spans(js, |js|, s.toks[i]) && 0 <= s.toks[i].start <= s.toks[i].end <= |js|
    {
      assert Spans(js, s.pos, s.toks[i]) && !s.toks[i].IsOpen();
    }
    forall i, j | 0 <= i < j < |s.toks|
      ensures s.toks[i].start < s.toks[j].start && (s.toks[i].end <= s.toks[j].start || s.toks[j].end <= s.toks[i].end)
    {
      assert Ordered(s.toks[i], s.toks[j]);
    }
  }

  lemma {:induction false} RunStops(links: bool, js: Bytes, cap: nat, s: State)
    requires Valid(s)
    ensures var (r, t) := Run(links, js, cap, s);
      r.Done? ==> !Active(js, t.pos) && LastOpen(t.toks, |t.toks|) == -1
    decreases |js| - s.pos
  {
    if Active(js, s.pos) && Step(links, js, cap, s).Next? {
      RunStops(links, js, cap, Step(links, js, cap, s).state);
    }
  }

  /** The superior token at each allocation of a run, in order. */
  function Supers(links: bool, js: Bytes, cap: nat, s: State): seq<int>
    requires Valid(s)
    decreases |js| - s.pos
  {
    if !Active(js, s.pos) then []
    else
      match Step(links, js, cap, s)
      case Stop(_) => []
      case Next(s') => (if |s'.toks| > |s.toks| then [s.super] else []) + Supers(links, js, cap, s')
  }

  function Occurrences(s: seq<int>, x: int): nat {
    if s == [] then 0 else (if s[0] == x then 1 else 0) + Occurrences(s[1..], x)
  }

  /**
   * A step that allocates counts the new token, unlinked and childless, for the superior token; any other keeps all
   * sizes.
   */
  lemma StepSizes(links: bool, js: Bytes, cap: nat, s: State)
    requires Valid(s) && Active(js, s.pos) && Step(links, js, cap, s).Next?
    ensures var toks := Step(links, js, cap, s).state.toks;
      if |toks| > |s.toks| then
        |toks| == |s.toks| + 1 && toks[|s.toks|].size == 0 && toks[|s.toks|].parent == Parent(links, s.super)
        && toks[..|s.toks|] == Bump(s.toks, s.super)
      else
        |toks| == |s.toks| && forall i :: 0 <= i < |toks| ==>
          toks[i].size == s.toks[i].size && toks[i].parent == s.toks[i].parent
  {
    var toks := Step(links, js, cap, s).state.toks;
    if |toks| > |s.toks| {
      assert toks[..|s.toks|] == Bump(s.toks, s.super);
    }
  }

  /** A token's size grows by the number of allocations for which it was the superior token. */
  lemma {:induction false} RunSize(links: bool, js: Bytes, cap: nat, s: State, i: nat)
    requires Valid(s) && i < |Run(links, js, cap, s).1.toks|
    ensures Run(links, js, cap, s).1.toks[i].size
      == (if i < |s.toks| then s.toks[i].size else 0) + Occurrences(Supers(links, js, cap, s), i)
    decreases |js| - s.pos
  {
    if Active(js, s.pos) && Step(links, js, cap, s).Next? {
      var s' := Step(links, js, cap, s).state;
      StepSizes(links, js, cap, s);
      RunSize(links, js, cap, s', i);
      if |s'.toks| > |s.toks| {
        assert Supers(links, js, cap, s)[1..] == Supers(links, js, cap, s');
        if i < |s.toks| {
          assert s'.toks[i] == s'.toks[..|s.toks|][i];
        }
      } else {
        assert Supers(links, js, cap, s) == Supers(links, js, cap, s');
      }
    }
  }

  /** The parents after a step. */
  lemma StepParents(links: bool, js: Bytes, cap: nat, s: State)
    requires Valid(s) && Active(js, s.pos) && Step(links, js, cap, s).Next?
    ensures var toks := Step(links, js, cap, s).state.toks;
      Parents(toks) == Parents(s.toks) + if |toks| > |s.toks| then [Parent(links, s.super)] else []
  {
    StepSizes(links, js, cap, s);
    var toks := Step(links, js, cap, s).state.toks;
    hide Step;
    if |toks| > |s.toks| {
      assert forall i :: 0 <= i < |s.toks| ==> toks[i] == toks[..|s.toks|][i];
    }
  }

  function ParentsOf(links: bool, supers: seq<int>): (r: seq<int>)
    ensures |r| == |supers|
  {
    seq(|supers|, i requires 0 <= i < |supers| => Parent(links, supers[i]))
  }

  lemma ParentsJoin(links: bool, a: seq<int>, b: seq<int>)
    ensures ParentsOf(links, a + b) == ParentsOf(links, a) + ParentsOf(links, b)
  {
  }

  /** A run appends one token for every entry of `Supers`, and links it to that entry. */
  lemma {:induction false} RunParents(links: bool, js: Bytes, cap: nat, s: State)
    requires Valid(s)
    ensures Parents(Run(links, js, cap, s).1.toks) == Parents(s.toks) + ParentsOf(links, Supers(links, js, cap, s))
    decreases |js| - s.pos
  {
    hide Step, Parents;
    if Active(js, s.pos) && Step(links, js, cap, s).Next? {
      var s' := Step(links, js, cap, s).state;
      StepParents(links, js, cap, s);
      RunParents(links, js, cap, s');
      var added := if |s'.toks| > |s.toks| then [s.super] else [];
      ParentsJoin(links, added, Supers(links, js, cap, s'));
      assert Parents(s'.toks) == Parents(s.toks) + ParentsOf(links, added);
    }
  }

  function Parents(toks: seq<Token>): (r: seq<int>)
    ensures |r| == |toks|
  {
    seq(|toks|, i requires 0 <= i < |toks| => toks[i].parent)
  }

  function SizeSum(toks: seq<Token>): int {
    if toks == [] then 0 else SizeSum(toks[..|toks| - 1]) + toks[|toks| - 1].size
  }

  function Linked(supers: seq<int>): nat {
    if supers == [] then 0 else (if supers[0] != -1 then 1 else 0) + Linked(supers[1..])
  }

  lemma {:induction false} SizeSumBump(toks: seq<Token>, i: int)
    requires -1 <= i < |toks|
    ensures SizeSum(Bump(toks, i)) == SizeSum(toks) + if i == -1 then 0 else 1
    decreases |toks|
  {
    if i >= 0 {
      var last := |toks| - 1;
      if i == last {
        assert Bump(toks, i)[..last] == toks[..last];
      } else {
        SizeSumBump(toks[..last], i);
        assert Bump(toks, i)[..last] == Bump(toks[..last], i);
      }
    }
  }

  lemma {:induction false} SizeSumSame(a: seq<Token>, b: seq<Token>)
    requires |a| == |b| && forall i :: 0 <= i < |a| ==> a[i].size == b[i].size
    ensures SizeSum(a) == SizeSum(b)
    decreases |a|
  {
    if a != [] {
      SizeSumSame(a[..|a| - 1], b[..|b| - 1]);
    }
  }

  /** The sizes add up to the number of tokens that were allocated while there was a superior token. */
  lemma {:induction false} RunSizeSum(links: bool, js: Bytes, cap: nat, s: State)
    requires Valid(s)
    ensures SizeSum(Run(links, js, cap, s).1.toks) == SizeSum(s.toks) + Linked(Supers(links, js, cap, s))
    decreases |js| - s.pos
  {
    if Active(js, s.pos) && Step(links, js, cap, s).Next? {
      var s' := Step(links, js, cap, s).state;
      StepSizes(links, js, cap, s);
      RunSizeSum(links, js, cap, s');
      if |s'.toks| > |s.toks| {
        SizeSumBump(s.toks, s.super);
        assert s'.toks[..|s'.toks| - 1] == Bump(s.toks, s.super);
        assert Supers(links, js, cap, s)[1..] == Supers(links, js, cap, s');
      } else {
        SizeSumSame(s.toks, s'.toks);
        assert Supers(links, js, cap, s) == Supers(links, js, cap, s');
      }
    }
  }

  /**
   * With parent links, on any text and wherever the run stops, a token's size is the number of tokens that name it as
   * parent.
   */
  lemma SizeIsChildren(js: Bytes, cap: nat)
    ensures var toks := Run(true, js, cap, INIT).1.toks;
      forall i :: 0 <= i < |toks| ==> toks[i].size == Occurrences(Parents(toks), i)
  {
    RunParents(true, js, cap, INIT);
    var toks := Run(true, js, cap, INIT).1.toks;
    assert Parents(toks) == Supers(true, js, cap, INIT);
    forall i | 0 <= i < |toks| ensures toks[i].size == Occurrences(Parents(toks), i) {
      RunSize(true, js, cap, INIT, i);
    }
  }
}
