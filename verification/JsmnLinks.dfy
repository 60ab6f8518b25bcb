/** The two builds of jsmn, with and without JSMN_PARENT_LINKS, run side by side over any text. */
module JsmnLinks {
  import opened Ascii
  import opened JsmnSpec

  /** The states agree on everything but sizes, parents and the superior token. */
  predicate Alike(p: State, l: State) {
    && p.pos == l.pos && |p.toks| == |l.toks|
    && forall i :: 0 <= i < |p.toks| ==>
         p.toks[i].kind == l.toks[i].kind && p.toks[i].start == l.toks[i].start && p.toks[i].end == l.toks[i].end
  }

  /** With links, whatever came after an open container hangs below it: the superior token and all later parents. */
  predicate Anchored(l: State) {
    Valid(l) && forall k :: 0 <= k < |l.toks| && l.toks[k].IsOpen() ==> l.super >= k && Above(l.toks, k)
  }

  predicate Above(toks: seq<Token>, k: nat) {
    forall j :: k < j < |toks| ==> toks[j].parent >= k
  }

  lemma {:induction false} AlikeOpen(p: State, l: State, n: nat)
    requires Alike(p, l) && n <= |p.toks|
    ensures LastOpen(p.toks, n) == LastOpen(l.toks, n)
    decreases n
  {
    if n > 0 {
      AlikeOpen(p, l, n - 1);
    }
  }

  /** While a container is open, following the parents finds the innermost one. */
  lemma {:induction false} ClimbFinds(l: State, k: nat, i: nat)
    requires Anchored(l) && k <= i < |l.toks| && l.toks[k].IsOpen()
    requires forall j :: k < j <= i ==> !l.toks[j].IsOpen()
    ensures Climb(l.toks, i) == k
    decreases i
  {
    if i > k {
      assert Above(l.toks, k);
      ClimbFinds(l, k, l.toks[i].parent);
    }
  }

  predicate Closing(b: Byte) {
    b == RBRACE || b == RBRACKET
  }

  function Closed(b: Byte): Kind {
    if b == RBRACE then Object else Array
  }

  /** The next byte closes a container, and none is open. */
  predicate Stray(js: Bytes, s: State) {
    Active(js, s.pos) && Closing(js[s.pos]) && LastOpen(s.toks, |s.toks|) == -1
  }

  /** What the two builds do with a byte. */
  predicate SameStep(a: Outcome, b: Outcome) {
    match a
    case Stop(e) => b == Stop(e)
    case Next(s) => b.Next? && Alike(s, b.state) && Anchored(b.state)
  }

  lemma AppendAlike(p: State, l: State, pos: nat, t: Token, u: Token, open: bool)
    requires Alike(p, l) && Valid(p) && Anchored(l) && u.parent == l.super
    requires t.kind == u.kind && t.start == u.start && t.end == u.end
      && (open ==> u.IsContainer()) && u.IsOpen() == open
    ensures Alike(Append(p, pos, t), Append(l, pos, u))
    ensures Anchored(if open then Append(l, pos, u).(super := |l.toks|) else Append(l, pos, u))
  {
    var bumped := Bump(l.toks, l.super);
    var b := Append(l, pos, u);
    forall k | 0 <= k < |l.toks| && b.toks[k].IsOpen()
      ensures l.super >= k && Above(b.toks, k)
    {
      assert l.toks[k].IsOpen() && Above(l.toks, k);
      forall j | k < j < |b.toks| ensures b.toks[j].parent >= k {
        assert j < |l.toks| ==> b.toks[j].parent == l.toks[j].parent;
      }
    }
  }

  lemma CloseAlike(p: State, l: State, kind: Kind)
    requires Alike(p, l) && Valid(p) && Anchored(l) && LastOpen(p.toks, |p.toks|) != -1
    ensures SameStep(Close(false, p, kind), Close(true, l, kind))
  {
    var k := LastOpen(p.toks, |p.toks|);
    AlikeOpen(p, l, |p.toks|);
    ClimbFinds(l, k, |l.toks| - 1);
    hide Climb, LastOpen, Above;
    if l.toks[k].kind == kind {
      var b := Close(true, l, kind).state;
      forall i | 0 <= i < |b.toks| && b.toks[i].IsOpen()
        ensures b.super >= i && Above(b.toks, i)
      {
        assert l.toks[i].IsOpen() && Above(l.toks, i);
        AboveEnd(l.toks, i, k, l.pos + 1);
      }
    }
  }

  lemma AboveEnd(toks: seq<Token>, i: nat, k: nat, end: nat)
    requires k < |toks| && Above(toks, i)
    ensures Above(EndAt(toks, k, end), i) && (i < k ==> toks[k].parent >= i)
  {
  }

  lemma CommaAlike(p: State, l: State)
    requires Alike(p, l) && Valid(p) && Anchored(l)
    ensures SameStep(Comma(false, p), Comma(true, l))
  {
    forall k | 0 <= k < |l.toks| && l.toks[k].IsOpen()
      ensures Comma(true, l).state.super >= k
    {
      assert Above(l.toks, k);
    }
  }

  lemma OpenAlike(cap: nat, p: State, l: State, kind: Kind)
    requires Alike(p, l) && Valid(p) && Anchored(l) && (kind == Object || kind == Array)
    ensures SameStep(Open(false, cap, p, kind), Open(true, cap, l, kind))
  {
    hide Anchored, Append;
    AppendAlike(p, l, p.pos + 1, Token(kind, p.pos, -1, 0, -1), Token(kind, l.pos, -1, 0, l.super), true);
  }

  lemma StringAlike(js: Bytes, cap: nat, p: State, l: State)
    requires Alike(p, l) && Valid(p) && Anchored(l) && p.pos < |js|
    ensures SameStep(StringAt(false, js, cap, p), StringAt(true, js, cap, l))
  {
    hide ScanString, Anchored, Append;
    var scan := ScanString(js, p.pos + 1);
    if scan.Found? {
      var t := Token(Text, p.pos + 1, scan.at, 0, -1);
      AppendAlike(p, l, scan.at + 1, t, t.(parent := l.super), false);
    }
  }

  lemma PrimitiveAlike(js: Bytes, cap: nat, p: State, l: State)
    requires Alike(p, l) && Valid(p) && Anchored(l) && Active(js, p.pos) && !IsDelimiter(js[p.pos])
    ensures SameStep(PrimitiveAt(false, js, cap, p), PrimitiveAt(true, js, cap, l))
  {
    hide ScanPrimitive, Anchored, Append;
    var scan := ScanPrimitive(js, p.pos);
    if scan.Found? {
      var t := Token(Primitive, p.pos, scan.at, 0, -1);
      AppendAlike(p, l, scan.at, t, t.(parent := l.super), false);
    }
  }

  /** Except at a stray bracket the two builds do the same with every byte. */
  lemma StepAlike(js: Bytes, cap: nat, p: State, l: State)
    requires Alike(p, l) && Valid(p) && Anchored(l) && Active(js, p.pos) && !Stray(js, p)
    ensures SameStep(Step(false, js, cap, p), Step(true, js, cap, l))
  {
    hide Open, Close, StringAt, PrimitiveAt, Comma, Above;
    var c := js[p.pos];
    if c == LBRACE || c == LBRACKET {
      OpenAlike(cap, p, l, if c == LBRACE then Object else Array);
    } else if Closing(c) {
      CloseAlike(p, l, Closed(c));
    } else if c == QUOTE {
      StringAlike(js, cap, p, l);
    } else if c == COMMA {
      CommaAlike(p, l);
    } else if !IsDelimiter(c) {
      PrimitiveAlike(js, cap, p, l);
    }
  }

  /** Where the run from `s` stands when it has come to `pos`, or has stopped before. */
  function Until(js: Bytes, cap: nat, s: State, pos: nat): (r: State)
    requires Valid(s)
    ensures Valid(r)
    decreases |js| - s.pos
  {
    if s.pos >= pos || !Active(js, s.pos) || Step(true, js, cap, s).Stop? then s
    else Until(js, cap, Step(true, js, cap, s).state, pos)
  }

  /**
   * The build with links takes a stray bracket: the root above the last token is of its kind, and `super` is not -1.
   */
  predicate Taken(js: Bytes, u: State)
    requires Valid(u) && Active(js, u.pos)
  {
    |u.toks| > 0 && u.toks[Climb(u.toks, |u.toks| - 1)].kind == Closed(js[u.pos]) && u.super != -1
  }

  /** At a stray bracket one build stops; the other goes on exactly if it takes the bracket. */
  lemma StrayStep(js: Bytes, cap: nat, p: State, u: State)
    requires Alike(p, u) && Valid(p) && Valid(u) && Stray(js, p)
    ensures Step(false, js, cap, p) == Stop(Inval)
    ensures Step(true, js, cap, u) == if Taken(js, u) then Next(u.(pos := u.pos + 1)) else Stop(Inval)
  {
    AlikeOpen(p, u, |p.toks|);
  }

  lemma {:induction false} RunOn(links: bool, js: Bytes, cap: nat, s: State)
    requires Valid(s)
    ensures Run(links, js, cap, s).1.pos >= s.pos
    decreases |js| - s.pos
  {
    if Active(js, s.pos) && Step(links, js, cap, s).Next? {
      RunOn(links, js, cap, Step(links, js, cap, s).state);
    }
  }

  /** The call with links returns the same code, and stores tokens of the same kinds, starts and ends. */
  predicate SameEnd(a: (Result, State), b: (Result, State)) {
    a.0 == b.0 && Alike(a.1, b.1)
  }

  lemma Aligned(p: State, l: State)
    requires Alike(p, l) && Anchored(l)
    ensures p.pos == l.pos && |p.toks| == |l.toks| && Valid(l)
      && LastOpen(p.toks, |p.toks|) == LastOpen(l.toks, |l.toks|)
  {
    AlikeOpen(p, l, |p.toks|);
  }

  /** Two runs that start alike. */
  lemma {:induction false} Together(js: Bytes, cap: nat, p: State, l: State)
    requires Alike(p, l) && Valid(p) && Anchored(l)
    ensures var (a, b) := (Run(false, js, cap, p), Run(true, js, cap, l));
      var u := Until(js, cap, l, a.1.pos);
      && Alike(a.1, u)
      && (SameEnd(a, b) <==> !(Stray(js, a.1) && Taken(js, u)))
      && (Stray(js, a.1) ==> a.0 == Failed(Inval) && b == Run(true, js, cap, u))
    decreases |js| - p.pos
  {
    Aligned(p, l);
    hide Step, Alike, Anchored, Taken, LastOpen, Closing;
    if Active(js, p.pos) {
      if Stray(js, p) {
        StrayStep(js, cap, p, l);
        if Taken(js, l) {
          RunOn(true, js, cap, l.(pos := l.pos + 1));
        }
      } else {
        StepAlike(js, cap, p, l);
        if Step(false, js, cap, p).Next? {
          var p', l' := Step(false, js, cap, p).state, Step(true, js, cap, l).state;
          RunOn(false, js, cap, p');
          Together(js, cap, p', l');
        }
      }
    }
  }

  /**
   * Where the two builds agree, for every text and capacity: they return the same code and store tokens of the same
   * kinds, starts and ends, unless the plain build stops at a stray bracket that the build with links takes.
   */
  lemma BuildsAgree(js: Bytes, cap: nat)
    ensures var (a, b) := (Run(false, js, cap, INIT), Run(true, js, cap, INIT));
      var u := Until(js, cap, INIT, a.1.pos);
      && Alike(a.1, u)
      && (SameEnd(a, b) <==> !(Stray(js, a.1) && Taken(js, u)))
      && (Stray(js, a.1) ==> a.0 == Failed(Inval) && b == Run(true, js, cap, u))
  {
    Together(js, cap, INIT, INIT);
  }

  // ----- the stray bracket, by the text alone -----

  /** Where the string or primitive at `pos` ends, as jsmn takes it. */
  function AtomEnd(js: Bytes, pos: nat): (r: Scan)
    requires Active(js, pos)
    ensures r.Found? && (js[pos] == QUOTE || !IsDelimiter(js[pos])) ==> r.at > pos
  {
    if js[pos] != QUOTE then ScanPrimitive(js, pos)
    else
      match ScanString(js, pos + 1)
      case Found(e) => Found(e + 1)
      case other => other
  }

  /**
   * The text from `pos` on, inside brackets of the kinds `open`, comes to a bracket that closes none: before it every
   * bracket closes the last open one, and no string or primitive is malformed.
   */
  predicate ClosesNone(js: Bytes, pos: nat, open: seq<Kind>)
    decreases |js| - pos
  {
    if !Active(js, pos) then false
    else if js[pos] == LBRACE then ClosesNone(js, pos + 1, open + [Object])
    else if js[pos] == LBRACKET then ClosesNone(js, pos + 1, open + [Array])
    else if Closing(js[pos]) then
      open == [] || (open[|open| - 1] == Closed(js[pos]) && ClosesNone(js, pos + 1, open[..|open| - 1]))
    else if IsDelimiter(js[pos]) then ClosesNone(js, pos + 1, open)
    else
      match AtomEnd(js, pos)
      case Found(e) => ClosesNone(js, e, open)
      case _ => false
  }

  /** The kinds of the open tokens, outermost first. */
  function OpenKinds(toks: seq<Token>): seq<Kind> {
    if toks == [] then []
    else
      var n := |toks| - 1;
      OpenKinds(toks[..n]) + if toks[n].IsOpen() then [toks[n].kind] else []
  }

  lemma {:induction false} SameOpen(a: seq<Token>, b: seq<Token>)
    requires |a| == |b|
    requires forall i :: 0 <= i < |a| ==> a[i].kind == b[i].kind && a[i].start == b[i].start && a[i].end == b[i].end
    ensures OpenKinds(a) == OpenKinds(b)
    decreases |a|
  {
    if a != [] {
      SameOpen(a[..|a| - 1], b[..|b| - 1]);
    }
  }

  lemma OneMore(s: State, pos: nat, t: Token)
    requires Valid(s)
    ensures OpenKinds(Append(s, pos, t).toks) == if t.IsOpen() then OpenKinds(s.toks) + [t.kind] else OpenKinds(s.toks)
  {
    var toks := Bump(s.toks, s.super);
    SameOpen(toks, s.toks);
    assert (toks + [t])[..|toks|] == toks;
  }

  /** The last open token is the last of the open kinds. */
  lemma {:induction false} LastKind(toks: seq<Token>, end: nat)
    ensures var (k, open) := (LastOpen(toks, |toks|), OpenKinds(toks));
      if k == -1 then open == []
      else |open| > 0 && toks[k].kind == open[|open| - 1] && OpenKinds(EndAt(toks, k, end)) == open[..|open| - 1]
    decreases |toks|
  {
    if toks != [] {
      var n := |toks| - 1;
      var init := toks[..n];
      LastOpenInit(toks, n, n);
      if toks[n].IsOpen() {
        assert EndAt(toks, n, end)[..n] == init;
      } else {
        LastKind(init, end);
        var k := LastOpen(init, n);
        if k != -1 {
          assert EndAt(toks, k, end)[..n] == EndAt(init, k, end);
        }
      }
    }
  }

  lemma {:induction false} LastOpenInit(toks: seq<Token>, n: nat, i: nat)
    requires i <= n <= |toks|
    ensures LastOpen(toks, i) == LastOpen(toks[..n], i)
    decreases i
  {
    if i > 0 {
      LastOpenInit(toks, n, i - 1);
    }
  }

  /** A step of the plain build at a byte that is no stray bracket, by the text. */
  predicate Reads(js: Bytes, pos: nat, open: seq<Kind>, o: Outcome) {
    match o
    case Next(s) => ClosesNone(js, pos, open) == ClosesNone(js, s.pos, OpenKinds(s.toks))
    case Stop(NoMem) => true
    case Stop(_) => !ClosesNone(js, pos, open)
  }

  lemma StepReads(js: Bytes, cap: nat, s: State)
    requires Valid(s) && Active(js, s.pos) && !Stray(js, s)
    ensures Reads(js, s.pos, OpenKinds(s.toks), Step(false, js, cap, s))
  {
    hide OpenKinds, LastOpen, ScanString, ScanPrimitive;
    var c := js[s.pos];
    LastKind(s.toks, s.pos + 1);
    if c == LBRACE || c == LBRACKET {
      OneMore(s, s.pos + 1, Token(if c == LBRACE then Object else Array, s.pos, -1, 0, -1));
    } else if c == QUOTE {
      var scan := ScanString(js, s.pos + 1);
      if scan.Found? {
        OneMore(s, scan.at + 1, Token(Text, s.pos + 1, scan.at, 0, -1));
      }
    } else if !Closing(c) && !IsDelimiter(c) {
      var scan := ScanPrimitive(js, s.pos);
      if scan.Found? {
        OneMore(s, scan.at, Token(Primitive, s.pos, scan.at, 0, -1));
      }
    }
  }

  /** Unless it runs out of tokens, the plain build stops at a stray bracket exactly if the text comes to one. */
  lemma {:induction false} StrayByText(js: Bytes, cap: nat, s: State)
    requires Valid(s)
    ensures var a := Run(false, js, cap, s);
      && (Stray(js, a.1) ==> ClosesNone(js, s.pos, OpenKinds(s.toks)))
      && (a.0 != Failed(NoMem) && ClosesNone(js, s.pos, OpenKinds(s.toks)) ==> Stray(js, a.1))
    decreases |js| - s.pos
  {
    LastKind(s.toks, 0);
    hide Step, OpenKinds, LastOpen;
    if Active(js, s.pos) {
      if Stray(js, s) {
        StrayStep(js, cap, s, s);
      } else {
        StepReads(js, cap, s);
        if Step(false, js, cap, s).Next? {
          StrayByText(js, cap, Step(false, js, cap, s).state);
        }
      }
    }
  }

  /**
   * Whatever the capacity, the two builds agree on every text in which no bracket is stray; on the others, given tokens
   * enough, the plain build fails.
   */
  lemma BuildsAgreeByText(js: Bytes, cap: nat)
    ensures var (a, b) := (Run(false, js, cap, INIT), Run(true, js, cap, INIT));
      && (!ClosesNone(js, 0, []) ==> SameEnd(a, b))
      && (ClosesNone(js, 0, []) ==> a.0 == Failed(Inval) || a.0 == Failed(NoMem))
      && (!SameEnd(a, b) ==> ClosesNone(js, 0, []) && a.0 == Failed(Inval))
  {
    BuildsAgree(js, cap);
    StrayByText(js, cap, INIT);
  }

  /** A member without a value and one closing bracket too many: `{"a"}:}`. */
  const TWICE_CLOSED: Bytes := [LBRACE, QUOTE, 97, QUOTE, RBRACE, COLON, RBRACE]

  /** The tokens of that text, before and after the closing of the object. */
  function Half(links: bool): seq<Token> {
    [Token(Object, 0, -1, 1, -1), Token(Text, 2, 3, 0, Parent(links, 0))]
  }

  function Whole(links: bool): seq<Token> {
    EndAt(Half(links), 0, 5)
  }

  lemma OpeningSteps(links: bool)
    ensures var s1 := State(1, 0, [Token(Object, 0, -1, 0, -1)]);
      Step(links, TWICE_CLOSED, 2, INIT) == Next(s1)
        && Step(links, TWICE_CLOSED, 2, s1) == Next(State(4, 0, Half(links)))
  {
    assert ScanString(TWICE_CLOSED, 2) == ScanString(TWICE_CLOSED, 3) == Found(3);
  }

  lemma ClosingStep(links: bool)
    ensures Step(links, TWICE_CLOSED, 2, State(4, 0, Half(links))) == Next(State(5, -1, Whole(links)))
  {
    assert LastOpen(Half(links), 2) == LastOpen(Half(links), 1) == 0;
  }

  lemma TwiceClosed(links: bool)
    ensures Run(links, TWICE_CLOSED, 2, INIT) == Run(links, TWICE_CLOSED, 2, State(6, 1, Whole(links)))
  {
    var js := TWICE_CLOSED;
    OpeningSteps(links);
    ClosingStep(links);
    assert Step(links, js, 2, State(5, -1, Whole(links))) == Next(State(6, 1, Whole(links)));
    hide Step, Half, Whole;
    assert Run(links, js, 2, INIT) == Run(links, js, 2, State(4, 0, Half(links)));
    assert Run(links, js, 2, State(4, 0, Half(links))) == Run(links, js, 2, State(5, -1, Whole(links)));
  }

  /** Outside JSON the two builds differ: only the one without links notices the stray bracket. */
  lemma LinksDisagree()
    ensures Run(false, TWICE_CLOSED, 2, INIT).0 == Failed(Inval) && Run(true, TWICE_CLOSED, 2, INIT).0 == Done(2)
  {
    TwiceClosed(false);
    TwiceClosed(true);
    var p, u := State(6, 1, Whole(false)), State(6, 1, Whole(true));
    assert LastOpen(p.toks, 2) == LastOpen(p.toks, 1) == LastOpen(p.toks, 0) == -1;
    assert LastOpen(u.toks, 2) == LastOpen(u.toks, 1) == LastOpen(u.toks, 0) == -1;
    assert Climb(u.toks, 1) == 0;
    StrayStep(TWICE_CLOSED, 2, p, u);
    hide Step;
    assert Run(true, TWICE_CLOSED, 2, u) == Run(true, TWICE_CLOSED, 2, u.(pos := 7));
  }
}
