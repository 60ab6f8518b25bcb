/** What jsmn returns for every text, read without tokens: a stack of bracket kinds, strings and primitives. */
module JsmnReading {
  import opened Ascii
  import opened JsmnSpec
  import L = JsmnLinks
  import J = JsonText

  datatype StringEnd = Closes(at: nat) | CutOff | Malformed

  /** How many hexadecimal digits stand at `pos`, at most `n`. */
  function HexRun(js: Bytes, pos: nat, n: nat): (r: nat)
    ensures r <= n && (r > 0 ==> pos + r <= |js|)
    decreases n
  {
    if n > 0 && pos < |js| && IsHex(js[pos]) then 1 + HexRun(js, pos + 1, n - 1) else 0
  }

  /**
   * Where the string whose body goes on at `pos` closes; it is cut off at the end of the text, and malformed at a
   * backslash that starts no escape. Four hexadecimal digits belong to \u, unless the text ends before.
   */
  function BodyFrom(js: Bytes, pos: nat): (r: StringEnd)
    ensures r.Closes? ==> pos <= r.at < |js|
    decreases |js| - pos
  {
    if !Active(js, pos) then CutOff
    else if js[pos] == '\"' as int then Closes(pos)
    else if js[pos] != '\\' as int then BodyFrom(js, pos + 1)
    else if pos + 1 >= |js| then CutOff
    else if IsShortEscape(js[pos + 1]) then BodyFrom(js, pos + 2)
    else if js[pos + 1] != 'u' as int then Malformed
    else
      var k := HexRun(js, pos + 2, 4);
      if k == 4 || !Active(js, pos + 2 + k) then BodyFrom(js, pos + 2 + k) else Malformed
  }

  /** White space, comma, colon and closing brackets end a primitive. */
  predicate EndsPrimitive(b: Byte) {
    || b == ' ' as int || b == '\t' as int || b == '\r' as int || b == '\n' as int
    || b == ':' as int || b == ',' as int || b == ']' as int || b == '}' as int
  }

  /** The end of the primitive that covers `pos`. */
  function PrimitiveEnd(js: Bytes, pos: nat): (r: nat)
    ensures pos <= r && (pos <= |js| ==> r <= |js|)
    decreases |js| - pos
  {
    if !Active(js, pos) || EndsPrimitive(js[pos]) then pos else PrimitiveEnd(js, pos + 1)
  }

  /** Visible characters and blanks of ASCII. */
  predicate Printable(s: Bytes) {
    forall i :: 0 <= i < |s| ==> 32 <= s[i] < 127
  }

  /** The text is complete, ends too early, or is broken at some place before its end. */
  datatype Verdict = Complete | Unfinished | Broken

  /** The text from `pos` on, inside brackets of the kinds `open`. */
  function Reading(js: Bytes, pos: nat, open: seq<Kind>): Verdict
    decreases |js| - pos
  {
    if !Active(js, pos) then (if open == [] then Complete else Unfinished)
    else if js[pos] == '{' as int then Reading(js, pos + 1, open + [Object])
    else if js[pos] == '[' as int then Reading(js, pos + 1, open + [Array])
    else if js[pos] == '}' as int then
      if open != [] && open[|open| - 1] == Object then Reading(js, pos + 1, open[..|open| - 1]) else Broken
    else if js[pos] == ']' as int then
      if open != [] && open[|open| - 1] == Array then Reading(js, pos + 1, open[..|open| - 1]) else Broken
    else if js[pos] == '\"' as int then
      match BodyFrom(js, pos + 1)
      case Closes(e) => Reading(js, e + 1, open)
      case CutOff => Unfinished
      case Malformed => Broken
    else if EndsPrimitive(js[pos]) then Reading(js, pos + 1, open)
    else
      var e := PrimitiveEnd(js, pos);
      if Printable(js[pos..e]) then Reading(js, e, open) else Broken
  }

  // ----- the scanners -----

  lemma {:induction false} HexScanned(js: Bytes, pos: nat, n: nat)
    ensures var k := HexRun(js, pos, n);
      ScanHex(js, pos, n) == if k == n || !Active(js, pos + k) then Found(pos + k) else Bad
    decreases n
  {
    if n > 0 && Active(js, pos) {
      HexScanned(js, pos + 1, n - 1);
    }
  }

  lemma {:induction false} BodyScanned(js: Bytes, pos: nat)
    ensures match BodyFrom(js, pos)
      case Closes(e) => ScanString(js, pos) == Found(e)
      case CutOff => ScanString(js, pos) == Short
      case Malformed => ScanString(js, pos) == Bad
    decreases |js| - pos
  {
    hide ScanHex, HexRun;
    if Active(js, pos) && js[pos] != QUOTE {
      if js[pos] != BACKSLASH {
        BodyScanned(js, pos + 1);
      } else if pos + 1 < |js| {
        if IsShortEscape(js[pos + 1]) {
          BodyScanned(js, pos + 2);
        } else if js[pos + 1] == LOWER_U {
          var k := HexRun(js, pos + 2, 4);
          HexScanned(js, pos + 2, 4);
          BodyScanned(js, pos + 2 + k);
        }
      } else {
        assert ScanString(js, pos) == ScanString(js, pos + 1);
      }
    }
  }

  lemma {:induction false} PrimitiveScanned(js: Bytes, pos: nat)
    requires pos <= |js|
    ensures var e := PrimitiveEnd(js, pos);
      ScanPrimitive(js, pos) == if Printable(js[pos..e]) then Found(e) else Bad
    decreases |js| - pos
  {
    if Active(js, pos) && !EndsPrimitive(js[pos]) {
      PrimitiveScanned(js, pos + 1);
      var e := PrimitiveEnd(js, pos);
      assert js[pos..e] == [js[pos]] + js[pos + 1..e];
    }
  }

  // ----- the result -----

  /** What a result says about the text, unless the tokens have run out. */
  predicate Says(r: Result, v: Verdict) {
    match v
    case Complete => r.Done?
    case Unfinished => r == Failed(Part)
    case Broken => r == Failed(Inval)
  }

  /** One byte, string or primitive of the plain build, as the reading takes it. */
  predicate Follows(js: Bytes, s: State, o: Outcome)
    requires Valid(s)
  {
    match o
    case Next(t) => Reading(js, s.pos, L.OpenKinds(s.toks)) == Reading(js, t.pos, L.OpenKinds(t.toks))
    case Stop(NoMem) => true
    case Stop(e) => Says(Failed(e), Reading(js, s.pos, L.OpenKinds(s.toks)))
  }

  lemma BracketFollows(js: Bytes, cap: nat, s: State)
    requires Valid(s) && Active(js, s.pos) && (js[s.pos] == LBRACE || js[s.pos] == LBRACKET || L.Closing(js[s.pos]))
    ensures Follows(js, s, Step(false, js, cap, s))
  {
    hide L.OpenKinds, LastOpen, BodyFrom, PrimitiveEnd, ScanString, ScanPrimitive;
    var c := js[s.pos];
    L.LastKind(s.toks, s.pos + 1);
    if c == LBRACE || c == LBRACKET {
      L.OneMore(s, s.pos + 1, Token(if c == LBRACE then Object else Array, s.pos, -1, 0, -1));
    }
  }

  lemma StringFollows(js: Bytes, cap: nat, s: State)
    requires Valid(s) && Active(js, s.pos) && js[s.pos] == QUOTE
    ensures Follows(js, s, Step(false, js, cap, s))
  {
    hide L.OpenKinds, LastOpen, BodyFrom, PrimitiveEnd, ScanString, ScanPrimitive;
    BodyScanned(js, s.pos + 1);
    var scan := ScanString(js, s.pos + 1);
    if scan.Found? {
      L.OneMore(s, scan.at + 1, Token(Text, s.pos + 1, scan.at, 0, -1));
    }
  }

  lemma PrimitiveFollows(js: Bytes, cap: nat, s: State)
    requires Valid(s) && Active(js, s.pos) && !IsDelimiter(js[s.pos])
    requires js[s.pos] != QUOTE && js[s.pos] != LBRACE && js[s.pos] != LBRACKET
    ensures Follows(js, s, Step(false, js, cap, s))
  {
    hide L.OpenKinds, LastOpen, BodyFrom, PrimitiveEnd, ScanString, ScanPrimitive;
    PrimitiveScanned(js, s.pos);
    var scan := ScanPrimitive(js, s.pos);
    if scan.Found? {
      L.OneMore(s, scan.at, Token(Primitive, s.pos, scan.at, 0, -1));
    }
  }

  lemma StepFollows(js: Bytes, cap: nat, s: State)
    requires Valid(s) && Active(js, s.pos)
    ensures Follows(js, s, Step(false, js, cap, s))
  {
    var c := js[s.pos];
    if c == LBRACE || c == LBRACKET || L.Closing(c) {
      BracketFollows(js, cap, s);
    } else if c == QUOTE {
      StringFollows(js, cap, s);
    } else if IsDelimiter(c) {
      hide L.OpenKinds, LastOpen, BodyFrom, PrimitiveEnd;
    } else {
      PrimitiveFollows(js, cap, s);
    }
  }

  /** The plain build returns what the text says, unless it runs out of tokens. */
  lemma {:induction false} RunSays(js: Bytes, cap: nat, s: State)
    requires Valid(s)
    ensures var r := Run(false, js, cap, s).0; r == Failed(NoMem) || Says(r, Reading(js, s.pos, L.OpenKinds(s.toks)))
    decreases |js| - s.pos
  {
    hide Step, LastOpen, L.OpenKinds, BodyFrom, PrimitiveEnd;
    if Active(js, s.pos) {
      StepFollows(js, cap, s);
      if Step(false, js, cap, s).Next? {
        RunSays(js, cap, Step(false, js, cap, s).state);
      }
    } else {
      L.LastKind(s.toks, 0);
    }
  }

  lemma StepTokens(links: bool, js: Bytes, cap: nat, s: State)
    requires Valid(s) && Active(js, s.pos) && |s.toks| + (|js| - s.pos) <= cap
    ensures var o := Step(links, js, cap, s);
      o != Stop(NoMem) && (o.Next? ==> |o.state.toks| + |js| - o.state.pos <= cap)
  {
    hide ScanString, ScanPrimitive, LastOpen, Climb;
  }

  /** With as many tokens as bytes, tokens never run out. */
  lemma {:induction false} TokensSuffice(links: bool, js: Bytes, cap: nat, s: State)
    requires Valid(s) && |s.toks| + (if s.pos < |js| then |js| - s.pos else 0) <= cap
    ensures Run(links, js, cap, s).0 != Failed(NoMem)
    decreases |js| - s.pos
  {
    hide Step;
    if Active(js, s.pos) {
      StepTokens(links, js, cap, s);
      if Step(links, js, cap, s).Next? {
        StepInside(links, js, cap, s);
        TokensSuffice(links, js, cap, Step(links, js, cap, s).state);
      }
    }
  }

  lemma StepInside(links: bool, js: Bytes, cap: nat, s: State)
    requires Valid(s) && Active(js, s.pos) && Step(links, js, cap, s).Next?
    ensures Step(links, js, cap, s).state.pos <= |js|
  {
    hide ScanString, ScanPrimitive, LastOpen, Climb;
  }

  /**
   * What jsmn_parse returns, by the text alone: the number of tokens for a complete text, JSMN_ERROR_PART for one that
   * ends inside a string or a container, JSMN_ERROR_INVAL for one that is broken; the first of these that is met
   * counts. Only with fewer tokens than bytes it may return JSMN_ERROR_NOMEM instead.
   */
  lemma ResultByText(js: Bytes, cap: nat)
    ensures var r := Code(Run(false, js, cap, INIT).0);
      && (r != -1 ==> (r >= 0 <==> Reading(js, 0, []) == Complete))
      && (r != -1 ==> (r == -3 <==> Reading(js, 0, []) == Unfinished))
      && (r != -1 ==> (r == -2 <==> Reading(js, 0, []) == Broken))
      && (r == -1 ==> cap < |js|)
  {
    hide Run, Reading;
    RunSays(js, cap, INIT);
    if cap >= |js| {
      TokensSuffice(false, js, cap, INIT);
    }
  }

  /** On a text that is not broken the build with links returns the same. */
  lemma LinksByText(js: Bytes, cap: nat)
    ensures Reading(js, 0, []) != Broken ==> Run(true, js, cap, INIT).0 == Run(false, js, cap, INIT).0
  {
    hide Run, Reading;
    RunSays(js, cap, INIT);
    L.BuildsAgree(js, cap);
  }

  // ----- the counting call -----

  datatype Census = Tokens(n: nat) | TooShort | Faulty

  /** How many strings, primitives and opening brackets there are; brackets are not matched. */
  function Count(js: Bytes, pos: nat, n: nat): Census
    decreases |js| - pos
  {
    if !Active(js, pos) then Tokens(n)
    else if js[pos] == '{' as int || js[pos] == '[' as int then Count(js, pos + 1, n + 1)
    else if js[pos] == '\"' as int then
      match BodyFrom(js, pos + 1)
      case Closes(e) => Count(js, e + 1, n + 1)
      case CutOff => TooShort
      case Malformed => Faulty
    else if EndsPrimitive(js[pos]) then Count(js, pos + 1, n)
    else
      var e := PrimitiveEnd(js, pos);
      if Printable(js[pos..e]) then Count(js, e, n + 1) else Faulty
  }

  /** The call without a token array returns that number, JSMN_ERROR_PART or JSMN_ERROR_INVAL. */
  lemma {:induction false} CountByText(js: Bytes, toknext: nat, s: CountState)
    ensures var r := Code(CountRun(js, toknext, s).0);
      match Count(js, s.pos, s.count)
      case Tokens(n) => r == n
      case TooShort => r == -3
      case Faulty => r == -2
    decreases |js| - s.pos
  {
    hide BodyFrom, PrimitiveEnd, ScanString, ScanPrimitive;
    if Active(js, s.pos) {
      if js[s.pos] == QUOTE {
        BodyScanned(js, s.pos + 1);
      } else if !IsDelimiter(js[s.pos]) {
        PrimitiveScanned(js, s.pos);
      }
      if CountStep(js, toknext, s).CountNext? {
        CountByText(js, toknext, CountStep(js, toknext, s).state);
      }
    }
  }
}
