/**
 * The jsmn tokenizer as a transition function on values. `links` is the compile-time switch
 * JSMN_PARENT_LINKS; without it the C token has no parent field, and `parent` stays -1 here.
 */
module JsmnSpec {
  import opened Ascii

  datatype Kind = Undefined | Object | Array | Text | Primitive

  datatype Token = Token(kind: Kind, start: int, end: int, size: int, parent: int) {
    predicate IsOpen() {
      start != -1 && end == -1
    }
    predicate IsContainer() {
      kind == Array || kind == Object
    }
  }

  datatype Error = NoMem | Inval | Part

  /** `toks` is the allocated prefix of the token array, so `toknext` is its length. */
  datatype State = State(pos: nat, super: int, toks: seq<Token>)

  datatype Outcome = Next(state: State) | Stop(error: Error)

  datatype Result = Done(count: nat) | Failed(error: Error)

  datatype Scan = Found(at: nat) | Bad | Short

  const INIT := State(0, -1, [])

  /** The code that jsmn_parse returns. */
  function Code(r: Result): int {
    match r
    case Done(n) => n
    case Failed(NoMem) => -1
    case Failed(Inval) => -2
    case Failed(Part) => -3
  }

  predicate Active(js: Bytes, pos: nat) {
    pos < |js| && js[pos] != NUL
  }

  predicate IsDelimiter(b: Byte) {
    b == COLON || b == TAB || b == CR || b == LF || b == SPACE || b == COMMA || b == RBRACKET || b == RBRACE
  }

  /** Where the primitive that covers `pos` ends. */
  function ScanPrimitive(js: Bytes, pos: nat): (r: Scan)
    ensures r.Found? ==> pos <= r.at && (pos <= |js| ==> r.at <= |js|)
    ensures !r.Short?
    decreases |js| - pos
  {
    if !Active(js, pos) || IsDelimiter(js[pos]) then Found(pos)
    else if js[pos] < 32 || js[pos] >= 127 then Bad
    else ScanPrimitive(js, pos + 1)
  }

  /** Skips at most `n` hexadecimal digits; `Bad` at a byte that is none. */
  function ScanHex(js: Bytes, pos: nat, n: nat): (r: Scan)
    ensures r.Found? ==> pos <= r.at && (pos <= |js| ==> r.at <= |js|)
    ensures !r.Short?
    decreases n
  {
    if n == 0 || !Active(js, pos) then Found(pos)
    else if !IsHex(js[pos]) then Bad
    else ScanHex(js, pos + 1, n - 1)
  }

  /** Where the closing quote of the string whose body goes on at `pos` stands. */
  function ScanString(js: Bytes, pos: nat): (r: Scan)
    ensures r.Found? ==> pos <= r.at < |js| && js[r.at] == QUOTE
    decreases |js| - pos
  {
    if !Active(js, pos) then Short
    else if js[pos] == QUOTE then Found(pos)
    else if js[pos] == BACKSLASH && pos + 1 < |js| then
      if IsShortEscape(js[pos + 1]) then ScanString(js, pos + 2)
      else if js[pos + 1] == LOWER_U then
        var hex := ScanHex(js, pos + 2, 4);
        if hex.Bad? then Bad else ScanString(js, hex.at)
      else Bad
    else ScanString(js, pos + 1)
  }

  /** One more child for the token at `i`, if there is one. */
  function Bump(toks: seq<Token>, i: int): (r: seq<Token>)
    requires -1 <= i < |toks|
  {
    if i == -1 then toks else toks[i := toks[i].(size := toks[i].size + 1)]
  }

  /** The last open token below `n`, or -1. */
  function LastOpen(toks: seq<Token>, n: nat): (r: int)
    requires n <= |toks|
    ensures -1 <= r < n
    ensures r >= 0 ==> toks[r].IsOpen()
    ensures forall i :: r < i < n ==> !toks[i].IsOpen()
  {
    if n == 0 then -1
    else if toks[n - 1].IsOpen() then n - 1
    else LastOpen(toks, n - 1)
  }

  predicate ParentsBelow(toks: seq<Token>) {
    forall i :: 0 <= i < |toks| ==> -1 <= toks[i].parent < i
  }

  /** Follows parents up from `i` to the first token that is open or has no parent. */
  function Climb(toks: seq<Token>, i: nat): (r: nat)
    requires i < |toks| && ParentsBelow(toks)
    ensures r <= i && (toks[r].IsOpen() || toks[r].parent == -1)
  {
    if toks[i].IsOpen() || toks[i].parent == -1 then i else Climb(toks, toks[i].parent)
  }

  /** What the code maintains about its own indices; `super` is -1 or an allocated token. */
  predicate Valid(s: State) {
    && -1 <= s.super < |s.toks|
    && ParentsBelow(s.toks)
    && forall i :: 0 <= i < |s.toks| && s.toks[i].IsOpen() ==> s.toks[i].IsContainer()
  }

  function Parent(links: bool, super: int): int {
    if links then super else -1
  }

  /** Appends a token that counts as a child of the current superior token. */
  function Append(s: State, pos: nat, t: Token): State
    requires Valid(s)
  {
    State(pos, s.super, Bump(s.toks, s.super) + [t])
  }

  function Open(links: bool, cap: nat, s: State, kind: Kind): (o: Outcome)
    requires Valid(s) && (kind == Object || kind == Array)
    ensures o.Next? ==> Valid(o.state) && o.state.pos > s.pos
  {
    if |s.toks| >= cap then Stop(NoMem)
    else Next(Append(s, s.pos + 1, Token(kind, s.pos, -1, 0, Parent(links, s.super))).(super := |s.toks|))
  }

  /** Sets the end of the open token `i`. */
  function EndAt(toks: seq<Token>, i: nat, end: nat): (r: seq<Token>)
    requires i < |toks|
    ensures |r| == |toks|
  {
    toks[i := toks[i].(end := end)]
  }

  function Close(links: bool, s: State, kind: Kind): (o: Outcome)
    requires Valid(s)
    ensures o.Next? ==> Valid(o.state) && o.state.pos > s.pos
  {
    if links then
      if |s.toks| < 1 then Stop(Inval)
      else
        var i := Climb(s.toks, |s.toks| - 1);
        if s.toks[i].kind != kind then Stop(Inval)
        else if s.toks[i].IsOpen() then Next(State(s.pos + 1, s.toks[i].parent, EndAt(s.toks, i, s.pos + 1)))
        else if s.super == -1 then Stop(Inval)
        else Next(s.(pos := s.pos + 1))
    else
      var i := LastOpen(s.toks, |s.toks|);
      if i == -1 || s.toks[i].kind != kind then Stop(Inval)
      else Next(State(s.pos + 1, LastOpen(s.toks, i), EndAt(s.toks, i, s.pos + 1)))
  }

  function Comma(links: bool, s: State): (o: Outcome)
    requires Valid(s)
    ensures o.Next? ==> Valid(o.state) && o.state.pos > s.pos
  {
    var next := s.(pos := s.pos + 1);
    if s.super == -1 || s.toks[s.super].IsContainer() then Next(next)
    else if links then Next(next.(super := s.toks[s.super].parent))
    else
      var i := LastOpen(s.toks, |s.toks|);
      Next(if i == -1 then next else next.(super := i))
  }

  function StringAt(links: bool, js: Bytes, cap: nat, s: State): (o: Outcome)
    requires Valid(s) && s.pos < |js|
    ensures o.Next? ==> Valid(o.state) && o.state.pos > s.pos
  {
    match ScanString(js, s.pos + 1)
    case Short => Stop(Part)
    case Bad => Stop(Inval)
    case Found(e) =>
      if |s.toks| >= cap then Stop(NoMem)
      else Next(Append(s, e + 1, Token(Text, s.pos + 1, e, 0, Parent(links, s.super))))
  }

  function PrimitiveAt(links: bool, js: Bytes, cap: nat, s: State): (o: Outcome)
    requires Valid(s) && Active(js, s.pos) && !IsDelimiter(js[s.pos])
    ensures o.Next? ==> Valid(o.state) && o.state.pos > s.pos
  {
    match ScanPrimitive(js, s.pos)
    case Bad => Stop(Inval)
    case Found(e) =>
      if |s.toks| >= cap then Stop(NoMem)
      else Next(Append(s, e, Token(Primitive, s.pos, e, 0, Parent(links, s.super))))
  }

  /** One round of the loop of jsmn_parse with a token array of capacity `cap`. A `Stop` leaves the state as it was. */
  function Step(links: bool, js: Bytes, cap: nat, s: State): (o: Outcome)
    requires Valid(s) && Active(js, s.pos)
    ensures o.Next? ==> Valid(o.state) && o.state.pos > s.pos
  {
    var c := js[s.pos];
    if c == LBRACE || c == LBRACKET then Open(links, cap, s, if c == LBRACE then Object else Array)
    else if c == RBRACE || c == RBRACKET then Close(links, s, if c == RBRACE then Object else Array)
    else if c == QUOTE then StringAt(links, js, cap, s)
    else if IsBlank(c) then Next(s.(pos := s.pos + 1))
    else if c == COLON then Next(s.(pos := s.pos + 1, super := |s.toks| - 1))
    else if c == COMMA then Comma(links, s)
    else PrimitiveAt(links, js, cap, s)
  }

  /** The state and result in which a call of jsmn_parse that starts in `s` ends. */
  function Run(links: bool, js: Bytes, cap: nat, s: State): (r: (Result, State))
    requires Valid(s)
    ensures Valid(r.1)
    decreases |js| - s.pos
  {
    if !Active(js, s.pos) then (if LastOpen(s.toks, |s.toks|) == -1 then Done(|s.toks|) else Failed(Part), s)
    else
      match Step(links, js, cap, s)
      case Stop(e) => (Failed(e), s)
      case Next(s') => Run(links, js, cap, s')
  }

  /** State of a call without a token array: it allocates nothing, so `toknext` never moves. */
  datatype CountState = CountState(pos: nat, super: int, count: nat)

  datatype CountOutcome = CountNext(state: CountState) | CountStop(error: Error)

  function CountStep(js: Bytes, toknext: nat, s: CountState): (o: CountOutcome)
    requires Active(js, s.pos)
    ensures o.CountNext? ==> o.state.pos > s.pos
  {
    var c := js[s.pos];
    if c == LBRACE || c == LBRACKET then CountNext(s.(pos := s.pos + 1, count := s.count + 1))
    else if c == RBRACE || c == RBRACKET || IsBlank(c) || c == COMMA then CountNext(s.(pos := s.pos + 1))
    else if c == COLON then CountNext(s.(pos := s.pos + 1, super := toknext - 1))
    else if c == QUOTE then
      match ScanString(js, s.pos + 1)
      case Short => CountStop(Part)
      case Bad => CountStop(Inval)
      case Found(e) => CountNext(s.(pos := e + 1, count := s.count + 1))
    else
      match ScanPrimitive(js, s.pos)
      case Bad => CountStop(Inval)
      case Found(e) => CountNext(s.(pos := e, count := s.count + 1))
  }

  function CountRun(js: Bytes, toknext: nat, s: CountState): (Result, CountState)
    decreases |js| - s.pos
  {
    if !Active(js, s.pos) then (Done(s.count), s)
    else
      match CountStep(js, toknext, s)
      case CountStop(e) => (Failed(e), s)
      case CountNext(s') => CountRun(js, toknext, s')
  }
}
