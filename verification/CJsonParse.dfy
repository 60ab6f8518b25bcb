/**
 * What the cJSON parser computes on a NUL-terminated buffer when no allocation fails: the item, or
 * the offset and depth at which it gave up.
 */
module CJsonParse {
  import opened Ascii
  import opened CJsonItem

  datatype Outcome<+T> =
    | Ok(value: T, offset: nat)
    | Fail(offset: nat, depth: nat)

  /** A C string with its terminator, the only NUL. */
  predicate Terminated(c: Bytes) {
    |c| > 0 && c[|c| - 1] == NUL && forall i :: 0 <= i < |c| - 1 ==> c[i] != NUL
  }

  /** The bytes that buffer_skip_whitespace passes over: more than the white space of RFC 8259. */
  predicate IsSkipped(b: Byte) {
    b <= 32
  }

  function SkipRun(c: Bytes, p: nat): (r: nat)
    requires p <= |c|
    ensures p <= r <= |c| && (forall i :: p <= i < r ==> IsSkipped(c[i])) && (r < |c| ==> !IsSkipped(c[r]))
    decreases |c| - p
  {
    if p < |c| && IsSkipped(c[p]) then SkipRun(c, p + 1) else p
  }

  /** buffer_skip_whitespace steps back when it has passed the last byte. */
  function Skip(c: Bytes, p: nat): (r: nat)
    requires p < |c|
    ensures p <= r < |c|
  {
    var r := SkipRun(c, p);
    if r == |c| then r - 1 else r
  }

  /** Skipping twice is skipping once. */
  lemma SkipInside(c: Bytes, p: nat)
    requires p < |c|
    ensures Skip(c, Skip(c, p)) == Skip(c, p)
  {
  }

  /** How many number bytes stand at `p`, at most `room`. */
  function NumberSpan(c: Bytes, p: nat, room: nat): (n: nat)
    requires p <= |c|
    ensures n <= room && p + n <= |c|
    decreases room
  {
    if room > 0 && p < |c| && IsNumberByte(c[p]) then 1 + NumberSpan(c, p + 1, room - 1) else 0
  }

  lemma {:induction false} SpanBytes(c: Bytes, p: nat, room: nat)
    requires p <= |c|
    ensures forall k :: p <= k < p + NumberSpan(c, p, room) ==> IsNumberByte(c[k])
    decreases room
  {
    if room > 0 && p < |c| && IsNumberByte(c[p]) {
      SpanBytes(c, p + 1, room - 1);
    }
  }

  lemma SpanEnds(c: Bytes, p: nat, room: nat)
    requires p < |c| && Terminated(c)
    ensures p + NumberSpan(c, p, room) < |c|
  {
    SpanBytes(c, p, room);
  }

  function ParseNumber(c: Bytes, p: nat, depth: nat): (r: Outcome<Item>)
    requires p < |c| && Terminated(c)
    ensures r.Ok? ==> p < r.offset < |c|
    ensures r.Fail? ==> r.offset == p && r.depth == depth
  {
    SpanEnds(c, p, NUMBER_LIMIT);
    SpanBytes(c, p, NUMBER_LIMIT);
    var n := StrtodLength(c[p..p + NumberSpan(c, p, NUMBER_LIMIT)]);
    if n == 0 then Fail(p, depth) else Ok(Number(c[p..p + n]), p + n)
  }

  function ParseString(c: Bytes, p: nat, depth: nat): (r: Outcome<CString>)
    requires p < |c| && Terminated(c)
    ensures r.Ok? ==> p < r.offset < |c|
    ensures r.Fail? ==> r.offset <= |c| && r.depth == depth
  {
    if c[p] != QUOTE then Fail(p + 1, depth)
    else match BodyEnd(c, p + 1)
      case None => Fail(p + 1, depth)
      case Some(end) =>
        var (s, stop) := Decode(c, p + 1, end);
        if s.None? then Fail(stop, depth) else Ok(Before(s.value), end + 1)
  }

  /** A value at `p` inside `depth` open containers. */
  function ParseValue(c: Bytes, p: nat, depth: nat): (r: Outcome<Item>)
    requires p < |c| && Terminated(c) && depth <= NESTING_LIMIT
    ensures r.Ok? ==> p < r.offset < |c|
    ensures r.Fail? ==> r.offset <= |c| && depth <= r.depth <= NESTING_LIMIT
    decreases |c| - p, 2
  {
    if At(c, p, NULL_TEXT) then Ok(Null, p + 4)
    else if At(c, p, FALSE_TEXT) then Ok(False, p + 5)
    else if At(c, p, TRUE_TEXT) then Ok(True, p + 4)
    else if c[p] == QUOTE then Stringed(ParseString(c, p, depth))
    else if c[p] == MINUS || IsDigit(c[p]) then ParseNumber(c, p, depth)
    else if c[p] == LBRACKET then ParseArray(c, p, depth)
    else if c[p] == LBRACE then ParseObject(c, p, depth)
    else Fail(p, depth)
  }

  function Stringed(r: Outcome<CString>): Outcome<Item> {
    if r.Fail? then Fail(r.offset, r.depth) else Ok(String(r.value), r.offset)
  }

  function ParseArray(c: Bytes, p: nat, depth: nat): (r: Outcome<Item>)
    requires p < |c| && Terminated(c) && depth <= NESTING_LIMIT
    ensures r.Ok? ==> p < r.offset < |c|
    ensures r.Fail? ==> r.offset <= |c| && depth <= r.depth <= NESTING_LIMIT
    decreases |c| - p, 1
  {
    if depth >= NESTING_LIMIT then Fail(p, depth)
    else if c[p] != LBRACKET then Fail(p, depth + 1)
    else
      var q := Skip(c, p + 1);
      if c[q] == RBRACKET then Ok(Array(NoItems), q + 1)
      else
        match ParseElems(c, q - 1, depth + 1)
        case Fail(at, d) => Fail(at, d)
        case Ok(items, at) => Ok(Array(items), at + 1)
  }

  /** The elements that follow the byte at `p`, up to the closing bracket. */
  function ParseElems(c: Bytes, p: nat, depth: nat): (r: Outcome<Items>)
    requires p + 1 < |c| && Terminated(c) && depth <= NESTING_LIMIT
    ensures r.Ok? ==> p < r.offset < |c| && c[r.offset] == RBRACKET
    ensures r.Fail? ==> r.offset <= |c| && depth <= r.depth <= NESTING_LIMIT
    decreases |c| - (p + 1), 3
  {
    match ParseValue(c, Skip(c, p + 1), depth)
    case Fail(at, d) => Fail(at, d)
    case Ok(v, at) =>
      var s := Skip(c, at);
      if c[s] == COMMA then
        match ParseElems(c, s, depth)
        case Fail(at', d) => Fail(at', d)
        case Ok(rest, at') => Ok(Cons(v, rest), at')
      else if c[s] == RBRACKET then Ok(Cons(v, NoItems), s)
      else Fail(s, depth)
  }

  function ParseObject(c: Bytes, p: nat, depth: nat): (r: Outcome<Item>)
    requires p < |c| && Terminated(c) && depth <= NESTING_LIMIT
    ensures r.Ok? ==> p < r.offset < |c|
    ensures r.Fail? ==> r.offset <= |c| && depth <= r.depth <= NESTING_LIMIT
    decreases |c| - p, 1
  {
    if depth >= NESTING_LIMIT then Fail(p, depth)
    else if c[p] != LBRACE then Fail(p, depth + 1)
    else
      var q := Skip(c, p + 1);
      if c[q] == RBRACE then Ok(Object(NoFields), q + 1)
      else
        match ParseFields(c, q - 1, depth + 1)
        case Fail(at, d) => Fail(at, d)
        case Ok(fields, at) => Ok(Object(fields), at + 1)
  }

  /** The members that follow the byte at `p`, up to the closing brace. */
  function ParseFields(c: Bytes, p: nat, depth: nat): (r: Outcome<Fields>)
    requires p + 1 < |c| && Terminated(c) && depth <= NESTING_LIMIT
    ensures r.Ok? ==> p < r.offset < |c| && c[r.offset] == RBRACE
    ensures r.Fail? ==> r.offset <= |c| && depth <= r.depth <= NESTING_LIMIT
    decreases |c| - (p + 1), 3
  {
    match ParseString(c, Skip(c, p + 1), depth)
    case Fail(at, d) => Fail(at, d)
    case Ok(key, afterKey) =>
      var colon := Skip(c, afterKey);
      if c[colon] != COLON then Fail(colon, depth)
      else
        match ParseValue(c, Skip(c, colon + 1), depth)
        case Fail(at, d) => Fail(at, d)
        case Ok(v, at) =>
          var s := Skip(c, at);
          if c[s] == COMMA then
            match ParseFields(c, s, depth)
            case Fail(at', d) => Fail(at', d)
            case Ok(rest, at') => Ok(Field(key, v, rest), at')
          else if c[s] == RBRACE then Ok(Field(key, v, NoFields), s)
          else Fail(s, depth)
  }

  const BYTE_ORDER_MARK: Bytes := [0xEF, 0xBB, 0xBF]

  /** skip_utf8_bom. */
  function Start(c: Bytes): (r: nat)
    ensures |c| > 0 ==> r < |c|
  {
    if |c| > 4 && At(c, 0, BYTE_ORDER_MARK) then 3 else 0
  }

  /** cJSON_ParseWithOpts: the item, if any, and the position that return_parse_end gets. */
  function ParseWithOpts(text: CString, requireTerminated: bool): (r: (Option<Item>, nat))
    ensures r.1 <= |text|
  {
    var c := text + [NUL];
    match ParseValue(c, Skip(c, Start(c)), 0)
    case Fail(at, _) => (None, if at < |c| then at else |c| - 1)
    case Ok(item, at) =>
      if !requireTerminated then (Some(item), at)
      else
        var end := Skip(c, at);
        if c[end] != NUL then (None, end) else (Some(item), end)
  }
}
