/** The jsmn tokenizer as it runs: a parser object and a token array, both updated in place. */
module Jsmn {
  import opened Ascii
  import opened JsmnSpec

  const NOMEM := -1
  const INVAL := -2
  const PART := -3

  class Parser {
    /** Compiled with JSMN_PARENT_LINKS. */
    const links: bool
    var pos: nat
    var toknext: nat
    var toksuper: int

    /** jsmn_init */
    constructor (links: bool)
      ensures this.links == links && pos == 0 && toknext == 0 && toksuper == -1
    {
      this.links := links;
      pos, toknext, toksuper := 0, 0, -1;
    }

    /** The abstract state: the parser fields and the allocated prefix of the token array. */
    ghost function Abs(tokens: array<Token>): State
      requires toknext <= tokens.Length
      reads this, tokens
    {
      State(pos, toksuper, tokens[..toknext])
    }

    ghost predicate Fits(tokens: array?<Token>, cap: nat)
      reads this, tokens
    {
      tokens != null ==> toknext <= tokens.Length && cap <= tokens.Length && Valid(Abs(tokens))
    }

    /** jsmn_alloc_token; -1 stands for NULL. */
    method AllocToken(tokens: array<Token>, cap: nat) returns (i: int)
      requires toknext <= tokens.Length && cap <= tokens.Length
      modifies this`toknext, tokens
      ensures toknext <= tokens.Length
      ensures i == -1 ==> old(toknext) >= cap && toknext == old(toknext) && tokens[..] == old(tokens[..])
      ensures i != -1 ==> i == old(toknext) < cap && toknext == i + 1
      ensures i != -1 ==> tokens[..] == old(tokens[..])[i := Token(old(tokens[i].kind), -1, -1, 0, -1)]
    {
      if toknext >= cap {
        return -1;
      }
      i := toknext;
      toknext := toknext + 1;
      tokens[i] := tokens[i].(start := -1, end := -1);
      tokens[i] := tokens[i].(size := 0);
      tokens[i] := tokens[i].(parent := -1);
    }

    /** jsmn_fill_token */
    method FillToken(tokens: array<Token>, i: nat, kind: Kind, start: int, end: int)
      requires i < tokens.Length
      modifies tokens
      ensures tokens[..] == old(tokens[..])[i := Token(kind, start, end, 0, old(tokens[i].parent))]
    {
      tokens[i] := tokens[i].(kind := kind, start := start);
      tokens[i] := tokens[i].(end := end, size := 0);
    }

    /**
     * The end of jsmn_parse_string and jsmn_parse_primitive: a token for what has been scanned, if there is one left.
     */
    method StoreToken(tokens: array<Token>, cap: nat, kind: Kind, start: int, end: int) returns (ok: bool)
      requires toknext <= tokens.Length && cap <= tokens.Length
      modifies this`toknext, tokens
      ensures ok == (old(toknext) < cap) && toknext <= tokens.Length
      ensures !ok ==> toknext == old(toknext) && tokens[..] == old(tokens[..])
      ensures ok ==> toknext == old(toknext) + 1 && tokens[toknext..] == old(tokens[..])[toknext..]
      ensures ok ==> tokens[..toknext] == old(tokens[..toknext]) + [Token(kind, start, end, 0, Parent(links, toksuper))]
    {
      var i := AllocToken(tokens, cap);
      if i == -1 {
        return false;
      }
      FillToken(tokens, i, kind, start, end);
      if links {
        tokens[i] := tokens[i].(parent := toksuper);
      }
      ok := true;
    }

    /** What a scan for one token has done when it returns: the closing tail shared by strings and primitives. */
    twostate predicate Scanned(tokens: array?<Token>, cap: nat, scan: Scan, short: int, t: Token, last: int, r: int)
      requires tokens != null ==> old(toknext) <= tokens.Length
      reads this, tokens
    {
      && toksuper == old(toksuper)
      && (tokens != null ==> toknext <= tokens.Length)
      && if !scan.Found? || (tokens != null && old(toknext) >= cap) then
           && r == (if scan.Bad? then INVAL else if scan.Short? then short else NOMEM)
           && pos == old(pos) && toknext == old(toknext) && (tokens != null ==> tokens[..] == old(tokens[..]))
         else
           && r == 0 && pos == last
           && if tokens == null then toknext == old(toknext)
              else
                && toknext == old(toknext) + 1
                && tokens[..toknext] == old(tokens[..toknext]) + [t]
                && tokens[toknext..] == old(tokens[..])[toknext..]
    }

    /** jsmn_parse_primitive */
    method ParsePrimitive(js: Bytes, tokens: array?<Token>, cap: nat) returns (r: int)
      requires Fits(tokens, cap) && Active(js, pos) && !IsDelimiter(js[pos])
      modifies this, tokens
      ensures var scan := ScanPrimitive(js, old(pos));
        var e := if scan.Found? then scan.at else 0;
        Scanned(tokens, cap, scan, 0, Token(Primitive, old(pos), e, 0, Parent(links, old(toksuper))), e - 1, r)
    {
      var start := pos;
      while Active(js, pos) && !IsDelimiter(js[pos])
        invariant start <= pos
        invariant pos == start ==> Active(js, pos) && !IsDelimiter(js[pos])
        invariant ScanPrimitive(js, start) == ScanPrimitive(js, pos)
        invariant toknext == old(toknext) && toksuper == old(toksuper)
        invariant tokens != null ==> tokens[..] == old(tokens[..])
        decreases |js| - pos
      {
        if js[pos] < 32 || js[pos] >= 127 {
          pos := start;
          return INVAL;
        }
        pos := pos + 1;
      }
      if tokens == null {
        pos := pos - 1;
        return 0;
      }
      var ok := StoreToken(tokens, cap, Primitive, start, pos);
      if !ok {
        pos := start;
        return NOMEM;
      }
      pos := pos - 1;
      r := 0;
    }

    /** jsmn_parse_string */
    method ParseString(js: Bytes, tokens: array?<Token>, cap: nat) returns (r: int)
      requires Fits(tokens, cap) && pos < |js|
      modifies this, tokens
      ensures var scan := ScanString(js, old(pos) + 1);
        var e := if scan.Found? then scan.at else 0;
        Scanned(tokens, cap, scan, PART, Token(Text, old(pos) + 1, e, 0, Parent(links, old(toksuper))), e, r)
    {
      var start := pos;
      pos := pos + 1;
      while Active(js, pos)
        invariant start < pos
        invariant ScanString(js, start + 1) == ScanString(js, pos)
        invariant toknext == old(toknext) && toksuper == old(toksuper)
        invariant tokens != null ==> tokens[..] == old(tokens[..])
        decreases |js| - pos
      {
        var c := js[pos];
        if c == QUOTE {
          if tokens == null {
            return 0;
          }
          var ok := StoreToken(tokens, cap, Text, start + 1, pos);
          if !ok {
            pos := start;
            return NOMEM;
          }
          return 0;
        }
        if c == BACKSLASH && pos + 1 < |js| {
          pos := pos + 1;
          if IsShortEscape(js[pos]) {
          } else if js[pos] == LOWER_U {
            pos := pos + 1;
            var ok := SkipHex(js);
            if !ok {
              pos := start;
              return INVAL;
            }
            pos := pos - 1;
          } else {
            pos := start;
            return INVAL;
          }
        }
        pos := pos + 1;
      }
      pos := start;
      r := PART;
    }

    /** The loop over the digits of a \u escape inside jsmn_parse_string. */
    method SkipHex(js: Bytes) returns (ok: bool)
      requires pos <= |js|
      modifies this`pos
      ensures ok == !ScanHex(js, old(pos), 4).Bad?
      ensures ok ==> pos == ScanHex(js, old(pos), 4).at
    {
      var i := 0;
      while i < 4 && Active(js, pos)
        invariant i <= 4 && pos <= |js|
        invariant ScanHex(js, old(pos), 4) == ScanHex(js, pos, 4 - i)
      {
        if !IsHex(js[pos]) {
          return false;
        }
        pos := pos + 1;
        i := i + 1;
      }
      ok := true;
    }

    /** The branch of jsmn_parse for an opening bracket; `pos` is advanced by the caller. */
    method OpenBracket(tokens: array<Token>, cap: nat, kind: Kind) returns (r: int)
      requires Fits(tokens, cap) && (kind == Object || kind == Array)
      modifies this`toknext, this`toksuper, tokens
      ensures toknext <= tokens.Length
      ensures match Open(links, cap, old(Abs(tokens)), kind)
        case Stop(_) => r == NOMEM && Abs(tokens) == old(Abs(tokens))
        case Next(s) => r == 0 && Abs(tokens).(pos := pos + 1) == s
      ensures tokens[toknext..] == old(tokens[..])[toknext..]
    {
      var i := AllocToken(tokens, cap);
      if i == -1 {
        return NOMEM;
      }
      if toksuper != -1 {
        tokens[toksuper] := tokens[toksuper].(size := tokens[toksuper].size + 1);
        if links {
          tokens[i] := tokens[i].(parent := toksuper);
        }
      }
      tokens[i] := tokens[i].(kind := kind);
      tokens[i] := tokens[i].(start := pos);
      toksuper := toknext - 1;
      r := 0;
    }

    /** Index of the last open token below `n`, or -1. */
    method FindOpen(tokens: array<Token>, n: nat) returns (i: int)
      requires n <= tokens.Length
      ensures i == LastOpen(tokens[..n], n)
    {
      i := n - 1;
      while i >= 0 && !tokens[i].IsOpen()
        invariant -1 <= i < n
        invariant LastOpen(tokens[..n], n) == LastOpen(tokens[..n], i + 1)
      {
        i := i - 1;
      }
    }

    /** The branch of jsmn_parse for a closing bracket. */
    method CloseBracket(tokens: array<Token>, kind: Kind) returns (r: int)
      requires toknext <= tokens.Length && Valid(Abs(tokens))
      modifies this`toksuper, tokens
      ensures match Close(links, old(Abs(tokens)), kind)
        case Stop(_) => r == INVAL && Abs(tokens) == old(Abs(tokens))
        case Next(s) => r == 0 && Abs(tokens).(pos := pos + 1) == s
      ensures tokens[toknext..] == old(tokens[toknext..])
    {
      if links {
        r := CloseByLinks(tokens, kind);
      } else {
        r := CloseBySearch(tokens, kind);
      }
    }

    /** The variant with JSMN_PARENT_LINKS: up from the last token along the parents. */
    method CloseByLinks(tokens: array<Token>, kind: Kind) returns (r: int)
      requires links && toknext <= tokens.Length && Valid(Abs(tokens))
      modifies this`toksuper, tokens
      ensures match Close(links, old(Abs(tokens)), kind)
        case Stop(_) => r == INVAL && Abs(tokens) == old(Abs(tokens))
        case Next(s) => r == 0 && Abs(tokens).(pos := pos + 1) == s
      ensures tokens[toknext..] == old(tokens[toknext..])
    {
      ghost var toks := tokens[..toknext];
      if toknext < 1 {
        return INVAL;
      }
      var i := toknext - 1;
      while !tokens[i].IsOpen() && tokens[i].parent != -1
        invariant 0 <= i < toknext
        invariant Climb(toks, toknext - 1) == Climb(toks, i)
      {
        i := tokens[i].parent;
      }
      if tokens[i].IsOpen() {
        if tokens[i].kind != kind {
          return INVAL;
        }
        tokens[i] := tokens[i].(end := pos + 1);
        toksuper := tokens[i].parent;
      } else if tokens[i].kind != kind || toksuper == -1 {
        return INVAL;
      }
      r := 0;
    }

    /** The variant without links: down to the last open token, and on to the one before it. */
    method CloseBySearch(tokens: array<Token>, kind: Kind) returns (r: int)
      requires !links && toknext <= tokens.Length && Valid(Abs(tokens))
      modifies this`toksuper, tokens
      ensures match Close(links, old(Abs(tokens)), kind)
        case Stop(_) => r == INVAL && Abs(tokens) == old(Abs(tokens))
        case Next(s) => r == 0 && Abs(tokens).(pos := pos + 1) == s
      ensures tokens[toknext..] == old(tokens[toknext..])
    {
      ghost var toks := tokens[..toknext];
      var i := FindOpen(tokens, toknext);
      if i == -1 {
        return INVAL;
      }
      if tokens[i].kind != kind {
        return INVAL;
      }
      toksuper := -1;
      tokens[i] := tokens[i].(end := pos + 1);
      LastOpenPrefix(toks, i, tokens[..i]);
      i := FindOpen(tokens, i);
      if i >= 0 {
        toksuper := i;
      }
      r := 0;
    }

    /** The branch of jsmn_parse for a comma. */
    method CommaSeen(tokens: array<Token>)
      requires toknext <= tokens.Length && Valid(Abs(tokens))
      modifies this`toksuper
      ensures Comma(links, old(Abs(tokens))) == Next(Abs(tokens).(pos := pos + 1))
    {
      if toksuper != -1 && !tokens[toksuper].IsContainer() {
        if links {
          toksuper := tokens[toksuper].parent;
        } else {
          var i := toknext - 1;
          while i >= 0 && !(tokens[i].IsContainer() && tokens[i].IsOpen())
            invariant -1 <= i < toknext
            invariant LastOpen(tokens[..toknext], toknext) == LastOpen(tokens[..toknext], i + 1)
          {
            assert tokens[..toknext][i] == tokens[i];
            i := i - 1;
          }
          if i >= 0 {
            toksuper := i;
          }
        }
      }
    }

    /** The token just read counts as a child of the superior token. */
    method CountChild(tokens: array<Token>)
      requires toksuper != -1 ==> 0 <= toksuper < tokens.Length
      modifies tokens
      ensures tokens[..] == if toksuper == -1 then old(tokens[..]) else
        old(tokens[..])[toksuper := old(tokens[toksuper]).(size := old(tokens[toksuper]).size + 1)]
    {
      if toksuper != -1 {
        tokens[toksuper] := tokens[toksuper].(size := tokens[toksuper].size + 1);
      }
    }

    /** The branch of jsmn_parse for a quote. */
    method StringSeen(js: Bytes, tokens: array?<Token>, cap: nat) returns (r: int)
      requires Fits(tokens, cap) && Active(js, pos) && js[pos] == QUOTE
      modifies this, tokens
      ensures tokens == null ==> toknext == old(toknext) && CountedByte(js, r)
      ensures tokens != null ==> toknext <= tokens.Length && SteppedByte(js, tokens, cap, r)
    {
      hide ScanString, ScanPrimitive;
      r := ParseString(js, tokens, cap);
      if r >= 0 {
        r := 1;
        if tokens != null {
          CountChild(tokens);
        }
      }
    }

    /** The branch of jsmn_parse for any other byte. */
    method PrimitiveSeen(js: Bytes, tokens: array?<Token>, cap: nat) returns (r: int)
      requires Fits(tokens, cap) && Active(js, pos) && !IsDelimiter(js[pos]) && js[pos] !in {LBRACE, LBRACKET, QUOTE}
      modifies this, tokens
      ensures tokens == null ==> toknext == old(toknext) && CountedByte(js, r)
      ensures tokens != null ==> toknext <= tokens.Length && SteppedByte(js, tokens, cap, r)
    {
      hide ScanString, ScanPrimitive;
      r := ParsePrimitive(js, tokens, cap);
      if r >= 0 {
        r := 1;
        if tokens != null {
          CountChild(tokens);
        }
      }
    }

    /**
     * The switch of jsmn_parse for the byte at `pos`: a negative code on error, otherwise how much it adds
     * to the count. The caller's loop advances `pos` once more.
     */
    method ParseByte(js: Bytes, tokens: array?<Token>, cap: nat) returns (r: int)
      requires Fits(tokens, cap) && Active(js, pos)
      modifies this, tokens
      ensures tokens == null ==> toknext == old(toknext) && CountedByte(js, r)
      ensures tokens != null ==> toknext <= tokens.Length && SteppedByte(js, tokens, cap, r)
    {
      hide ScanString, ScanPrimitive, Climb, LastOpen;
      var c := js[pos];
      if c == LBRACE || c == LBRACKET {
        r := 1;
        if tokens != null {
          var e := OpenBracket(tokens, cap, if c == LBRACE then Object else Array);
          if e < 0 {
            r := e;
          }
        }
      } else if c == RBRACE || c == RBRACKET {
        r := 0;
        if tokens != null {
          r := CloseBracket(tokens, if c == RBRACE then Object else Array);
        }
      } else if c == QUOTE {
        r := StringSeen(js, tokens, cap);
      } else if IsBlank(c) {
        r := 0;
      } else if c == COLON {
        toksuper := toknext - 1;
        r := 0;
      } else if c == COMMA {
        r := 0;
        if tokens != null {
          CommaSeen(tokens);
        }
      } else {
        r := PrimitiveSeen(js, tokens, cap);
      }
    }

    twostate predicate CountedByte(js: Bytes, r: int)
      requires Active(js, old(pos))
      reads this
    {
      match CountStep(js, toknext, CountState(old(pos), old(toksuper), 0))
      case CountStop(e) => r == Code(Failed(e)) && pos == old(pos) && toksuper == old(toksuper)
      case CountNext(s) => r == s.count && CountState(pos + 1, toksuper, r) == s
    }

    twostate predicate SteppedByte(js: Bytes, tokens: array<Token>, cap: nat, r: int)
      requires old(toknext) <= tokens.Length && toknext <= tokens.Length
      requires Active(js, old(pos)) && old(Valid(Abs(tokens)))
      reads this, tokens
    {
      && tokens[toknext..] == old(tokens[..])[toknext..]
      && match Step(links, js, cap, old(Abs(tokens)))
         case Stop(e) => r == Code(Failed(e)) && Abs(tokens) == old(Abs(tokens))
         case Next(s) => r == toknext - old(toknext) >= 0 && Abs(tokens).(pos := pos + 1) == s
    }

    /**
     * jsmn_parse. Without a token array it only counts; with one it ends in the state that `Run`
     * gives and leaves the entries that it did not allocate alone.
     */
    method Parse(js: Bytes, tokens: array?<Token>, cap: nat) returns (r: int)
      requires Fits(tokens, cap)
      modifies this, tokens
      ensures toknext >= old(toknext)
      ensures tokens == null ==> toknext == old(toknext)
      ensures tokens == null ==>
        var (result, s) := CountRun(js, toknext, CountState(old(pos), old(toksuper), old(toknext)));
        r == Code(result) && pos == s.pos && toksuper == s.super
      ensures tokens != null ==> Fits(tokens, cap)
      ensures tokens != null ==>
        var (result, s) := Run(links, js, cap, old(Abs(tokens)));
        r == Code(result) && Abs(tokens) == s
      ensures tokens != null ==> tokens[toknext..] == old(tokens[..])[toknext..]
    {
      if tokens == null {
        r := ParseCounting(js, cap);
      } else {
        r := ParseTokens(js, tokens, cap);
      }
    }

    /** The loop of jsmn_parse when there is no token array. */
    method ParseCounting(js: Bytes, cap: nat) returns (r: int)
      modifies this
      ensures toknext == old(toknext)
      ensures var (result, s) := CountRun(js, toknext, CountState(old(pos), old(toksuper), old(toknext)));
        r == Code(result) && pos == s.pos && toksuper == s.super
    {
      var count: nat := toknext;
      ghost var goal := CountRun(js, toknext, CountState(pos, toksuper, count));
      while Active(js, pos)
        invariant toknext == old(toknext)
        invariant CountRun(js, toknext, CountState(pos, toksuper, count)) == goal
        decreases |js| - pos
      {
        CountShift(js, toknext, CountState(pos, toksuper, count));
        r := ParseByte(js, null, cap);
        if r < 0 {
          return;
        }
        count := count + r;
        pos := pos + 1;
      }
      r := count;
    }

    /** The loop of jsmn_parse over a token array. */
    method ParseTokens(js: Bytes, tokens: array<Token>, cap: nat) returns (r: int)
      requires Fits(tokens, cap)
      modifies this, tokens
      ensures toknext >= old(toknext) && Fits(tokens, cap)
      ensures var (result, s) := Run(links, js, cap, old(Abs(tokens)));
        r == Code(result) && Abs(tokens) == s
      ensures tokens[toknext..] == old(tokens[..])[toknext..]
    {
      var count := toknext;
      ghost var goal := Run(links, js, cap, Abs(tokens));
      while Active(js, pos)
        invariant count == toknext >= old(toknext) && Fits(tokens, cap)
        invariant Run(links, js, cap, Abs(tokens)) == goal
        invariant tokens[toknext..] == old(tokens[..])[toknext..]
        decreases |js| - pos
      {
        ghost var s, all := Abs(tokens), tokens[..];
        r := ParseByte(js, tokens, cap);
        TailKept(old(tokens[..]), all, tokens[..], |s.toks|, toknext);
        if r < 0 {
          assert Abs(tokens) == s;
          return;
        }
        count := count + r;
        pos := pos + 1;
        assert Step(links, js, cap, s) == Next(Abs(tokens));
      }
      var i := FindOpen(tokens, toknext);
      r := if i >= 0 then PART else count;
    }
  }

  lemma TailKept(first: seq<Token>, second: seq<Token>, third: seq<Token>, m: nat, n: nat)
    requires |first| == |second| == |third| && m <= n <= |first|
    requires second[m..] == first[m..] && third[n..] == second[n..]
    ensures third[n..] == first[n..]
  {
    assert first[n..] == first[m..][n - m..] && second[n..] == second[m..][n - m..];
  }

  /** A counting step adds to the count without looking at it. */
  lemma CountShift(js: Bytes, toknext: nat, s: CountState)
    requires Active(js, s.pos)
    ensures match CountStep(js, toknext, s.(count := 0))
      case CountStop(e) => CountStep(js, toknext, s) == CountStop(e)
      case CountNext(t) => CountStep(js, toknext, s) == CountNext(t.(count := s.count + t.count))
  {
  }

  /** LastOpen looks at nothing from its bound on. */
  lemma LastOpenPrefix(toks: seq<Token>, n: nat, prefix: seq<Token>)
    requires n <= |toks| && n <= |prefix| && toks[..n] == prefix[..n]
    ensures LastOpen(toks, n) == LastOpen(prefix, n)
  {
    if n > 0 {
      assert toks[n - 1] == toks[..n][n - 1] == prefix[n - 1];
      assert toks[..n - 1] == toks[..n][..n - 1] == prefix[..n - 1];
      LastOpenPrefix(toks, n - 1, prefix);
    }
  }
}
