/** JSON that has been cut off: jsmn asks for more input at every place inside the document. */
module JsmnPrefix {
  import opened Ascii
  import opened JsmnSpec
  import opened JsmnReading
  import L = JsmnLinks
  import J = JsonText

  /**
   * Reading the first `n` bytes of a text inside brackets goes on from `pos` at `end`, or is unfinished if the text is
   * cut off before.
   */
  predicate Passes(full: Bytes, n: nat, pos: nat, end: nat, open: seq<Kind>)
    requires n <= |full|
  {
    Reading(full[..n], pos, open) == if end <= n then Reading(full[..n], end, open) else Unfinished
  }

  lemma PassesOn(full: Bytes, n: nat, a: nat, b: nat, c: nat, open: seq<Kind>)
    requires n <= |full| && a <= b <= c && Passes(full, n, a, b, open) && Passes(full, n, b, c, open)
    ensures Passes(full, n, a, c, open)
  {
  }

  /** Behind the cut there is nothing. */
  lemma BehindCut(full: Bytes, n: nat, pos: nat, open: seq<Kind>)
    requires n <= |full| && n <= pos && open != []
    ensures Reading(full[..n], pos, open) == Unfinished
  {
  }

  lemma {:induction false} BlankPasses(full: Bytes, n: nat, pos: nat, ws: Bytes, open: seq<Kind>)
    requires n <= |full| && At(full, pos, ws) && AllBlank(ws) && open != []
    ensures Passes(full, n, pos, pos + |ws|, open)
    decreases |ws|
  {
    hide BodyFrom, PrimitiveEnd;
    if ws != [] {
      assert ws == [ws[0]] + ws[1..];
      AtHead(full, pos, ws[0], ws[1..]);
      BlankPasses(full, n, pos + 1, ws[1..], open);
      if n <= pos {
        BehindCut(full, n, pos, open);
      } else {
        assert full[..n][pos] == full[pos];
      }
    }
  }

  /** A comma or colon. */
  lemma MarkPasses(full: Bytes, n: nat, pos: nat, open: seq<Kind>)
    requires n <= |full| && pos < |full| && (full[pos] == COMMA || full[pos] == COLON) && open != []
    ensures Passes(full, n, pos, pos + 1, open)
  {
    hide BodyFrom, PrimitiveEnd;
    if n <= pos {
      BehindCut(full, n, pos, open);
    } else {
      assert full[..n][pos] == full[pos];
    }
  }

  lemma {:induction false} BodyCut(full: Bytes, n: nat, at: nat, raw: Bytes)
    requires n <= |full| && At(full, at, raw + [QUOTE]) && J.BodyOk(raw)
    ensures BodyFrom(full[..n], at) == if at + |raw| < n then Closes(at + |raw|) else CutOff
    decreases |raw|
  {
    var s, js := raw + [QUOTE], full[..n];
    AtIndex(full, at, s);
    assert full[at + 0] == s[0];
    if at < n {
      assert js[at] == full[at];
      if raw != [] {
        if raw[0] != BACKSLASH {
          AtSuffix(full, at, s, 1);
          assert s[1..] == raw[1..] + [QUOTE];
          BodyCut(full, n, at + 1, raw[1..]);
        } else {
          assert full[at + 1] == s[1] && s[1] == raw[1];
          EscapeCut(full, n, at, raw);
        }
      }
    }
  }

  lemma {:induction false} EscapeCut(full: Bytes, n: nat, at: nat, raw: Bytes)
    requires at < n <= |full| && At(full, at, raw + [QUOTE]) && J.BodyOk(raw) && raw != [] && raw[0] == BACKSLASH
    requires at + 1 < |full| && full[at] == raw[0] && full[at + 1] == raw[1]
    ensures BodyFrom(full[..n], at) == if at + |raw| < n then Closes(at + |raw|) else CutOff
    decreases |raw|, 0
  {
    hide HexRun, At;
    var s, js := raw + [QUOTE], full[..n];
    assert js[at] == full[at];
    if at + 1 < n {
      assert js[at + 1] == full[at + 1];
      var k := if IsShortEscape(raw[1]) then 2 else 6;
      AtSuffix(full, at, s, k);
      assert s[k..] == raw[k..] + [QUOTE];
      BodyCut(full, n, at + k, raw[k..]);
      if k == 6 {
        HexCut(full, n, at, raw);
      }
    }
  }

  /** The digits of an escape, as far as they are there. */
  lemma HexCut(full: Bytes, n: nat, at: nat, raw: Bytes)
    requires at + 1 < n <= |full| && At(full, at, raw + [QUOTE]) && |raw| >= 6
      && forall i :: 2 <= i < 6 ==> IsHex(raw[i])
    ensures var k := HexRun(full[..n], at + 2, 4);
      if at + 6 <= n then k == 4 else !Active(full[..n], at + 2 + k) && BodyFrom(full[..n], at + 2 + k) == CutOff
  {
    var s, js := raw + [QUOTE], full[..n];
    AtIndex(full, at, s);
    forall i | at + 2 <= i < at + 6 && i < n ensures IsHex(js[i]) {
      assert full[at + (i - at)] == s[i - at] == raw[i - at];
    }
    HexTo(js, at + 2, 4);
  }

  lemma {:induction false} HexTo(js: Bytes, pos: nat, n: nat)
    requires pos <= |js| && forall i :: pos <= i < pos + n && i < |js| ==> IsHex(js[i])
    ensures HexRun(js, pos, n) == if pos + n <= |js| then n else |js| - pos
    decreases n
  {
    if n > 0 && pos < |js| {
      HexTo(js, pos + 1, n - 1);
    }
  }

  lemma StringPasses(full: Bytes, n: nat, pos: nat, raw: Bytes, open: seq<Kind>)
    requires n <= |full| && At(full, pos, J.Quoted(raw)) && J.BodyOk(raw) && (open != [] || pos < n)
    ensures Passes(full, n, pos, pos + |raw| + 2, open)
  {
    hide BodyFrom, PrimitiveEnd;
    assert J.Quoted(raw) == [QUOTE] + (raw + [QUOTE]);
    AtHead(full, pos, QUOTE, raw + [QUOTE]);
    BodyCut(full, n, pos + 1, raw);
    if n <= pos {
      BehindCut(full, n, pos, open);
    } else {
      assert full[..n][pos] == full[pos];
    }
  }

  lemma {:induction false} LitEnd(full: Bytes, n: nat, pos: nat, t: Bytes)
    requires pos <= n <= |full| && At(full, pos, t) && (forall i :: 0 <= i < |t| ==> J.LitByte(t[i]))
    requires !Active(full, pos + |t|) || IsDelimiter(full[pos + |t|])
    ensures PrimitiveEnd(full[..n], pos) == if pos + |t| <= n then pos + |t| else n
    decreases |t|
  {
    if t != [] && pos < n {
      assert t == [t[0]] + t[1..];
      AtHead(full, pos, t[0], t[1..]);
      assert full[..n][pos] == t[0];
      LitEnd(full, n, pos + 1, t[1..]);
    }
  }

  lemma LitPasses(full: Bytes, n: nat, pos: nat, t: Bytes, open: seq<Kind>)
    requires n <= |full| && At(full, pos, t) && J.LitOk(t) && open != []
    requires !Active(full, pos + |t|) || IsDelimiter(full[pos + |t|])
    ensures Passes(full, n, pos, pos + |t|, open)
  {
    hide PrimitiveEnd, BodyFrom;
    if n <= pos {
      BehindCut(full, n, pos, open);
    } else {
      var js := full[..n];
      AtIndex(full, pos, t);
      LitEnd(full, n, pos, t);
      assert js[pos] == full[pos + 0] == t[0] && J.LitByte(t[0]);
      var e := PrimitiveEnd(js, pos);
      forall i | 0 <= i < |js[pos..e]| ensures 32 <= js[pos..e][i] < 127 {
        assert js[pos..e][i] == full[pos + i] == t[i];
      }
      if n < pos + |t| {
        BehindCut(full, n, n, open);
      }
    }
  }

  /** An opening bracket. */
  lemma Opens(full: Bytes, n: nat, pos: nat, kind: Kind, open: seq<Kind>)
    requires pos < n <= |full| && ((kind == Object && full[pos] == LBRACE) || (kind == Array && full[pos] == LBRACKET))
    ensures Reading(full[..n], pos, open) == Reading(full[..n], pos + 1, open + [kind])
  {
    hide BodyFrom, PrimitiveEnd;
    assert full[..n][pos] == full[pos];
  }

  /** A container, once what stands between its brackets has been passed. */
  lemma ContainerPasses(full: Bytes, n: nat, pos: nat, last: nat, kind: Kind, open: seq<Kind>)
    requires n <= |full| && pos < last < |full| && (open != [] || pos < n)
    requires (kind == Object && full[pos] == LBRACE && full[last] == RBRACE)
      || (kind == Array && full[pos] == LBRACKET && full[last] == RBRACKET)
    requires Passes(full, n, pos + 1, last, open + [kind])
    ensures Passes(full, n, pos, last + 1, open)
  {
    hide BodyFrom, PrimitiveEnd;
    if n <= pos {
      BehindCut(full, n, pos, open);
    } else {
      Opens(full, n, pos, kind, open);
      if last < n {
        assert full[..n][last] == full[last];
        assert (open + [kind])[..|open|] == open;
      } else if last == n {
        BehindCut(full, n, last, open + [kind]);
      }
    }
  }

  /** A value is passed, or cut off inside. */
  lemma {:induction false} ValuePasses(full: Bytes, n: nat, pos: nat, v: J.Value, open: seq<Kind>)
    requires n <= |full| && At(full, pos, J.Text(v)) && J.ValueOk(v) && (open != [] || (pos < n && !v.Lit?))
    requires !Active(full, pos + |J.Text(v)|) || IsDelimiter(full[pos + |J.Text(v)|])
    ensures Passes(full, n, pos, pos + |J.Text(v)|, open)
    decreases v, 1
  {
    hide Passes, At;
    match v
    case Lit(t) =>
      LitPasses(full, n, pos, t, open);
    case Str(raw) =>
      StringPasses(full, n, pos, raw, open);
    case Arr(lead, es) =>
      ArrayPasses(full, n, pos, v, open);
    case Obj(lead, ms) =>
      ObjectPasses(full, n, pos, v, open);
  }

  lemma {:induction false} ArrayPasses(full: Bytes, n: nat, pos: nat, v: J.Value, open: seq<Kind>)
    requires v.Arr? && n <= |full| && At(full, pos, J.Text(v)) && J.ValueOk(v) && (open != [] || pos < n)
    ensures Passes(full, n, pos, pos + |J.Text(v)|, open)
    decreases v, 0
  {
    hide Passes, At, Reading;
    J.ArrayAt(full, v, pos);
    var inside, first := open + [Array], pos + 1 + |v.lead|;
    BlankPasses(full, n, pos + 1, v.lead, inside);
    ElemsPass(full, n, first, v.elems, inside);
    var last := first + |J.ElemsText(v.elems)|;
    PassesOn(full, n, pos + 1, first, last, inside);
    AtSplit(full, first, J.ElemsText(v.elems), [RBRACKET]);
    AtByte(full, last, RBRACKET);
    ContainerPasses(full, n, pos, last, Array, open);
  }

  lemma AtByte(full: Bytes, pos: nat, b: Byte)
    requires At(full, pos, [b])
    ensures pos < |full| && full[pos] == b
  {
  }

  /** What follows a value of a container ends a primitive. */
  lemma EndsAt(full: Bytes, pos: nat, ws: Bytes, b: Byte, rest: Bytes)
    requires At(full, pos, ws + ([b] + rest)) && AllBlank(ws) && (b == COMMA || b == RBRACE || b == RBRACKET)
    ensures pos < |full| && IsDelimiter(full[pos])
  {
    var all := ws + ([b] + rest);
    AtIndex(full, pos, all);
    assert full[pos + 0] == all[0];
  }

  /** A value in a container with the white space behind it. */
  lemma {:induction false} EntryPasses(full: Bytes, n: nat, pos: nat, v: J.Value, post: Bytes, rest: Bytes,
      open: seq<Kind>)
    requires n <= |full| && At(full, pos, J.Text(v) + (post + rest)) && J.ValueOk(v) && AllBlank(post) && open != []
    requires rest != [] && (rest[0] == COMMA || rest[0] == RBRACE || rest[0] == RBRACKET)
    ensures Passes(full, n, pos, pos + |J.Text(v)| + |post|, open) && At(full, pos + |J.Text(v)| + |post|, rest)
    decreases v, 2
  {
    hide Passes, At, Reading, J.Text, J.ValueOk;
    var at := pos + |J.Text(v)|;
    AtSplit(full, pos, J.Text(v), post + rest);
    assert rest == [rest[0]] + rest[1..];
    EndsAt(full, at, post, rest[0], rest[1..]);
    ValuePasses(full, n, pos, v, open);
    AtSplit(full, at, post, rest);
    BlankPasses(full, n, at, post, open);
    PassesOn(full, n, pos, at, at + |post|, open);
  }

  /** A comma with the white space behind it. */
  lemma CommaPasses(full: Bytes, n: nat, pos: nat, sep: Bytes, rest: Bytes, open: seq<Kind>)
    requires n <= |full| && At(full, pos, [COMMA] + (sep + rest)) && AllBlank(sep) && open != []
    ensures Passes(full, n, pos, pos + 1 + |sep|, open) && At(full, pos + 1 + |sep|, rest)
  {
    hide Passes, At, Reading;
    AtHead(full, pos, COMMA, sep + rest);
    MarkPasses(full, n, pos, open);
    AtSplit(full, pos + 1, sep, rest);
    BlankPasses(full, n, pos + 1, sep, open);
    PassesOn(full, n, pos, pos + 1, pos + 1 + |sep|, open);
  }

  lemma {:induction false} ElemsPass(full: Bytes, n: nat, pos: nat, es: J.Elems, open: seq<Kind>)
    requires n <= |full| && At(full, pos, J.ElemsText(es) + [RBRACKET]) && J.ElemsOk(es) && open != []
    ensures Passes(full, n, pos, pos + |J.ElemsText(es)|, open)
    decreases es, 3
  {
    hide Passes, At, Reading, J.Text, J.ElemsText, J.ValueOk;
    if es.NoElems? {
      NoElemsText();
      PassesNothing(full, n, pos, open);
    } else {
      var v, tail := J.Text(es.v), J.ElemsText(es.rest) + [RBRACKET];
      var rest := if es.rest.NoElems? then [RBRACKET] else [COMMA] + (es.sep + tail);
      ElemsParts(es, v, rest);
      var next := pos + |v| + |es.post|;
      EntryPasses(full, n, pos, es.v, es.post, rest, open);
      if es.rest.Elem? {
        CommaPasses(full, n, next, es.sep, tail, open);
        var later := next + 1 + |es.sep|;
        PassesOn(full, n, pos, next, later, open);
        ElemsPass(full, n, later, es.rest, open);
        PassesOn(full, n, pos, later, later + |J.ElemsText(es.rest)|, open);
      }
    }
  }

  lemma NoElemsText()
    ensures J.ElemsText(J.NoElems) == [] && J.MembersText(J.NoMembers) == []
  {
  }

  lemma PassesNothing(full: Bytes, n: nat, pos: nat, open: seq<Kind>)
    requires n <= |full| && open != []
    ensures Passes(full, n, pos, pos, open)
  {
    if n <= pos {
      BehindCut(full, n, pos, open);
    }
  }

  lemma ElemsParts(es: J.Elems, v: Bytes, rest: Bytes)
    requires es.Elem? && v == J.Text(es.v)
    requires rest == if es.rest.NoElems? then [RBRACKET] else [COMMA] + (es.sep + (J.ElemsText(es.rest) + [RBRACKET]))
    ensures J.ElemsText(es) + [RBRACKET] == v + (es.post + rest) && rest == [rest[0]] + rest[1..]
    ensures |J.ElemsText(es)|
      == |v| + |es.post| + if es.rest.NoElems? then 0 else 1 + |es.sep| + |J.ElemsText(es.rest)|
  {
    hide J.Text;
  }

  lemma {:induction false} ObjectPasses(full: Bytes, n: nat, pos: nat, v: J.Value, open: seq<Kind>)
    requires v.Obj? && n <= |full| && At(full, pos, J.Text(v)) && J.ValueOk(v) && (open != [] || pos < n)
    ensures Passes(full, n, pos, pos + |J.Text(v)|, open)
    decreases v, 0
  {
    hide Passes, At, Reading;
    J.ObjectAt(full, v, pos);
    var inside, first := open + [Object], pos + 1 + |v.lead|;
    BlankPasses(full, n, pos + 1, v.lead, inside);
    MembersPass(full, n, first, v.members, inside);
    var last := first + |J.MembersText(v.members)|;
    PassesOn(full, n, pos + 1, first, last, inside);
    AtSplit(full, first, J.MembersText(v.members), [RBRACE]);
    AtByte(full, last, RBRACE);
    ContainerPasses(full, n, pos, last, Object, open);
  }

  /** The key, the colon and the white space around it. */
  lemma KeyPasses(full: Bytes, n: nat, pos: nat, key: Bytes, before: Bytes, behind: Bytes, tail: Bytes, open: seq<Kind>)
    requires n <= |full| && open != [] && J.BodyOk(key) && AllBlank(before) && AllBlank(behind)
    requires At(full, pos, J.Quoted(key) + (before + ([COLON] + (behind + tail))))
    ensures var value := pos + |key| + 2 + |before| + 1 + |behind|;
      Passes(full, n, pos, value, open) && At(full, value, tail)
  {
    hide Passes, At, Reading;
    var a := pos + |key| + 2;
    AtSplit(full, pos, J.Quoted(key), before + ([COLON] + (behind + tail)));
    StringPasses(full, n, pos, key, open);
    AtSplit(full, a, before, [COLON] + (behind + tail));
    BlankPasses(full, n, a, before, open);
    var b := a + |before|;
    PassesOn(full, n, pos, a, b, open);
    AtHead(full, b, COLON, behind + tail);
    MarkPasses(full, n, b, open);
    PassesOn(full, n, pos, b, b + 1, open);
    AtSplit(full, b + 1, behind, tail);
    BlankPasses(full, n, b + 1, behind, open);
    PassesOn(full, n, pos, b + 1, b + 1 + |behind|, open);
  }

  lemma MembersParts(ms: J.Members, v: Bytes, rest: Bytes)
    requires ms.Member? && v == J.Text(ms.v)
    requires rest == if ms.rest.NoMembers? then [RBRACE] else [COMMA] + (ms.sep + (J.MembersText(ms.rest) + [RBRACE]))
    ensures J.MembersText(ms) + [RBRACE]
      == J.Quoted(ms.key) + (ms.preColon + ([COLON] + (ms.postColon + (v + (ms.post + rest)))))
    ensures rest == [rest[0]] + rest[1..]
    ensures |J.MembersText(ms)| == |ms.key| + 2 + |ms.preColon| + 1 + |ms.postColon| + |v| + |ms.post|
      + if ms.rest.NoMembers? then 0 else 1 + |ms.sep| + |J.MembersText(ms.rest)|
  {
    hide J.Text;
  }

  lemma {:induction false} MembersPass(full: Bytes, n: nat, pos: nat, ms: J.Members, open: seq<Kind>)
    requires n <= |full| && At(full, pos, J.MembersText(ms) + [RBRACE]) && J.MembersOk(ms) && open != []
    ensures Passes(full, n, pos, pos + |J.MembersText(ms)|, open)
    decreases ms, 3
  {
    hide Passes, At, Reading, J.Text, J.MembersText, J.ValueOk, J.Quoted;
    if ms.NoMembers? {
      NoElemsText();
      PassesNothing(full, n, pos, open);
    } else {
      var v, tail := J.Text(ms.v), J.MembersText(ms.rest) + [RBRACE];
      var rest := if ms.rest.NoMembers? then [RBRACE] else [COMMA] + (ms.sep + tail);
      MembersParts(ms, v, rest);
      var value := pos + |ms.key| + 2 + |ms.preColon| + 1 + |ms.postColon|;
      var next := value + |v| + |ms.post|;
      KeyPasses(full, n, pos, ms.key, ms.preColon, ms.postColon, v + (ms.post + rest), open);
      EntryPasses(full, n, value, ms.v, ms.post, rest, open);
      PassesOn(full, n, pos, value, next, open);
      if ms.rest.Member? {
        CommaPasses(full, n, next, ms.sep, tail, open);
        var later := next + 1 + |ms.sep|;
        PassesOn(full, n, pos, next, later, open);
        MembersPass(full, n, later, ms.rest, open);
        PassesOn(full, n, pos, later, later + |J.MembersText(ms.rest)|, open);
      }
    }
  }

  /** White space in front of a document. */
  lemma {:induction false} LeadPassed(js: Bytes, pos: nat, ws: Bytes)
    requires At(js, pos, ws) && AllBlank(ws)
    ensures Reading(js, pos, []) == Reading(js, pos + |ws|, [])
    decreases |ws|
  {
    hide BodyFrom, PrimitiveEnd;
    if ws != [] {
      assert ws == [ws[0]] + ws[1..];
      AtHead(js, pos, ws[0], ws[1..]);
      LeadPassed(js, pos + 1, ws[1..]);
    }
  }

  lemma {:induction false} AtCut(full: Bytes, n: nat, at: nat, piece: Bytes)
    requires At(full, at, piece) && at + |piece| <= n <= |full|
    ensures At(full[..n], at, piece)
    decreases |piece|
  {
    if piece != [] {
      AtCut(full, n, at + 1, piece[1..]);
    }
  }

  /** A document of JSON that is cut off inside its root, which is a container or a string, is unfinished. */
  lemma CutUnfinished(d: J.Doc, n: nat)
    requires J.DocOk(d) && !d.v.Lit? && |d.before| < n < |d.before| + |J.Text(d.v)|
    ensures n <= |J.DocText(d)| && Reading(J.DocText(d)[..n], 0, []) == Unfinished
  {
    hide Reading, J.Text;
    var full, at := J.DocText(d), |d.before|;
    AtSelf(full);
    AtSplit(full, 0, d.before, J.Text(d.v) + d.after);
    AtSplit(full, at, J.Text(d.v), d.after);
    DocEnds(full, at + |J.Text(d.v)|, d.after);
    ValuePasses(full, n, at, d.v, []);
    AtCut(full, n, 0, d.before);
    LeadPassed(full[..n], 0, d.before);
  }

  lemma DocEnds(full: Bytes, at: nat, after: Bytes)
    requires At(full, at, after) && AllBlank(after) && at + |after| == |full|
    ensures !Active(full, at) || IsDelimiter(full[at])
  {
    if after != [] {
      assert full[at] == after[0];
    }
  }

  /**
   * For every JSON document whose root is a container or a string, and every cut inside the root, both builds return
   * JSMN_ERROR_PART, with any number of tokens that is large enough.
   */
  lemma CutIsPart(links: bool, d: J.Doc, n: nat, cap: nat)
    requires J.DocOk(d) && !d.v.Lit? && |d.before| < n < |d.before| + |J.Text(d.v)| && cap >= n
    ensures n <= |J.DocText(d)| && Code(Run(links, J.DocText(d)[..n], cap, INIT).0) == -3
  {
    hide Run, Reading, J.Text;
    CutUnfinished(d, n);
    var js := J.DocText(d)[..n];
    ResultByText(js, cap);
    L.BuildsAgree(js, cap);
  }
}
