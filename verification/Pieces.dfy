/**
 * Text as a sequence of pieces: tokens, white space, block comments and line comments. Serialised text,
 * compact or pretty, is of this kind; so is the same text with comments put between its tokens.
 */
module Pieces {
  import opened Text
  import opened Decimal
  import opened Strings
  import opened Values
  import opened Parser
  import opened Serializer
  import opened Layout
  import opened RoundTrip

  datatype Piece = Tok(b: Bytes) | Gap(b: Bytes) | Note(b: Bytes) | Line(b: Bytes)

  const OPEN_NOTE: Bytes := [SLASH, STAR]
  const CLOSE_NOTE: Bytes := [STAR, SLASH]
  const OPEN_LINE: Bytes := [SLASH, SLASH]
  const CLOSE_LINE: Bytes := [NEWLINE]

  function RenderOne(p: Piece): Bytes {
    match p
    case Note(b) => OPEN_NOTE + b + CLOSE_NOTE
    case Line(b) => OPEN_LINE + b + CLOSE_LINE
    case _ => p.b
  }

  function Render(ps: seq<Piece>): Bytes {
    if ps == [] then [] else RenderOne(ps[0]) + Render(ps[1..])
  }

  function TokOne(p: Piece): seq<Bytes> {
    if p.Tok? then [p.b] else []
  }

  function Toks(ps: seq<Piece>): seq<Bytes> {
    if ps == [] then [] else TokOne(ps[0]) + Toks(ps[1..])
  }

  /** A byte that means nothing to the comment blanker and is no white space. */
  predicate Solid(b: byte) {
    !IsSpace(b) && b != NUL && b != QUOTE && b != BACKSLASH && b != SLASH
  }

  /** A token: a literal, or bytes without white space, quotes and slashes. */
  ghost predicate Lexeme(tok: Bytes) {
    || (exists s: Bytes :: NUL !in s && tok == Quote(s))
    || (tok != [] && forall k :: 0 <= k < |tok| ==> Solid(tok[k]))
  }

  ghost predicate Blank(s: Bytes) {
    forall k :: 0 <= k < |s| ==> IsSpace(s[k])
  }

  /** `pat` stands nowhere in front of position `n`. */
  ghost predicate NotBefore(s: Bytes, pat: Bytes, n: nat) {
    forall j :: 0 <= j < n ==> !StandsAt(s, j, pat)
  }

  ghost predicate Ok(p: Piece) {
    match p
    case Tok(b) => Lexeme(b)
    case Gap(b) => Blank(b)
    case Note(b) => NUL !in b && NotBefore(b + CLOSE_NOTE, CLOSE_NOTE, |b|)
    case Line(b) => NUL !in b && NEWLINE !in b
  }

  ghost predicate AllOk(ps: seq<Piece>) {
    ps == [] || (Ok(ps[0]) && AllOk(ps[1..]))
  }

  predicate Bare(p: Piece) {
    p.Tok? || p.Gap?
  }

  predicate NoNotes(ps: seq<Piece>) {
    ps == [] || (Bare(ps[0]) && NoNotes(ps[1..]))
  }

  lemma {:induction false} PiecesConcat(p: seq<Piece>, q: seq<Piece>)
    ensures Render(p + q) == Render(p) + Render(q) && Toks(p + q) == Toks(p) + Toks(q)
    ensures AllOk(p + q) <==> AllOk(p) && AllOk(q)
    ensures NoNotes(p + q) <==> NoNotes(p) && NoNotes(q)
  {
    if p == [] {
      assert p + q == q;
    } else {
      assert (p + q)[1..] == p[1..] + q && (p + q)[0] == p[0];
      PiecesConcat(p[1..], q);
      Assoc(RenderOne(p[0]), Render(p[1..]), Render(q));
      Assoc(TokOne(p[0]), Toks(p[1..]), Toks(q));
    }
  }

  /** `text` is the tokens `toks` with white space between them. */
  ghost predicate Spaced(text: Bytes, toks: seq<Bytes>) {
    exists ps: seq<Piece> :: AllOk(ps) && NoNotes(ps) && Render(ps) == text && Toks(ps) == toks
  }

  lemma Join(a: Bytes, x: seq<Bytes>, b: Bytes, y: seq<Bytes>)
    requires Spaced(a, x) && Spaced(b, y)
    ensures Spaced(a + b, x + y)
  {
    var p: seq<Piece> :| AllOk(p) && NoNotes(p) && Render(p) == a && Toks(p) == x;
    var q: seq<Piece> :| AllOk(q) && NoNotes(q) && Render(q) == b && Toks(q) == y;
    PiecesConcat(p, q);
  }

  lemma SpacedOne(p: Piece)
    requires Ok(p) && Bare(p)
    ensures Spaced(p.b, TokOne(p))
  {
    var ps := [p];
    assert ps[1..] == [] && AllOk([]) && NoNotes([]);
    assert Render(ps) == p.b + [] == p.b;
    assert Toks(ps) == TokOne(p) + [] == TokOne(p);
    assert AllOk(ps) && NoNotes(ps);
  }

  // ----- the serialiser writes spaced tokens -----

  lemma SpacedToken(tok: Bytes)
    requires Lexeme(tok)
    ensures Spaced(tok, [tok])
  {
    SpacedOne(Tok(tok));
  }

  lemma SpacedWhen(c: bool, s: Bytes)
    requires Blank(s)
    ensures Spaced(When(c, s), [])
  {
    SpacedOne(Gap(When(c, s)));
  }

  lemma {:induction false} IndentBlank(level: nat)
    ensures Blank(Indent(level))
  {
    if level > 0 {
      IndentBlank(level - 1);
    }
  }

  lemma IntLexeme(n: int)
    ensures Lexeme(PrintInt(n))
  {
    PrintNatDigits(if n < 0 then -n else n);
    assert forall k :: 0 <= k < |PrintInt(n)| ==> PrintInt(n)[k] == MINUS || IsDigit(PrintInt(n)[k]);
  }

  lemma {:induction false} EmitSpaced(v: Value, level: nat, pretty: bool, depth: nat)
    requires Shaped(v, depth)
    ensures Spaced(Emit(v, level, pretty), Tokens(v))
    decreases v, 4
  {
    match v
    case Null => SpacedToken(NULL_TOKEN);
    case Bool(b) => SpacedToken(if b then TRUE_TOKEN else FALSE_TOKEN);
    case Num(n) => IntLexeme(n); SpacedToken(PrintInt(n));
    case Str(s) => SpacedToken(Quote(s));
    case Arr(items, _) =>
      ItemsSpaced(items, 0, level, pretty, depth + 1);
      ContainerSpaced(LBRACKET, EmitItems(items, 0, level, pretty), ItemTokens(items, 0), RBRACKET,
              items != [] && pretty, level);
    case Obj(members, _) =>
      MembersSpaced(members, 0, level, pretty, depth + 1);
      ContainerSpaced(LBRACE, EmitMembers(members, 0, level, pretty), MemberTokens(members, 0), RBRACE,
              members != [] && pretty, level);
  }

  lemma JoinGap(a: Bytes, x: seq<Bytes>, b: Bytes)
    requires Spaced(a, x) && Spaced(b, [])
    ensures Spaced(a + b, x)
  {
    Join(a, x, b, []);
    assert x + [] == x;
  }

  lemma ContainerSpaced(open: byte, entries: Bytes, toks: seq<Bytes>, close: byte, spread: bool, level: nat)
    requires Spaced(entries, toks) && Solid(open) && Solid(close)
    ensures Spaced(Container(open, entries, close, spread, level), [[open]] + toks + [[close]])
  {
    var nl, ind := When(spread, [NEWLINE]), When(spread, Indent(level));
    IndentBlank(level);
    SpacedToken([open]);
    SpacedToken([close]);
    SpacedWhen(spread, [NEWLINE]);
    SpacedWhen(spread, Indent(level));
    JoinGap([open], [[open]], nl);
    Join([open] + nl, [[open]], entries, toks);
    JoinGap([open] + nl + entries, [[open]] + toks, ind);
    Join([open] + nl + entries + ind, [[open]] + toks, [close], [[close]]);
  }

  lemma EntryEndSpaced(last: bool, pretty: bool)
    ensures Spaced(EntryEnd(last, pretty), CommaTokens(last))
  {
    SpacedToken([COMMA]);
    SpacedOne(Gap([]));
    SpacedWhen(pretty, [NEWLINE]);
    JoinGap(When(!last, [COMMA]), CommaTokens(last), When(pretty, [NEWLINE]));
  }

  lemma {:induction false} ItemsSpaced(items: seq<Value>, k: nat, level: nat, pretty: bool, depth: nat)
    requires k <= |items| && forall j :: 0 <= j < |items| ==> Shaped(items[j], depth)
    ensures Spaced(EmitItems(items, k, level, pretty), ItemTokens(items, k))
    decreases items, 0, |items| - k
  {
    if k == |items| {
      SpacedOne(Gap([]));
    } else {
      var last := k == |items| - 1;
      EmitSpaced(items[k], level + 1, pretty, depth);
      ValueEntrySpaced(When(pretty, Indent(level + 1)), [], items[k], level + 1, pretty, last);
      ItemsSpaced(items, k + 1, level, pretty, depth);
      assert [] + Tokens(items[k]) == Tokens(items[k]);
      Join(EmitItem(items[k], level + 1, pretty, last), Tokens(items[k]) + CommaTokens(last),
           EmitItems(items, k + 1, level, pretty), ItemTokens(items, k + 1));
    }
  }

  /** What stands in front of a value, the value, and the end of the entry. */
  lemma ValueEntrySpaced(front: Bytes, toks: seq<Bytes>, v: Value, level: nat, pretty: bool, last: bool)
    requires Spaced(Emit(v, level, pretty), Tokens(v))
    requires Spaced(front, toks) || (toks == [] && front == When(pretty, Indent(level)))
    ensures Spaced(front + Emit(v, level, pretty) + EntryEnd(last, pretty), toks + Tokens(v) + CommaTokens(last))
  {
    IndentBlank(level);
    SpacedWhen(pretty, Indent(level));
    EntryEndSpaced(last, pretty);
    Join(front, toks, Emit(v, level, pretty), Tokens(v));
    Join(front + Emit(v, level, pretty), toks + Tokens(v), EntryEnd(last, pretty), CommaTokens(last));
  }

  lemma {:induction false} MembersSpaced(members: seq<Member>, k: nat, level: nat, pretty: bool, depth: nat)
    requires k <= |members| && Distinct(members)
    requires forall j :: 0 <= j < |members| ==> NUL !in members[j].name && Shaped(members[j].value, depth)
    ensures Spaced(EmitMembers(members, k, level, pretty), MemberTokens(members, k))
    decreases members, 0, |members| - k
  {
    if k == |members| {
      SpacedOne(Gap([]));
    } else {
      var last, name, v := k == |members| - 1, members[k].name, members[k].value;
      FindDistinct(members, k);
      EmitSpaced(v, level + 1, pretty, depth);
      KeySpaced(name, level + 1, pretty);
      ValueEntrySpaced(KeyText(name, level + 1, pretty), [Quote(name), [COLON]], v, level + 1, pretty, last);
      MembersSpaced(members, k + 1, level, pretty, depth);
      Join(EmitMember(name, v, level + 1, pretty, last), [Quote(name), [COLON]] + Tokens(v) + CommaTokens(last),
           EmitMembers(members, k + 1, level, pretty), MemberTokens(members, k + 1));
    }
  }

  function KeyText(name: Bytes, level: nat, pretty: bool): Bytes {
    When(pretty, Indent(level)) + Quote(name) + [COLON] + When(pretty, [SPACE])
  }

  lemma KeySpaced(name: Bytes, level: nat, pretty: bool)
    requires NUL !in name
    ensures Spaced(KeyText(name, level, pretty), [Quote(name), [COLON]])
  {
    var ind := When(pretty, Indent(level));
    IndentBlank(level);
    SpacedWhen(pretty, Indent(level));
    SpacedToken(Quote(name));
    SpacedToken([COLON]);
    SpacedWhen(pretty, [SPACE]);
    Join(ind, [], Quote(name), [Quote(name)]);
    assert [] + [Quote(name)] == [Quote(name)] && [Quote(name)] + [[COLON]] == [Quote(name), [COLON]];
    Join(ind + Quote(name), [Quote(name)], [COLON], [[COLON]]);
    JoinGap(ind + Quote(name) + [COLON], [Quote(name), [COLON]], When(pretty, [SPACE]));
  }

  // ----- what the parser finds in spaced tokens -----

  lemma LexemeHead(tok: Bytes)
    requires Lexeme(tok)
    ensures tok != [] && !IsSpace(tok[0])
  {}

  lemma AfterTok(t: Bytes, i: nat, b: Bytes, toks: seq<Bytes>, n: nat)
    requires StandsAt(t, i, b) && Lexeme(b) && n == i + |b|
    ensures After(t, i, [b] + toks) == After(t, n, toks)
  {
    LexemeHead(b);
    PrefixHead(t, i, b);
    assert SkipSpace(t, i) == i;
    AfterCons(t, i, b, toks, [b] + toks);
  }

  lemma AfterGap(t: Bytes, i: nat, b: Bytes, toks: seq<Bytes>, n: nat)
    requires StandsAt(t, i, b) && Blank(b) && n == i + |b| && After(t, n, toks).Some?
    ensures After(t, i, toks).Some?
  {
    forall k | i <= k < i + |b| ensures IsSpace(t[k]) {
      assert t[k] == t[i..i + |b|][k - i];
    }
    SkipSpaceOver(t, i, i + |b|);
  }

  lemma PiecesCons(ps: seq<Piece>)
    requires ps != [] && AllOk(ps) && NoNotes(ps)
    ensures Ok(ps[0]) && AllOk(ps[1..]) && NoNotes(ps[1..])
    ensures Render(ps) == ps[0].b + Render(ps[1..])
    ensures if ps[0].Tok? then Lexeme(ps[0].b) && Toks(ps) == [ps[0].b] + Toks(ps[1..])
            else Blank(ps[0].b) && Toks(ps) == Toks(ps[1..])
  {}

  lemma {:induction false} AfterPieces(t: Bytes, i: nat, ps: seq<Piece>)
    requires AllOk(ps) && NoNotes(ps) && StandsAt(t, i, Render(ps))
    ensures After(t, i, Toks(ps)).Some?
    decreases |ps|
  {
    if ps != [] {
      var b, rest := ps[0].b, ps[1..];
      PiecesCons(ps);
      var n := i + |b|;
      StandsAtConcat(t, i, b, Render(rest));
      AfterPieces(t, n, rest);
      if ps[0].Tok? {
        AfterTok(t, i, b, Toks(rest), n);
      } else {
        AfterGap(t, i, b, Toks(rest), n);
      }
    }
  }

  /** Any spacing of the tokens of an object or array parses to that value, or is refused, whatever follows it. */
  lemma ParseSpacedThen(v: Value, front: Bytes, rest: Bytes)
    requires (v.Arr? || v.Obj?) && Shaped(v, 0) && Spaced(front, Tokens(v))
    ensures ParseString(front + rest) == if Clean(v) then Some(Trim(v)) else None
  {
    var text := front + rest;
    var ps: seq<Piece> :| AllOk(ps) && NoNotes(ps) && Render(ps) == front && Toks(ps) == Tokens(v);
    assert text[0..|front|] == front;
    AfterPieces(text, 0, ps);
    var e := After(text, 0, Tokens(v)).value;
    var p := SkipSpace(text, 0);
    AfterSkip(text, 0, Tokens(v));
    Head(v);
    EntryStarts(text, p, Tokens(v));
    ParseLaid(v, text, p, 0, e);
  }

  lemma ParseSpaced(v: Value, text: Bytes)
    requires (v.Arr? || v.Obj?) && Shaped(v, 0) && Spaced(text, Tokens(v))
    ensures ParseString(text) == if Clean(v) then Some(Trim(v)) else None
  {
    assert text + [] == text;
    ParseSpacedThen(v, text, []);
  }

  // ----- white space outside strings -----

  /** The text without the white space outside string literals; `inside` and `escaped` are the scan state. */
  function Strip(s: Bytes, inside: bool, escaped: bool): Bytes {
    if s == [] then []
    else if !inside then
      (if IsSpace(s[0]) then [] else [s[0]]) + Strip(s[1..], s[0] == QUOTE, false)
    else
      [s[0]] + Strip(s[1..], escaped || s[0] != QUOTE, !escaped && s[0] == BACKSLASH)
  }

  lemma {:induction false} StripBlank(b: Bytes, rest: Bytes)
    requires Blank(b)
    ensures Strip(b + rest, false, false) == Strip(rest, false, false)
  {
    if b == [] {
      assert b + rest == rest;
    } else {
      assert (b + rest)[1..] == b[1..] + rest;
      StripBlank(b[1..], rest);
    }
  }

  lemma {:induction false} StripSolid(b: Bytes, rest: Bytes)
    requires forall k :: 0 <= k < |b| ==> Solid(b[k])
    ensures Strip(b + rest, false, false) == b + Strip(rest, false, false)
  {
    if b == [] {
      assert b + rest == rest;
    } else {
      assert (b + rest)[1..] == b[1..] + rest;
      StripSolid(b[1..], rest);
      assert [b[0]] + b[1..] == b;
      Assoc([b[0]], b[1..], Strip(rest, false, false));
    }
  }

  lemma {:induction false} StripEscaped(s: Bytes, rest: Bytes)
    ensures Strip(EscapeAll(s) + rest, true, false) == EscapeAll(s) + Strip(rest, true, false)
  {
    if s == [] {
      assert EscapeAll(s) + rest == rest;
    } else {
      var e, more := EscapeByte(s[0]), EscapeAll(s[1..]);
      StripEscaped(s[1..], rest);
      Assoc(e, more, rest);
      StripEscape(s[0], more + rest);
      Assoc(e, more, Strip(rest, true, false));
    }
  }

  lemma StripEscape(b: byte, rest: Bytes)
    ensures Strip(EscapeByte(b) + rest, true, false) == EscapeByte(b) + Strip(rest, true, false)
  {
    var e := EscapeByte(b);
    assert (e + rest)[1..] == e[1..] + rest;
    if |e| == 2 {
      assert (e[1..] + rest)[1..] == rest;
      assert [e[0]] + ([e[1]] + Strip(rest, true, false)) == e + Strip(rest, true, false);
    } else {
      assert e[1..] + rest == rest;
    }
  }

  lemma StripQuoted(s: Bytes, rest: Bytes)
    ensures Strip(Quote(s) + rest, false, false) == Quote(s) + Strip(rest, false, false)
  {
    var q := [QUOTE];
    Assoc(q, EscapeAll(s), q);
    Assoc(q, EscapeAll(s) + q, rest);
    Assoc(EscapeAll(s), q, rest);
    assert (q + (EscapeAll(s) + (q + rest)))[1..] == EscapeAll(s) + (q + rest);
    StripEscaped(s, q + rest);
    assert (q + rest)[1..] == rest;
    Assoc(q + EscapeAll(s), q, Strip(rest, false, false));
    Assoc(q, EscapeAll(s), q + Strip(rest, false, false));
  }

  lemma {:induction false} StripPieces(ps: seq<Piece>)
    requires AllOk(ps) && NoNotes(ps)
    ensures Strip(Render(ps), false, false) == Concat(Toks(ps))
  {
    if ps != [] {
      var b, rest := ps[0].b, Render(ps[1..]);
      StripPieces(ps[1..]);
      if ps[0].Gap? {
        StripBlank(b, rest);
        assert Toks(ps) == Toks(ps[1..]);
      } else {
        assert Toks(ps)[0] == b && Toks(ps)[1..] == Toks(ps[1..]);
        if s: Bytes :| NUL !in s && b == Quote(s) {
          StripQuoted(s, rest);
        } else {
          StripSolid(b, rest);
        }
      }
    }
  }

  lemma StripSpaced(text: Bytes, toks: seq<Bytes>)
    requires Spaced(text, toks)
    ensures Strip(text, false, false) == Concat(toks)
  {
    var ps: seq<Piece> :| AllOk(ps) && NoNotes(ps) && Render(ps) == text && Toks(ps) == toks;
    StripPieces(ps);
  }
}
