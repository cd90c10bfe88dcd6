/** remove_comments: a scan that blanks comments in place, and parsing of text with comments. */
module Comments {
  import opened Text
  import opened Strings
  import opened Values
  import opened Parser
  import opened Serializer
  import opened Layout
  import opened Pieces

  function Spaces(n: nat): (s: Bytes)
    ensures |s| == n && forall k :: 0 <= k < n ==> s[k] == SPACE
  {
    seq(n, _ => SPACE)
  }

  /** `strstr`: where `pat` first stands, or the length of the text. */
  function FindSub(s: Bytes, pat: Bytes, i: nat): (r: nat)
    requires i <= |s|
    ensures i <= r <= |s|
    decreases |s| - i
  {
    if i == |s| || HasPrefix(s, i, pat) then i else FindSub(s, pat, i + 1)
  }

  /** One round of the loop: the bytes it leaves behind, where it stops, and the state. */
  datatype Round = Round(out: Bytes, next: nat, inString: bool, escaped: bool)

  function ScanRound(s: Bytes, i: nat, open: Bytes, close: Bytes, inString: bool, escaped: bool): (r: Round)
    requires i < |s| && open != [] && close != []
    ensures i < r.next <= |s| && |r.out| == r.next - i
  {
    if s[i] == BACKSLASH && !escaped then Round([s[i]], i + 1, inString, true)
    else if s[i] == QUOTE && !escaped then Round([s[i]], i + 1, !inString, false)
    else if !inString && HasPrefix(s, i, open) then
      var end := FindSub(s, close, i + |open|);
      if end + |close| > |s| then Round(Spaces(|open|) + s[i + |open|..], |s|, false, false)
      else Round(Spaces(end + |close| - i), end + |close|, false, false)
    else Round([s[i]], i + 1, inString, false)
  }

  /** The whole scan from `i` on, in the string and escape state of the source. */
  function Remove(s: Bytes, i: nat, open: Bytes, close: Bytes, inString: bool, escaped: bool): (r: Bytes)
    requires i <= |s| && open != [] && close != []
    ensures |r| == |s| - i
    decreases |s| - i
  {
    if i == |s| then []
    else
      var round := ScanRound(s, i, open, close, inString, escaped);
      round.out + Remove(s, round.next, open, close, round.inString, round.escaped)
  }

  /** json_parse_string_with_comments: block comments first, then line comments. */
  function ParseWithComments(t: Bytes): Option<Value> {
    var s := Remove(CString(t), 0, OPEN_NOTE, CLOSE_NOTE, false, false);
    ParseString(Remove(s, 0, OPEN_LINE, CLOSE_LINE, false, false))
  }

  // ----- the code -----

  /** The bytes of `buf` from `i` on are still those of `text`. */
  ghost predicate Untouched(buf: Bytes, text: Bytes, i: nat) {
    |buf| == |text| && forall k :: i <= k < |text| ==> buf[k] == text[k]
  }

  /** Blanks `n` bytes from `at` on. */
  method BlankOut(buf: array<byte>, at: nat, n: nat)
    requires at + n <= buf.Length
    modifies buf
    ensures buf[..at + n] == old(buf[..at]) + Spaces(n)
    ensures Untouched(buf[..], old(buf[..]), at + n)
  {
    for i := 0 to n
      invariant buf[..at + i] == old(buf[..at]) + Spaces(i)
      invariant Untouched(buf[..], old(buf[..]), at + i)
    {
      buf[at + i] := SPACE;
      assert Spaces(i) + [SPACE] == Spaces(i + 1);
    }
  }

  lemma {:induction false} FindSubSuffix(s: Bytes, t: Bytes, pat: Bytes, i: nat)
    requires i <= |s| && Untouched(s, t, i)
    ensures FindSub(s, pat, i) == FindSub(t, pat, i)
    ensures HasPrefix(s, i, pat) <==> HasPrefix(t, i, pat)
    decreases |s| - i
  {
    if i + |pat| <= |s| {
      assert s[i..i + |pat|] == t[i..i + |pat|];
    }
    if i < |s| {
      FindSubSuffix(s, t, pat, i + 1);
    }
  }

  /** The third branch of the loop: a comment opens at `i`; it may never close. */
  method BlankComment(buf: array<byte>, len: nat, i: nat, open: Bytes, close: Bytes, ghost text: Bytes,
                      ghost escaped: bool)
    returns (closed: bool, next: nat)
    requires len == |text| && len + 1 == buf.Length && i < len && Untouched(buf[..len], text, i)
    requires open != [] && close != [] && HasPrefix(text, i, open)
    requires (text[i] == BACKSLASH || text[i] == QUOTE) ==> escaped
    modifies buf
    ensures buf[len] == old(buf[len]) && next <= len && Untouched(buf[..len], text, next)
    ensures var round := ScanRound(text, i, open, close, false, escaped);
            && next == (if closed then round.next else i + |open|)
            && !round.inString && !round.escaped
            && buf[..round.next] == old(buf[..i]) + round.out
            && (!closed ==> round.next == len)
  {
    ghost var front := buf[..i];
    next := i + |open|;
    var end := FindSub(buf[..len], close, next);
    FindSubSuffix(buf[..len], text, close, next);
    closed := end + |close| <= len;
    BlankOut(buf, i, |open|);
    ghost var mid := buf[..next];
    if closed {
      var n := end + |close| - next;
      BlankOut(buf, next, n);
      next := end + |close|;
      assert buf[..next] == mid + Spaces(n);
      SpacesTwice(front, |open|, n);
    } else {
      assert buf[next..len] == text[next..];
      assert buf[..len] == mid + buf[next..len];
      Assoc(front, Spaces(|open|), text[next..]);
    }
  }

  lemma SpacesTwice(front: Bytes, a: nat, b: nat)
    ensures front + Spaces(a) + Spaces(b) == front + Spaces(a + b)
  {
    assert Spaces(a) + Spaces(b) == Spaces(a + b);
    Assoc(front, Spaces(a), Spaces(b));
  }

  lemma Advance(front: Bytes, s: Bytes, i: nat, open: Bytes, close: Bytes, inString: bool, escaped: bool)
    requires i < |s| && open != [] && close != []
    ensures var round := ScanRound(s, i, open, close, inString, escaped);
            front + Remove(s, i, open, close, inString, escaped)
            == front + round.out + Remove(s, round.next, open, close, round.inString, round.escaped)
  {
    var round := ScanRound(s, i, open, close, inString, escaped);
    Assoc(front, round.out, Remove(s, round.next, open, close, round.inString, round.escaped));
  }

  method RemoveComments(buf: array<byte>, len: nat, open: Bytes, close: Bytes)
    requires len + 1 == buf.Length && buf[len] == NUL && NUL !in buf[..len]
    requires open != [] && close != []
    modifies buf
    ensures buf[..len] == Remove(old(buf[..len]), 0, open, close, false, false) && buf[len] == NUL
  {
    ghost var text := buf[..len];
    ghost var whole := Remove(text, 0, open, close, false, false);
    var inString, escaped, i := false, false, 0;
    while buf[i] != NUL
      invariant i <= len && buf[len] == NUL && Untouched(buf[..len], text, i)
      invariant buf[..i] + Remove(text, i, open, close, inString, escaped) == whole
      decreases len - i
    {
      assert buf[i] == text[i];
      Advance(buf[..i], text, i, open, close, inString, escaped);
      var stop;
      stop, i, inString, escaped := RemoveRound(buf, len, i, open, close, inString, escaped, text);
      if stop {
        return;
      }
    }
  }

  /** One round of the loop; `stop` when a comment never closes. */
  method RemoveRound(buf: array<byte>, len: nat, i: nat, open: Bytes, close: Bytes, inString: bool, escaped: bool,
                     ghost text: Bytes)
    returns (stop: bool, next: nat, inString': bool, escaped': bool)
    requires len == |text| && len + 1 == buf.Length && i < len && Untouched(buf[..len], text, i)
    requires open != [] && close != []
    modifies buf
    ensures buf[len] == old(buf[len])
    ensures var round := ScanRound(text, i, open, close, inString, escaped);
            && buf[..round.next] == old(buf[..i]) + round.out
            && (stop ==> round.next == len)
            && (!stop ==> (next, inString', escaped') == (round.next, round.inString, round.escaped))
    ensures !stop ==> Untouched(buf[..len], text, next)
  {
    stop, next, inString', escaped' := false, i + 1, inString, false;
    assert buf[i] == text[i] && buf[..i + 1] == buf[..i] + [text[i]];
    FindSubSuffix(buf[..len], text, open, i);
    if buf[i] == BACKSLASH && !escaped {
      escaped' := true;
    } else if buf[i] == QUOTE && !escaped {
      inString' := !inString;
    } else if !inString && HasPrefix(buf[..len], i, open) {
      var closed;
      closed, next := BlankComment(buf, len, i, open, close, text, escaped);
      stop := !closed;
    }
  }

  /** A string with no NUL is what the scan works on: the copy holds it and a terminator. */
  method JsonParseStringWithComments(t: Bytes) returns (v: Option<Value>)
    ensures v == ParseWithComments(t)
  {
    var text := CString(t);
    var buf := new byte[|text| + 1](k => if 0 <= k < |text| then text[k] else NUL);
    assert buf[..|text|] == text;
    RemoveComments(buf, |text|, OPEN_NOTE, CLOSE_NOTE);
    RemoveKeeps(text, 0, OPEN_NOTE, CLOSE_NOTE, false, false, NUL);
    RemoveComments(buf, |text|, OPEN_LINE, CLOSE_LINE);
    v := JsonParseString(buf[..|text|]);
  }

  /** Only blanks are put in. */
  lemma {:induction false} RemoveKeeps(s: Bytes, i: nat, open: Bytes, close: Bytes, inString: bool, escaped: bool,
                                       b: byte)
    requires i <= |s| && open != [] && close != [] && b !in s && b != SPACE
    ensures b !in Remove(s, i, open, close, inString, escaped)
    decreases |s| - i
  {
    if i < |s| {
      var round := ScanRound(s, i, open, close, inString, escaped);
      RemoveKeeps(s, round.next, open, close, round.inString, round.escaped, b);
    }
  }

  // ----- comments are transparent -----

  /** A byte that does not change the state of the scan outside strings. */
  predicate Inert(b: byte) {
    b != BACKSLASH && b != QUOTE && b != SLASH
  }

  lemma RemoveInertByte(t: Bytes, i: nat, open: Bytes, close: Bytes)
    requires i < |t| && Inert(t[i]) && open != [] && open[0] == SLASH && close != []
    ensures Remove(t, i, open, close, false, false) == [t[i]] + Remove(t, i + 1, open, close, false, false)
  {
    PrefixHead(t, i, open);
  }

  lemma {:induction false} RemoveInert(t: Bytes, i: nat, b: Bytes, n: nat, open: Bytes, close: Bytes)
    requires StandsAt(t, i, b) && (forall k :: 0 <= k < |b| ==> Inert(b[k])) && n == i + |b|
    requires open != [] && open[0] == SLASH && close != []
    ensures Remove(t, i, open, close, false, false) == b + Remove(t, n, open, close, false, false)
    decreases |b|
  {
    var rest := Remove(t, n, open, close, false, false);
    if b != [] {
      assert [b[0]] + b[1..] == b;
      StandsAtConcat(t, i, [b[0]], b[1..]);
      PrefixHead(t, i, b);
      RemoveInertByte(t, i, open, close);
      RemoveInert(t, i + 1, b[1..], n, open, close);
      Assoc([b[0]], b[1..], rest);
    } else {
      assert b + rest == rest;
    }
  }

  /** Inside a string every byte is copied; only quotes and backslashes matter to the state. */
  lemma RemoveInside(t: Bytes, i: nat, n: nat, open: Bytes, close: Bytes, escaped: bool)
    requires i < |t| && n == i + 1 && open != [] && close != []
    ensures Remove(t, i, open, close, true, escaped) ==
            [t[i]] + Remove(t, n, open, close, escaped || t[i] != QUOTE, !escaped && t[i] == BACKSLASH)
  {}

  lemma RemoveEscape(t: Bytes, i: nat, b: byte, n: nat, open: Bytes, close: Bytes)
    requires StandsAt(t, i, EscapeByte(b)) && n == i + |EscapeByte(b)| && open != [] && close != []
    ensures Remove(t, i, open, close, true, false) == EscapeByte(b) + Remove(t, n, open, close, true, false)
  {
    var e, m := EscapeByte(b), i + 1;
    PrefixHead(t, i, e);
    RemoveInside(t, i, m, open, close, false);
    if |e| == 2 {
      assert e == [e[0]] + [e[1]];
      StandsAtConcat(t, i, [e[0]], [e[1]]);
      PrefixHead(t, m, [e[1]]);
      RemoveInside(t, m, n, open, close, true);
      Assoc([e[0]], [e[1]], Remove(t, n, open, close, true, false));
    }
  }

  lemma {:induction false} RemoveEscaped(t: Bytes, i: nat, s: Bytes, n: nat, open: Bytes, close: Bytes)
    requires StandsAt(t, i, EscapeAll(s)) && n == i + |EscapeAll(s)| && open != [] && close != []
    ensures Remove(t, i, open, close, true, false) == EscapeAll(s) + Remove(t, n, open, close, true, false)
    decreases |s|
  {
    var rest := Remove(t, n, open, close, true, false);
    if s == [] {
      assert EscapeAll(s) + rest == rest;
    } else {
      var e, more := EscapeByte(s[0]), EscapeAll(s[1..]);
      var m := i + |e|;
      StandsAtConcat(t, i, e, more);
      RemoveEscape(t, i, s[0], m, open, close);
      RemoveEscaped(t, m, s[1..], n, open, close);
      EscapeAssoc(s, rest);
    }
  }

  lemma EscapeAssoc(s: Bytes, rest: Bytes)
    requires s != []
    ensures EscapeByte(s[0]) + (EscapeAll(s[1..]) + rest) == EscapeAll(s) + rest
  {
    Assoc(EscapeByte(s[0]), EscapeAll(s[1..]), rest);
  }

  lemma RemoveQuote(t: Bytes, i: nat, n: nat, open: Bytes, close: Bytes, inString: bool)
    requires StandsAt(t, i, [QUOTE]) && n == i + 1 && open != [] && close != []
    ensures Remove(t, i, open, close, inString, false) == [QUOTE] + Remove(t, n, open, close, !inString, false)
  {
    PrefixHead(t, i, [QUOTE]);
  }

  lemma RemoveQuoted(t: Bytes, i: nat, s: Bytes, n: nat, open: Bytes, close: Bytes)
    requires StandsAt(t, i, Quote(s)) && n == i + |Quote(s)| && open != [] && close != []
    ensures Remove(t, i, open, close, false, false) == Quote(s) + Remove(t, n, open, close, false, false)
  {
    var q, e, m := [QUOTE], EscapeAll(s), n - 1;
    StandsAtConcat(t, i, q + e, q);
    StandsAtConcat(t, i, q, e);
    RemoveQuote(t, i, i + 1, open, close, false);
    RemoveEscaped(t, i + 1, s, m, open, close);
    RemoveQuote(t, m, n, open, close, true);
    QuoteAssoc(s, Remove(t, n, open, close, false, false));
  }

  lemma QuoteAssoc(s: Bytes, rest: Bytes)
    ensures [QUOTE] + (EscapeAll(s) + ([QUOTE] + rest)) == Quote(s) + rest
  {
    Assoc([QUOTE], EscapeAll(s), [QUOTE] + rest);
    Assoc([QUOTE] + EscapeAll(s), [QUOTE], rest);
  }

  lemma RemoveLexeme(t: Bytes, i: nat, b: Bytes, n: nat, open: Bytes, close: Bytes)
    requires StandsAt(t, i, b) && Lexeme(b) && n == i + |b| && open != [] && open[0] == SLASH && close != []
    ensures Remove(t, i, open, close, false, false) == b + Remove(t, n, open, close, false, false)
  {
    if s: Bytes :| NUL !in s && b == Quote(s) {
      RemoveQuoted(t, i, s, n, open, close);
    } else {
      RemoveInert(t, i, b, n, open, close);
    }
  }

  lemma RemovePiece(t: Bytes, i: nat, p: Piece, n: nat, open: Bytes, close: Bytes)
    requires StandsAt(t, i, p.b) && Ok(p) && Bare(p) && n == i + |p.b|
    requires open != [] && open[0] == SLASH && close != []
    ensures Remove(t, i, open, close, false, false) == p.b + Remove(t, n, open, close, false, false)
  {
    if p.Tok? {
      RemoveLexeme(t, i, p.b, n, open, close);
    } else {
      RemoveInert(t, i, p.b, n, open, close);
    }
  }

  lemma {:induction false} FindSubAt(s: Bytes, pat: Bytes, i: nat, r: nat)
    requires i <= r && StandsAt(s, r, pat) && pat != [] && forall j :: i <= j < r ==> !StandsAt(s, j, pat)
    ensures FindSub(s, pat, i) == r
    decreases r - i
  {
    if i < r {
      FindSubAt(s, pat, i + 1, r);
    }
  }

  lemma NoteRound(t: Bytes, i: nat, b: Bytes, n: nat)
    requires StandsAt(t, i, OPEN_NOTE + b + CLOSE_NOTE) && NotBefore(b + CLOSE_NOTE, CLOSE_NOTE, |b|)
    requires n == i + |b| + 4
    ensures ScanRound(t, i, OPEN_NOTE, CLOSE_NOTE, false, false) == Round(Spaces(|b| + 4), n, false, false)
  {
    Assoc(OPEN_NOTE, b, CLOSE_NOTE);
    StandsAtConcat(t, i, OPEN_NOTE, b + CLOSE_NOTE);
    CloseOfNote(t, i + 2, b);
    PrefixHead(t, i, OPEN_NOTE);
  }

  /** A comment in front of anything is blanked, whatever its body holds. */
  lemma RemoveNote(t: Bytes, i: nat, b: Bytes, n: nat)
    requires StandsAt(t, i, OPEN_NOTE + b + CLOSE_NOTE) && NotBefore(b + CLOSE_NOTE, CLOSE_NOTE, |b|)
    requires n == i + |b| + 4
    ensures Remove(t, i, OPEN_NOTE, CLOSE_NOTE, false, false) ==
            Spaces(|b| + 4) + Remove(t, n, OPEN_NOTE, CLOSE_NOTE, false, false)
  {
    NoteRound(t, i, b, n);
  }

  lemma CloseOfNote(t: Bytes, body: nat, b: Bytes)
    requires StandsAt(t, body, b + CLOSE_NOTE) && NotBefore(b + CLOSE_NOTE, CLOSE_NOTE, |b|)
    ensures FindSub(t, CLOSE_NOTE, body) == body + |b| && body + |b| + 2 <= |t|
  {
    StandsAtConcat(t, body, b, CLOSE_NOTE);
    forall j | body <= j < body + |b| ensures !StandsAt(t, j, CLOSE_NOTE) {
      assert !StandsAt(b + CLOSE_NOTE, j - body, CLOSE_NOTE);
      StandsAtInside(t, body, b + CLOSE_NOTE, j - body, CLOSE_NOTE);
    }
    FindSubAt(t, CLOSE_NOTE, body, body + |b|);
  }

  // ----- a line comment seen by the scan for block comments -----

  /** Where the scan for block comments, which comes first, stands at the end of a line comment. */
  datatype Fate = Settled | InString | InNote

  function FateOf(b: Bytes, k: nat, inString: bool, escaped: bool): Fate
    requires k <= |b|
    decreases |b| - k
  {
    if k == |b| then if inString then InString else Settled
    else if b[k] == BACKSLASH && !escaped then FateOf(b, k + 1, inString, true)
    else if b[k] == QUOTE && !escaped then FateOf(b, k + 1, !inString, false)
    else if !inString && HasPrefix(b, k, OPEN_NOTE) then
      var end := FindSub(b, CLOSE_NOTE, k + 2);
      if end + 2 <= |b| then FateOf(b, end + 2, false, false) else InNote
    else FateOf(b, k + 1, inString, false)
  }

  /** Quotes come in pairs, block comments that open in the line close in it, and no star follows the slashes. */
  predicate Quiet(b: Bytes) {
    (b == [] || b[0] != STAR) && FateOf(b, 0, false, false) == Settled
  }

  /** Without quotes and stars every line comment is quiet. */
  lemma {:induction false} PlainSettles(b: Bytes, k: nat, escaped: bool)
    requires k <= |b| && QUOTE !in b && STAR !in b
    ensures FateOf(b, k, false, escaped) == Settled
    decreases |b| - k
  {
    if k < |b| {
      if k + 1 < |b| {
        assert b[k..k + 2][1] == b[k + 1];
      }
      PlainSettles(b, k + 1, b[k] == BACKSLASH && !escaped);
    }
  }

  lemma PlainIsQuiet(b: Bytes)
    requires QUOTE !in b && STAR !in b
    ensures Quiet(b)
  {
    PlainSettles(b, 0, false);
  }

  /** A line, and the line feed behind it, in a longer text. */
  ghost predicate LineAt(t: Bytes, i: nat, b: Bytes) {
    StandsAt(t, i, b) && i + |b| < |t| && t[i + |b|] == NEWLINE
  }

  lemma NoteInLine(t: Bytes, i: nat, b: Bytes, k: nat)
    requires LineAt(t, i, b) && k < |b|
    ensures HasPrefix(t, i + k, OPEN_NOTE) <==> HasPrefix(b, k, OPEN_NOTE)
  {
    if k + 2 <= |b| {
      StandsAtInside(t, i, b, k, OPEN_NOTE);
    } else if i + k + 2 <= |t| {
      assert t[i + k..i + k + 2][1] == t[i + k + 1];
    }
  }

  /** What is found inside a part of the text is found there in the whole text. */
  lemma {:induction false} FindSubInside(t: Bytes, i: nat, b: Bytes, k: nat, pat: Bytes)
    requires StandsAt(t, i, b) && k <= |b| && pat != [] && FindSub(b, pat, k) + |pat| <= |b|
    ensures FindSub(t, pat, i + k) == i + FindSub(b, pat, k)
    decreases |b| - k
  {
    if k + |pat| <= |b| {
      StandsAtInside(t, i, b, k, pat);
    }
    if k < |b| && !HasPrefix(b, k, pat) {
      FindSubInside(t, i, b, k + 1, pat);
    }
  }

  lemma ByteRound(s: Bytes, i: nat, inString: bool, escaped: bool, note: bool)
    requires i < |s| && note == HasPrefix(s, i, OPEN_NOTE) && (inString || !note)
    ensures ScanRound(s, i, OPEN_NOTE, CLOSE_NOTE, inString, escaped) ==
            Round([s[i]], i + 1, inString != (s[i] == QUOTE && !escaped), s[i] == BACKSLASH && !escaped)
  {}

  lemma NoteScanned(s: Bytes, i: nat, escaped: bool, end: nat)
    requires i < |s| && HasPrefix(s, i, OPEN_NOTE) && end == FindSub(s, CLOSE_NOTE, i + 2) && end + 2 <= |s|
    ensures ScanRound(s, i, OPEN_NOTE, CLOSE_NOTE, false, escaped) == Round(Spaces(end + 2 - i), end + 2, false, false)
  {
    PrefixHead(s, i, OPEN_NOTE);
  }

  /** No block comment opens here that the line does not close. */
  predicate StaysInLine(b: Bytes, k: nat, inString: bool)
    requires k <= |b|
  {
    !inString && HasPrefix(b, k, OPEN_NOTE) ==> FindSub(b, CLOSE_NOTE, k + 2) + 2 <= |b|
  }

  lemma FateStep(b: Bytes, k: nat, inString: bool, escaped: bool, r: Round)
    requires k < |b| && r == ScanRound(b, k, OPEN_NOTE, CLOSE_NOTE, inString, escaped) && StaysInLine(b, k, inString)
    ensures FateOf(b, k, inString, escaped) == FateOf(b, r.next, r.inString, r.escaped)
  {
    if inString || !HasPrefix(b, k, OPEN_NOTE) {
      ByteRound(b, k, inString, escaped, HasPrefix(b, k, OPEN_NOTE));
    } else {
      PrefixHead(b, k, OPEN_NOTE);
    }
  }

  lemma FateOpen(b: Bytes, k: nat, inString: bool, escaped: bool)
    requires k < |b| && !StaysInLine(b, k, inString)
    ensures FateOf(b, k, inString, escaped) == InNote
  {
    PrefixHead(b, k, OPEN_NOTE);
  }

  /** Inside a line the scan of the whole text does what the scan of the line does. */
  lemma RoundInLine(t: Bytes, i: nat, b: Bytes, k: nat, inString: bool, escaped: bool, r: Round)
    requires LineAt(t, i, b) && k < |b| && r == ScanRound(b, k, OPEN_NOTE, CLOSE_NOTE, inString, escaped)
    requires StaysInLine(b, k, inString)
    ensures ScanRound(t, i + k, OPEN_NOTE, CLOSE_NOTE, inString, escaped) == r.(next := i + r.next)
  {
    assert t[i + k] == t[i..i + |b|][k] == b[k];
    NoteInLine(t, i, b, k);
    if inString || !HasPrefix(b, k, OPEN_NOTE) {
      ByteRound(b, k, inString, escaped, HasPrefix(b, k, OPEN_NOTE));
      ByteRound(t, i + k, inString, escaped, HasPrefix(b, k, OPEN_NOTE));
    } else {
      var end := FindSub(b, CLOSE_NOTE, k + 2);
      FindSubInside(t, i, b, k + 2, CLOSE_NOTE);
      NoteScanned(b, k, escaped, end);
      NoteScanned(t, i + k, escaped, i + end);
    }
  }

  /** The scan for block comments begins with this round. */
  ghost predicate Begins(s: Bytes, i: nat, inString: bool, escaped: bool, r: Round)
    requires i <= |s| && r.next <= |s|
  {
    Remove(s, i, OPEN_NOTE, CLOSE_NOTE, inString, escaped) ==
    r.out + Remove(s, r.next, OPEN_NOTE, CLOSE_NOTE, r.inString, r.escaped)
  }

  lemma Unfold(s: Bytes, i: nat, inString: bool, escaped: bool, r: Round)
    requires i < |s| && r == ScanRound(s, i, OPEN_NOTE, CLOSE_NOTE, inString, escaped)
    ensures Begins(s, i, inString, escaped, r)
  {}

  lemma ScanFeed(t: Bytes, i: nat, n: nat, inString: bool, escaped: bool)
    requires i < |t| && t[i] == NEWLINE && n == i + 1
    ensures Remove(t, i, OPEN_NOTE, CLOSE_NOTE, inString, escaped) ==
            CLOSE_LINE + Remove(t, n, OPEN_NOTE, CLOSE_NOTE, inString, false)
  {
    PrefixHead(t, i, OPEN_NOTE);
  }

  /** What the scan for block comments makes of a line from its byte `k` on. */
  ghost function Scanned(b: Bytes, k: nat, inString: bool, escaped: bool): Bytes
    requires k <= |b|
  {
    Remove(b, k, OPEN_NOTE, CLOSE_NOTE, inString, escaped)
  }

  /** The scan goes over the rest of the line and the line feed, and then over the rest of the text. */
  ghost predicate Crosses(t: Bytes, i: nat, b: Bytes, k: nat, inString: bool, escaped: bool, rest: Bytes)
    requires k <= |b| && i + k <= |t|
  {
    Fed(Remove(t, i + k, OPEN_NOTE, CLOSE_NOTE, inString, escaped), Scanned(b, k, inString, escaped), rest)
  }

  /** A line, a line feed, and the rest. */
  ghost predicate Fed(whole: Bytes, line: Bytes, rest: Bytes) {
    whole == line + (CLOSE_LINE + rest)
  }

  lemma CrossJoin(whole: Bytes, after: Bytes, line: Bytes, more: Bytes, out: Bytes, rest: Bytes)
    requires whole == out + after && line == out + more && Fed(after, more, rest)
    ensures Fed(whole, line, rest)
  {
    Assoc(out, more, CLOSE_LINE + rest);
  }

  lemma CrossStep(t: Bytes, i: nat, b: Bytes, k: nat, inString: bool, escaped: bool, r: Round, r': Round, rest: Bytes)
    requires k < r.next <= |b| && i + |b| < |t| && r' == r.(next := i + r.next)
    requires Begins(b, k, inString, escaped, r) && Begins(t, i + k, inString, escaped, r')
    requires Crosses(t, i, b, r.next, r.inString, r.escaped, rest)
    ensures Crosses(t, i, b, k, inString, escaped, rest)
  {
    var whole := Remove(t, i + k, OPEN_NOTE, CLOSE_NOTE, inString, escaped);
    var after := Remove(t, r'.next, OPEN_NOTE, CLOSE_NOTE, r.inString, r.escaped);
    CrossJoin(whole, after, Scanned(b, k, inString, escaped), Scanned(b, r.next, r.inString, r.escaped), r.out, rest);
  }

  lemma CrossFeed(t: Bytes, i: nat, b: Bytes, n: nat, inString: bool, escaped: bool, rest: Bytes)
    requires LineAt(t, i, b) && n == i + |b| + 1 && rest == Remove(t, n, OPEN_NOTE, CLOSE_NOTE, inString, false)
    ensures Crosses(t, i, b, |b|, inString, escaped, rest)
  {
    ScanFeed(t, i + |b|, n, inString, escaped);
    assert [] + (CLOSE_LINE + rest) == CLOSE_LINE + rest;
  }

  /** The scan for block comments crosses a line and its line feed, unless a comment is open there. */
  lemma {:induction false} ScanLine(t: Bytes, i: nat, b: Bytes, k: nat, n: nat, inString: bool, escaped: bool,
                                    rest: Bytes)
    requires LineAt(t, i, b) && k <= |b| && n == i + |b| + 1 && FateOf(b, k, inString, escaped) != InNote
    requires rest == Remove(t, n, OPEN_NOTE, CLOSE_NOTE, FateOf(b, k, inString, escaped) == InString, false)
    ensures Crosses(t, i, b, k, inString, escaped, rest)
    decreases |b| - k
  {
    if k == |b| {
      CrossFeed(t, i, b, n, inString, escaped, rest);
    } else {
      var r := ScanRound(b, k, OPEN_NOTE, CLOSE_NOTE, inString, escaped);
      if !StaysInLine(b, k, inString) {
        FateOpen(b, k, inString, escaped);
        assert false;
      }
      FateStep(b, k, inString, escaped, r);
      RoundInLine(t, i, b, k, inString, escaped, r);
      ScanLine(t, i, b, r.next, n, r.inString, r.escaped, rest);
      Unfold(b, k, inString, escaped, r);
      Unfold(t, i + k, inString, escaped, r.(next := i + r.next));
      CrossStep(t, i, b, k, inString, escaped, r, r.(next := i + r.next), rest);
    }
  }

  // ----- the two scans over pieces -----

  /** What the scan for block comments makes of a piece. */
  function Noted(p: Piece): Piece {
    match p
    case Note(b) => Gap(Spaces(|b| + 4))
    case Line(b) => Line(Remove(b, 0, OPEN_NOTE, CLOSE_NOTE, false, false))
    case _ => p
  }

  function AllNoted(ps: seq<Piece>): seq<Piece> {
    if ps == [] then [] else [Noted(ps[0])] + AllNoted(ps[1..])
  }

  /** What the scan for line comments makes of a piece. */
  function Lined(p: Piece): Piece {
    if p.Line? then Gap(Spaces(|p.b| + 3)) else p
  }

  function AllLined(ps: seq<Piece>): seq<Piece> {
    if ps == [] then [] else [Lined(ps[0])] + AllLined(ps[1..])
  }

  predicate QuietLines(ps: seq<Piece>) {
    ps == [] || ((ps[0].Line? ==> Quiet(ps[0].b)) && QuietLines(ps[1..]))
  }

  predicate NoBlocks(ps: seq<Piece>) {
    ps == [] || (!ps[0].Note? && NoBlocks(ps[1..]))
  }

  lemma NotedOk(p: Piece)
    requires Ok(p)
    ensures Ok(Noted(p)) && !Noted(p).Note? && TokOne(Noted(p)) == TokOne(p)
  {
    if p.Line? {
      RemoveKeeps(p.b, 0, OPEN_NOTE, CLOSE_NOTE, false, false, NUL);
      RemoveKeeps(p.b, 0, OPEN_NOTE, CLOSE_NOTE, false, false, NEWLINE);
    }
  }

  lemma {:induction false} AllNotedOk(ps: seq<Piece>)
    requires AllOk(ps)
    ensures AllOk(AllNoted(ps)) && NoBlocks(AllNoted(ps)) && Toks(AllNoted(ps)) == Toks(ps)
  {
    if ps != [] {
      NotedOk(ps[0]);
      AllNotedOk(ps[1..]);
      assert AllNoted(ps)[1..] == AllNoted(ps[1..]);
    }
  }

  lemma {:induction false} AllLinedOk(ps: seq<Piece>)
    requires AllOk(ps) && NoBlocks(ps)
    ensures AllOk(AllLined(ps)) && NoNotes(AllLined(ps)) && Toks(AllLined(ps)) == Toks(ps)
  {
    if ps != [] {
      AllLinedOk(ps[1..]);
      assert AllLined(ps)[1..] == AllLined(ps[1..]);
    }
  }

  lemma SlashSlash(t: Bytes, i: nat, b: Bytes)
    requires StandsAt(t, i, OPEN_LINE + b + CLOSE_LINE)
    ensures t[i] == SLASH && t[i + 1] == SLASH && LineAt(t, i + 2, b) && HasPrefix(t, i, OPEN_LINE)
  {
    StandsAtConcat(t, i, OPEN_LINE + b, CLOSE_LINE);
    StandsAtConcat(t, i, OPEN_LINE, b);
    PrefixHead(t, i + 2 + |b|, CLOSE_LINE);
    assert t[i..i + 2][0] == t[i] && t[i..i + 2][1] == t[i + 1];
  }

  lemma SlashCopied(t: Bytes, i: nat)
    requires i < |t| && t[i] == SLASH && Peek(t, i + 1) != STAR
    ensures Remove(t, i, OPEN_NOTE, CLOSE_NOTE, false, false) ==
            [SLASH] + Remove(t, i + 1, OPEN_NOTE, CLOSE_NOTE, false, false)
  {
    assert !HasPrefix(t, i, OPEN_NOTE) by {
      if i + 2 <= |t| { assert t[i..i + 2][1] == t[i + 1]; }
    }
    ByteRound(t, i, false, false, false);
  }

  lemma LineAssoc(line: Bytes, rest: Bytes)
    ensures [SLASH] + ([SLASH] + (line + (CLOSE_LINE + rest))) == RenderOne(Line(line)) + rest
  {
    Assoc([SLASH], [SLASH], line + (CLOSE_LINE + rest));
    assert [SLASH] + [SLASH] == OPEN_LINE;
    Assoc(line, CLOSE_LINE, rest);
    Assoc(OPEN_LINE, line, CLOSE_LINE);
    Assoc(OPEN_LINE, line + CLOSE_LINE, rest);
  }

  /** A line comment stays one in the scan for block comments, unless a star or an open comment disturbs it. */
  lemma RemoveLine(t: Bytes, i: nat, b: Bytes, n: nat)
    requires StandsAt(t, i, OPEN_LINE + b + CLOSE_LINE) && n == i + |b| + 3
    requires (b == [] || b[0] != STAR) && FateOf(b, 0, false, false) != InNote
    ensures Remove(t, i, OPEN_NOTE, CLOSE_NOTE, false, false) ==
            RenderOne(Noted(Line(b)))
            + Remove(t, n, OPEN_NOTE, CLOSE_NOTE, FateOf(b, 0, false, false) == InString, false)
  {
    var rest := Remove(t, n, OPEN_NOTE, CLOSE_NOTE, FateOf(b, 0, false, false) == InString, false);
    SlashSlash(t, i, b);
    SlashCopied(t, i);
    assert Peek(t, i + 2) != STAR by { if b != [] { PrefixHead(t, i + 2, b); } }
    SlashCopied(t, i + 1);
    ScanLine(t, i + 2, b, 0, n, false, false, rest);
    LineAssoc(Scanned(b, 0, false, false), rest);
  }

  /** Outside strings, the scan goes from `i` to `n` and leaves `out` behind. */
  ghost predicate Passed(t: Bytes, i: nat, open: Bytes, close: Bytes, out: Bytes, n: nat)
    requires i <= |t| && n <= |t| && open != [] && close != []
  {
    Remove(t, i, open, close, false, false) == out + Remove(t, n, open, close, false, false)
  }

  lemma PassedNothing(t: Bytes, i: nat, open: Bytes, close: Bytes)
    requires i <= |t| && open != [] && close != []
    ensures Passed(t, i, open, close, [], i)
  {
    var rest := Remove(t, i, open, close, false, false);
    assert [] + rest == rest;
  }

  lemma PassedThen(t: Bytes, i: nat, m: nat, n: nat, open: Bytes, close: Bytes, a: Bytes, b: Bytes)
    requires i <= |t| && m <= |t| && n <= |t| && open != [] && close != []
    requires Passed(t, i, open, close, a, m) && Passed(t, m, open, close, b, n)
    ensures Passed(t, i, open, close, a + b, n)
  {
    Assoc(a, b, Remove(t, n, open, close, false, false));
  }

  lemma RemoveNotedPiece(t: Bytes, i: nat, p: Piece, n: nat)
    requires StandsAt(t, i, RenderOne(p)) && Ok(p) && (p.Line? ==> Quiet(p.b)) && n == i + |RenderOne(p)|
    ensures Passed(t, i, OPEN_NOTE, CLOSE_NOTE, RenderOne(Noted(p)), n)
  {
    match p
    case Note(b) => RemoveNote(t, i, b, n);
    case Line(b) => RemoveLine(t, i, b, n);
    case _ => RemovePiece(t, i, p, n, OPEN_NOTE, CLOSE_NOTE);
  }

  lemma NotedCons(t: Bytes, i: nat, ps: seq<Piece>, m: nat, n: nat)
    requires ps != [] && i <= |t| && m <= |t| && n <= |t|
    requires Passed(t, i, OPEN_NOTE, CLOSE_NOTE, RenderOne(Noted(ps[0])), m)
    requires Passed(t, m, OPEN_NOTE, CLOSE_NOTE, Render(AllNoted(ps[1..])), n)
    ensures Passed(t, i, OPEN_NOTE, CLOSE_NOTE, Render(AllNoted(ps)), n)
  {
    assert AllNoted(ps)[1..] == AllNoted(ps[1..]);
    PassedThen(t, i, m, n, OPEN_NOTE, CLOSE_NOTE, RenderOne(Noted(ps[0])), Render(AllNoted(ps[1..])));
  }

  lemma SplitRender(t: Bytes, i: nat, ps: seq<Piece>, m: nat)
    requires ps != [] && StandsAt(t, i, Render(ps)) && m == i + |RenderOne(ps[0])|
    ensures StandsAt(t, i, RenderOne(ps[0])) && StandsAt(t, m, Render(ps[1..]))
    ensures m + |Render(ps[1..])| == i + |Render(ps)|
  {
    StandsAtConcat(t, i, RenderOne(ps[0]), Render(ps[1..]));
  }

  /** The scan for block comments turns them into white space, and leaves quiet line comments. */
  lemma {:induction false} RemoveNotes(t: Bytes, i: nat, ps: seq<Piece>, n: nat)
    requires AllOk(ps) && QuietLines(ps) && StandsAt(t, i, Render(ps)) && n == i + |Render(ps)|
    ensures Passed(t, i, OPEN_NOTE, CLOSE_NOTE, Render(AllNoted(ps)), n)
    decreases |ps|
  {
    if ps == [] {
      PassedNothing(t, i, OPEN_NOTE, CLOSE_NOTE);
    } else {
      var m := i + |RenderOne(ps[0])|;
      SplitRender(t, i, ps, m);
      RemoveNotes(t, m, ps[1..], n);
      RemoveNotedPiece(t, i, ps[0], m);
      NotedCons(t, i, ps, m, n);
    }
  }

  lemma FindFeed(t: Bytes, i: nat, b: Bytes)
    requires LineAt(t, i, b) && NEWLINE !in b
    ensures FindSub(t, CLOSE_LINE, i) == i + |b|
  {
    var e := i + |b|;
    forall j | i <= j < e ensures !StandsAt(t, j, CLOSE_LINE) {
      assert t[j] == t[i..e][j - i];
      PrefixHead(t, j, CLOSE_LINE);
    }
    assert t[e..e + 1] == CLOSE_LINE;
    FindSubAt(t, CLOSE_LINE, i, e);
  }

  lemma RemoveWholeLine(t: Bytes, i: nat, b: Bytes, n: nat)
    requires StandsAt(t, i, OPEN_LINE + b + CLOSE_LINE) && NEWLINE !in b && n == i + |b| + 3
    ensures Remove(t, i, OPEN_LINE, CLOSE_LINE, false, false) ==
            Spaces(|b| + 3) + Remove(t, n, OPEN_LINE, CLOSE_LINE, false, false)
  {
    SlashSlash(t, i, b);
    FindFeed(t, i + 2, b);
  }

  lemma RemoveLinedPiece(t: Bytes, i: nat, p: Piece, n: nat)
    requires StandsAt(t, i, RenderOne(p)) && Ok(p) && !p.Note? && n == i + |RenderOne(p)|
    ensures Passed(t, i, OPEN_LINE, CLOSE_LINE, RenderOne(Lined(p)), n)
  {
    if p.Line? {
      RemoveWholeLine(t, i, p.b, n);
    } else {
      RemovePiece(t, i, p, n, OPEN_LINE, CLOSE_LINE);
    }
  }

  lemma LinedCons(t: Bytes, i: nat, ps: seq<Piece>, m: nat, n: nat)
    requires ps != [] && i <= |t| && m <= |t| && n <= |t|
    requires Passed(t, i, OPEN_LINE, CLOSE_LINE, RenderOne(Lined(ps[0])), m)
    requires Passed(t, m, OPEN_LINE, CLOSE_LINE, Render(AllLined(ps[1..])), n)
    ensures Passed(t, i, OPEN_LINE, CLOSE_LINE, Render(AllLined(ps)), n)
  {
    assert AllLined(ps)[1..] == AllLined(ps[1..]);
    PassedThen(t, i, m, n, OPEN_LINE, CLOSE_LINE, RenderOne(Lined(ps[0])), Render(AllLined(ps[1..])));
  }

  /** The scan for line comments turns them into white space. */
  lemma {:induction false} RemoveLines(t: Bytes, i: nat, ps: seq<Piece>, n: nat)
    requires AllOk(ps) && NoBlocks(ps) && StandsAt(t, i, Render(ps)) && n == i + |Render(ps)|
    ensures Passed(t, i, OPEN_LINE, CLOSE_LINE, Render(AllLined(ps)), n)
    decreases |ps|
  {
    if ps == [] {
      PassedNothing(t, i, OPEN_LINE, CLOSE_LINE);
    } else {
      var m := i + |RenderOne(ps[0])|;
      SplitRender(t, i, ps, m);
      RemoveLines(t, m, ps[1..], n);
      RemoveLinedPiece(t, i, ps[0], m);
      LinedCons(t, i, ps, m, n);
    }
  }
}
