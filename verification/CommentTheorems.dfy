/** Comments are invisible, block and line comments alike; and the line comments that are not. */
module CommentTheorems {
  import opened Text
  import opened Decimal
  import opened Strings
  import opened Values
  import opened Parser
  import opened Serializer
  import opened Layout
  import opened Pieces
  import opened Comments
  import opened Acceptance
  import opened JsonTheorems

  // ----- between the tokens of a value -----

  lemma {:induction false} EscapeAllNoNul(s: Bytes)
    requires NUL !in s
    ensures NUL !in EscapeAll(s)
  {
    if s != [] {
      EscapeAllNoNul(s[1..]);
    }
  }

  lemma PieceNoNul(p: Piece)
    requires Ok(p)
    ensures NUL !in RenderOne(p)
  {
    if p.Tok? {
      if s: Bytes :| NUL !in s && p.b == Quote(s) {
        EscapeAllNoNul(s);
      }
    }
  }

  lemma {:induction false} RenderNoNul(ps: seq<Piece>)
    requires AllOk(ps)
    ensures NUL !in Render(ps)
  {
    if ps != [] {
      PieceNoNul(ps[0]);
      RenderNoNul(ps[1..]);
    }
  }

  /** After both scans the pieces are tokens and white space; `tail` is what the text behind them has become. */
  lemma ScannedPieces(ps: seq<Piece>, rest: Bytes) returns (front: Bytes, tail: Bytes)
    requires AllOk(ps) && QuietLines(ps)
    ensures Spaced(front, Toks(ps)) && ParseWithComments(Render(ps) + rest) == ParseString(front + tail)
  {
    var n, t := |Render(ps)|, Render(ps) + CString(rest);
    RenderNoNul(ps);
    CStringOver(Render(ps), rest);
    assert t[0..n] == Render(ps);
    RemoveNotes(t, 0, ps, n);
    AllNotedOk(ps);
    var noted := AllNoted(ps);
    var u, m := Remove(t, 0, OPEN_NOTE, CLOSE_NOTE, false, false), |Render(noted)|;
    assert u[0..m] == Render(noted);
    RemoveLines(u, 0, noted, m);
    AllLinedOk(noted);
    front, tail := Render(AllLined(noted)), Remove(u, m, OPEN_LINE, CLOSE_LINE, false, false);
  }

  /**
   * Comments between the tokens of a value, and anything behind its last token, do not change what parsing
   * with comments returns: a comment that the end of the text cuts off there neither.
   */
  lemma CommentsAreTransparent(v: Value, ps: seq<Piece>, rest: Bytes, pretty: bool)
    requires (v.Arr? || v.Obj?) && Shaped(v, 0) && Small(v)
    requires AllOk(ps) && QuietLines(ps) && Toks(ps) == Tokens(v)
    ensures ParseWithComments(Render(ps) + rest) == ParseString(Emit(v, 0, pretty))
  {
    var front, tail := ScannedPieces(ps, rest);
    ParseSpacedThen(v, front, tail);
    EmitSpaced(v, 0, pretty, 0);
    ParseSpaced(v, Emit(v, 0, pretty));
  }

  lemma {:induction false} BareSame(ps: seq<Piece>)
    requires NoNotes(ps)
    ensures AllNoted(ps) == ps && AllLined(ps) == ps && QuietLines(ps) && NoBlocks(ps)
  {
    if ps != [] {
      BareSame(ps[1..]);
    }
  }

  lemma SpacedPasses(text: Bytes, toks: seq<Bytes>)
    requires Spaced(text, toks)
    ensures Remove(text, 0, OPEN_NOTE, CLOSE_NOTE, false, false) == text
    ensures Remove(text, 0, OPEN_LINE, CLOSE_LINE, false, false) == text
  {
    var ps: seq<Piece> :| AllOk(ps) && NoNotes(ps) && Render(ps) == text && Toks(ps) == toks;
    assert text[0..|text|] == text && text + [] == text;
    BareSame(ps);
    RemoveNotes(text, 0, ps, |text|);
    RemoveLines(text, 0, ps, |text|);
  }

  /** The serialiser's own text passes through the comment scan unchanged. */
  lemma OutputHasNoComments(v: Value, level: nat, pretty: bool)
    requires Shaped(v, 0) && Small(v)
    ensures Remove(Emit(v, level, pretty), 0, OPEN_NOTE, CLOSE_NOTE, false, false) == Emit(v, level, pretty)
    ensures Remove(Emit(v, level, pretty), 0, OPEN_LINE, CLOSE_LINE, false, false) == Emit(v, level, pretty)
  {
    EmitSpaced(v, level, pretty, 0);
    SpacedPasses(Emit(v, level, pretty), Tokens(v));
  }

  // ----- in front of a whole text -----

  lemma {:induction false} FindSubShift(t: Bytes, d: nat, s: Bytes, k: nat, pat: Bytes)
    requires d <= |t| && s == t[d..] && k <= |s|
    ensures FindSub(t, pat, d + k) == d + FindSub(s, pat, k)
    ensures HasPrefix(t, d + k, pat) <==> HasPrefix(s, k, pat)
    decreases |s| - k
  {
    if k + |pat| <= |s| {
      assert t[d + k..d + k + |pat|] == s[k..k + |pat|];
    }
    if k < |s| {
      FindSubShift(t, d, s, k + 1, pat);
    }
  }

  lemma RoundSame(t: Bytes, d: nat, s: Bytes, i: nat, open: Bytes, close: Bytes, inString: bool, escaped: bool,
                  r: Comments.Round)
    requires d <= |t| && |t| == d + |s| && i < |s| && t[d + i] == s[i] && open != [] && close != []
    requires HasPrefix(t, d + i, open) == HasPrefix(s, i, open)
    requires HasPrefix(s, i, open) ==>
               && FindSub(t, close, d + i + |open|) == d + FindSub(s, close, i + |open|)
               && t[d + i + |open|..] == s[i + |open|..]
    requires r == ScanRound(s, i, open, close, inString, escaped)
    ensures ScanRound(t, d + i, open, close, inString, escaped) == r.(next := d + r.next)
  {}

  lemma RoundShift(t: Bytes, d: nat, s: Bytes, i: nat, open: Bytes, close: Bytes, inString: bool, escaped: bool,
                   r: Comments.Round)
    requires d <= |t| && s == t[d..] && i < |s| && open != [] && close != []
    requires r == ScanRound(s, i, open, close, inString, escaped)
    ensures ScanRound(t, d + i, open, close, inString, escaped) == r.(next := d + r.next)
  {
    assert s[i] == t[d + i];
    FindSubShift(t, d, s, i, open);
    if HasPrefix(s, i, open) {
      FindSubShift(t, d, s, i + |open|, close);
      assert s[i + |open|..] == t[d + i + |open|..];
    }
    RoundSame(t, d, s, i, open, close, inString, escaped, r);
  }

  /** From here on a scan of the text is a scan of its end `s`. */
  ghost predicate Shifted(t: Bytes, d: nat, s: Bytes, i: nat, open: Bytes, close: Bytes, inString: bool, escaped: bool)
    requires d + i <= |t| && i <= |s| && open != [] && close != []
  {
    Remove(t, d + i, open, close, inString, escaped) == Remove(s, i, open, close, inString, escaped)
  }

  lemma ShiftStep(t: Bytes, d: nat, s: Bytes, i: nat, open: Bytes, close: Bytes, inString: bool, escaped: bool,
                  r: Comments.Round, r': Comments.Round)
    requires d + i < |t| && i < |s| && open != [] && close != [] && r' == r.(next := d + r.next)
    requires r == ScanRound(s, i, open, close, inString, escaped)
    requires r' == ScanRound(t, d + i, open, close, inString, escaped)
    requires Shifted(t, d, s, r.next, open, close, r.inString, r.escaped)
    ensures Shifted(t, d, s, i, open, close, inString, escaped)
  {
    var rest := Remove(s, r.next, open, close, r.inString, r.escaped);
    assert Remove(t, r'.next, open, close, r'.inString, r'.escaped) == rest;
  }

  /** A scan of the rest of a text is a scan of that rest. */
  lemma {:induction false} RemoveShift(t: Bytes, d: nat, s: Bytes, i: nat, open: Bytes, close: Bytes, inString: bool,
                                       escaped: bool)
    requires d <= |t| && s == t[d..] && i <= |s| && open != [] && close != []
    ensures Shifted(t, d, s, i, open, close, inString, escaped)
    decreases |s| - i
  {
    if i < |s| {
      var r := ScanRound(s, i, open, close, inString, escaped);
      RoundShift(t, d, s, i, open, close, inString, escaped, r);
      RemoveShift(t, d, s, r.next, open, close, r.inString, r.escaped);
      ShiftStep(t, d, s, i, open, close, inString, escaped, r, r.(next := d + r.next));
    }
  }

  lemma SpacesBlank(n: nat)
    ensures Blank(Spaces(n))
  {}

  /** The line comment with the body `b`. */
  function LineText(b: Bytes): Bytes {
    OPEN_LINE + b + CLOSE_LINE
  }

  lemma LineInFront(b: Bytes, rest: Bytes)
    ensures StandsAt(LineText(b) + rest, 0, OPEN_LINE + b + CLOSE_LINE)
    ensures (LineText(b) + rest)[|b| + 3..] == rest
  {
    assert (LineText(b) + rest)[0..|b| + 3] == LineText(b);
  }

  /** The second scan blanks a line comment in front of a text. */
  lemma SecondScan(b: Bytes, rest: Bytes)
    requires NEWLINE !in b
    ensures ParseString(Remove(LineText(b) + rest, 0, OPEN_LINE, CLOSE_LINE, false, false)) ==
            ParseString(Remove(rest, 0, OPEN_LINE, CLOSE_LINE, false, false))
  {
    var t, n := LineText(b) + rest, |b| + 3;
    LineInFront(b, rest);
    RemoveWholeLine(t, 0, b, n);
    RemoveShift(t, n, rest, 0, OPEN_LINE, CLOSE_LINE, false, false);
    SpacesBlank(n);
    BlankInFront(Spaces(n), Remove(rest, 0, OPEN_LINE, CLOSE_LINE, false, false));
  }

  /** The first scan leaves a line comment in front of a text, unless a star or an open comment disturbs it. */
  lemma FirstScan(b: Bytes, rest: Bytes, inString: bool)
    requires (b == [] || b[0] != STAR) && FateOf(b, 0, false, false) == if inString then InString else Settled
    ensures Remove(LineText(b) + rest, 0, OPEN_NOTE, CLOSE_NOTE, false, false) ==
            LineText(Scanned(b, 0, false, false)) + Remove(rest, 0, OPEN_NOTE, CLOSE_NOTE, inString, false)
  {
    LineInFront(b, rest);
    RemoveLine(LineText(b) + rest, 0, b, |b| + 3);
    RemoveShift(LineText(b) + rest, |b| + 3, rest, 0, OPEN_NOTE, CLOSE_NOTE, inString, false);
  }

  lemma LineNoNul(b: Bytes, rest: Bytes)
    requires NUL !in b
    ensures CString(LineText(b) + rest) == LineText(b) + CString(rest)
  {
    CStringOver(LineText(b), rest);
  }

  /** A quiet line comment in front of a text is invisible, whatever the text. */
  lemma QuietIsInvisible(b: Bytes, rest: Bytes)
    requires Quiet(b) && NUL !in b && NEWLINE !in b
    ensures ParseWithComments(LineText(b) + rest) == ParseWithComments(rest)
  {
    LineNoNul(b, rest);
    var line := Scanned(b, 0, false, false);
    RemoveKeeps(b, 0, OPEN_NOTE, CLOSE_NOTE, false, false, NEWLINE);
    FirstScan(b, CString(rest), false);
    SecondScan(line, Remove(CString(rest), 0, OPEN_NOTE, CLOSE_NOTE, false, false));
  }

  // ----- the other line comments -----

  lemma SlashRefused(t: Bytes)
    requires t != [] && t[0] == SLASH
    ensures ParseString(t) == None
  {}

  /** A slash that begins no line comment stays. */
  lemma SlashStays(t: Bytes)
    requires |t| >= 2 && t[0] == SLASH && t[1] != SLASH
    ensures ParseString(Remove(t, 0, OPEN_LINE, CLOSE_LINE, false, false)) == None
  {
    assert t[0..2][1] == t[1];
    SlashRefused(Remove(t, 0, OPEN_LINE, CLOSE_LINE, false, false));
  }

  /** A star behind the slashes makes the second slash open a block comment, and the first one stays. */
  lemma StarIsVisible(b: Bytes, rest: Bytes)
    requires b != [] && b[0] == STAR && NUL !in b
    ensures ParseWithComments(LineText(b) + rest) == None
  {
    LineNoNul(b, rest);
    var t := LineText(b) + CString(rest);
    LineInFront(b, CString(rest));
    SlashSlash(t, 0, b);
    SlashCopied(t, 0);
    assert t[1..3] == OPEN_NOTE;
    var u := Remove(t, 0, OPEN_NOTE, CLOSE_NOTE, false, false);
    assert u[1] == ScanRound(t, 1, OPEN_NOTE, CLOSE_NOTE, false, false).out[0] == SPACE;
    SlashStays(u);
  }

  /** Inside a string nothing is blanked. */
  lemma {:induction false} CopiedInside(s: Bytes, i: nat, open: Bytes, close: Bytes, escaped: bool)
    requires i <= |s| && open != [] && close != [] && QUOTE !in s && BACKSLASH !in s
    ensures Remove(s, i, open, close, true, escaped) == s[i..]
    decreases |s| - i
  {
    if i < |s| {
      CopiedInside(s, i + 1, open, close, false);
      assert s[i..] == [s[i]] + s[i + 1..];
    }
  }

  /** An odd quote in the line makes the next block comment look like part of a string. */
  lemma QuoteIsVisible(b: Bytes, rest: Bytes)
    requires (b == [] || b[0] != STAR) && FateOf(b, 0, false, false) == InString && NUL !in b && NEWLINE !in b
    requires |rest| >= 2 && rest[0] == SLASH && rest[1] == STAR && QUOTE !in rest && BACKSLASH !in rest && NUL !in rest
    ensures ParseWithComments(LineText(b) + rest) == None
  {
    LineNoNul(b, rest);
    FirstScan(b, rest, true);
    CopiedInside(rest, 0, OPEN_NOTE, CLOSE_NOTE, false);
    RemoveKeeps(b, 0, OPEN_NOTE, CLOSE_NOTE, false, false, NEWLINE);
    SecondScan(Scanned(b, 0, false, false), rest);
    SlashStays(rest);
  }

  /** Text that closes a comment only at its end. */
  ghost predicate ClosesLast(t: Bytes, from: nat) {
    from + 2 <= |t| && StandsAt(t, |t| - 2, CLOSE_NOTE) && forall j :: from <= j < |t| - 2 ==> t[j] != STAR
  }

  lemma {:induction false} FindSubNone(b: Bytes, k: nat, pat: Bytes, j: nat)
    requires k <= j && j + |pat| <= |b| && pat != [] && FindSub(b, pat, k) + |pat| > |b|
    ensures !StandsAt(b, j, pat)
    decreases j - k
  {
    if k < j {
      FindSubNone(b, k + 1, pat, j);
    }
  }

  lemma NotClosed(t: Bytes, i: nat, b: Bytes, k: nat, j: nat)
    requires LineAt(t, i, b) && ClosesLast(t, i + |b|) && k <= |b| && FindSub(b, CLOSE_NOTE, k) + 2 > |b|
    requires i + k <= j < |t| - 2
    ensures !StandsAt(t, j, CLOSE_NOTE)
  {
    if j + 2 <= i + |b| {
      FindSubNone(b, k, CLOSE_NOTE, j - i);
      StandsAtInside(t, i, b, j - i, CLOSE_NOTE);
    } else if j < i + |b| {
      assert t[j..j + 2][1] == t[j + 1];
    } else {
      PrefixHead(t, j, CLOSE_NOTE);
    }
  }

  lemma Swallowed(t: Bytes, i: nat, b: Bytes, k: nat)
    requires LineAt(t, i, b) && ClosesLast(t, i + |b|) && k <= |b| && FindSub(b, CLOSE_NOTE, k) + 2 > |b|
    ensures FindSub(t, CLOSE_NOTE, i + k) == |t| - 2
  {
    forall j | i + k <= j < |t| - 2 ensures !StandsAt(t, j, CLOSE_NOTE) {
      NotClosed(t, i, b, k, j);
    }
    FindSubAt(t, CLOSE_NOTE, i + k, |t| - 2);
  }

  /** A comment that opens in the line and does not close there swallows everything up to the next closing mark. */
  lemma Swallows(t: Bytes, i: nat, b: Bytes, k: nat, escaped: bool)
    requires LineAt(t, i, b) && ClosesLast(t, i + |b|) && k + 2 <= |b| && HasPrefix(b, k, OPEN_NOTE)
    requires FindSub(b, CLOSE_NOTE, k + 2) + 2 > |b|
    ensures Remove(t, i + k, OPEN_NOTE, CLOSE_NOTE, false, escaped) == Spaces(|t| - i - k)
  {
    NoteInLine(t, i, b, k);
    Swallowed(t, i, b, k + 2);
    NoteScanned(t, i + k, escaped, |t| - 2);
    assert Spaces(|t| - i - k) + [] == Spaces(|t| - i - k);
  }

  /** What is left of a line in which a comment stays open, and of the text behind it up to `n`. */
  ghost function Left(b: Bytes, k: nat, inString: bool, escaped: bool, n: nat): Bytes
    requires k <= |b| <= n && FateOf(b, k, inString, escaped) == InNote
    decreases |b| - k
  {
    if !StaysInLine(b, k, inString) then Spaces(n - k)
    else
      var r := ScanRound(b, k, OPEN_NOTE, CLOSE_NOTE, inString, escaped);
      FateStep(b, k, inString, escaped, r);
      r.out + Left(b, r.next, r.inString, r.escaped, n)
  }

  ghost predicate Leaves(t: Bytes, i: nat, b: Bytes, k: nat, inString: bool, escaped: bool)
    requires k <= |b| && i + |b| <= |t| && FateOf(b, k, inString, escaped) == InNote
  {
    Remove(t, i + k, OPEN_NOTE, CLOSE_NOTE, inString, escaped) == Left(b, k, inString, escaped, |t| - i)
  }

  ghost predicate LeftBegins(b: Bytes, k: nat, inString: bool, escaped: bool, n: nat, r: Comments.Round)
    requires k <= |b| <= n && r.next <= |b|
    requires FateOf(b, k, inString, escaped) == FateOf(b, r.next, r.inString, r.escaped) == InNote
  {
    Left(b, k, inString, escaped, n) == r.out + Left(b, r.next, r.inString, r.escaped, n)
  }

  lemma LeftUnfold(b: Bytes, k: nat, inString: bool, escaped: bool, n: nat, r: Comments.Round)
    requires k < |b| <= n && FateOf(b, k, inString, escaped) == InNote && StaysInLine(b, k, inString)
    requires r == ScanRound(b, k, OPEN_NOTE, CLOSE_NOTE, inString, escaped)
    ensures FateOf(b, r.next, r.inString, r.escaped) == InNote && LeftBegins(b, k, inString, escaped, n, r)
  {
    FateStep(b, k, inString, escaped, r);
  }

  lemma LeavesStep(t: Bytes, i: nat, b: Bytes, k: nat, inString: bool, escaped: bool, r: Comments.Round,
                   r': Comments.Round)
    requires k < r.next <= |b| && i + |b| < |t| && r' == r.(next := i + r.next)
    requires FateOf(b, k, inString, escaped) == FateOf(b, r.next, r.inString, r.escaped) == InNote
    requires LeftBegins(b, k, inString, escaped, |t| - i, r) && Begins(t, i + k, inString, escaped, r')
    requires Leaves(t, i, b, r.next, r.inString, r.escaped)
    ensures Leaves(t, i, b, k, inString, escaped)
  {
    var after := Left(b, r.next, r.inString, r.escaped, |t| - i);
    assert Remove(t, r'.next, OPEN_NOTE, CLOSE_NOTE, r'.inString, r'.escaped) == after;
  }

  lemma {:induction false} LeavesLine(t: Bytes, i: nat, b: Bytes, k: nat, inString: bool, escaped: bool)
    requires LineAt(t, i, b) && ClosesLast(t, i + |b|) && k <= |b| && FateOf(b, k, inString, escaped) == InNote
    ensures Leaves(t, i, b, k, inString, escaped)
    decreases |b| - k
  {
    if !StaysInLine(b, k, inString) {
      Swallows(t, i, b, k, escaped);
    } else {
      var r := ScanRound(b, k, OPEN_NOTE, CLOSE_NOTE, inString, escaped);
      var r' := r.(next := i + r.next);
      LeftUnfold(b, k, inString, escaped, |t| - i, r);
      LineBegins(t, i, b, k, inString, escaped, r, r');
      LeavesLine(t, i, b, r.next, r.inString, r.escaped);
      LeavesStep(t, i, b, k, inString, escaped, r, r');
    }
  }

  lemma LineBegins(t: Bytes, i: nat, b: Bytes, k: nat, inString: bool, escaped: bool, r: Comments.Round,
                   r': Comments.Round)
    requires LineAt(t, i, b) && k < |b| && StaysInLine(b, k, inString) && r' == r.(next := i + r.next)
    requires r == ScanRound(b, k, OPEN_NOTE, CLOSE_NOTE, inString, escaped)
    ensures Begins(t, i + k, inString, escaped, r')
  {
    RoundInLine(t, i, b, k, inString, escaped, r);
    Unfold(t, i + k, inString, escaped, r');
  }

  /** A line comment with the body `b`, and text that closes a block comment only at its end. */
  ghost predicate OpenText(t: Bytes, b: Bytes) {
    && CString(t) == t && LineAt(t, 2, b) && ClosesLast(t, 2 + |b|)
    && t[0] == SLASH && t[1] == SLASH && t[2] != STAR
  }

  lemma SwallowText(b: Bytes, x: Bytes, t: Bytes)
    requires b != [] && b[0] != STAR && NUL !in b && STAR !in x && NUL !in x && t == LineText(b) + (x + CLOSE_NOTE)
    ensures OpenText(t, b)
  {
    LineInFront(b, x + CLOSE_NOTE);
    SlashSlash(t, 0, b);
    assert t[2] == t[2..2 + |b|][0];
    assert t[|t| - 2..] == CLOSE_NOTE;
    forall j | 2 + |b| <= j < |t| - 2 ensures t[j] != STAR {
      assert t[j] == if j == 2 + |b| then NEWLINE else x[j - 3 - |b|];
    }
  }

  lemma SlashesCopied(t: Bytes)
    requires 2 < |t| && t[0] == t[1] == SLASH && t[2] != STAR
    ensures Remove(t, 0, OPEN_NOTE, CLOSE_NOTE, false, false) ==
            [SLASH] + ([SLASH] + Remove(t, 2, OPEN_NOTE, CLOSE_NOTE, false, false))
  {
    SlashCopied(t, 0);
    SlashCopied(t, 1);
  }

  /** What the first scan leaves of a line comment in which a block comment stays open, and of `n` bytes in all. */
  ghost function LeftOver(b: Bytes, n: nat): Bytes
    requires FateOf(b, 0, false, false) == InNote && |b| <= n
  {
    [SLASH] + ([SLASH] + Left(b, 0, false, false, n))
  }

  /** The first scan turns `t` into `s`. */
  ghost predicate ScansTo(t: Bytes, s: Bytes) {
    CString(t) == t && Remove(t, 0, OPEN_NOTE, CLOSE_NOTE, false, false) == s
  }

  lemma ScanAlike(t: Bytes, u: Bytes, s: Bytes)
    requires ScansTo(t, s) && ScansTo(u, s)
    ensures ParseWithComments(t) == ParseWithComments(u)
  {}

  lemma ScanOpen(t: Bytes, b: Bytes, n: nat)
    requires OpenText(t, b) && FateOf(b, 0, false, false) == InNote && n + 2 == |t|
    ensures ScansTo(t, LeftOver(b, n))
  {
    LeavesLine(t, 2, b, 0, false, false);
    SlashesCopied(t);
  }

  /** Whatever an open comment swallows has no part in the result. */
  lemma OpenNoteSwallows(b: Bytes, x: Bytes, y: Bytes, t: Bytes, u: Bytes)
    requires b != [] && b[0] != STAR && FateOf(b, 0, false, false) == InNote && NUL !in b
    requires |x| == |y| && STAR !in x && STAR !in y && NUL !in x && NUL !in y
    requires t == LineText(b) + (x + CLOSE_NOTE) && u == LineText(b) + (y + CLOSE_NOTE)
    ensures ParseWithComments(t) == ParseWithComments(u)
  {
    var n := |b| + 3 + |x|;
    SwallowText(b, x, t);
    SwallowText(b, y, u);
    ScanOpen(t, b, n);
    ScanOpen(u, b, n);
    ScanAlike(t, u, LeftOver(b, n));
  }

  // ----- when exactly a line comment is invisible -----

  /** A value spread over pieces, with its text behind it cut or not. */
  lemma Sample(v: Value, ps: seq<Piece>, rest: Bytes, text: Bytes)
    requires (v.Arr? || v.Obj?) && Shaped(v, 0) && Small(v) && Clean(v) && Trim(v) == v
    requires AllOk(ps) && QuietLines(ps) && Toks(ps) == Tokens(v) && text == Render(ps) + rest
    ensures ParseWithComments(text) == Some(v)
  {
    CommentsAreTransparent(v, ps, rest, false);
    RoundTrips(v, false);
  }

  lemma PiecesOne(p: Piece, more: seq<Piece>)
    requires Ok(p) && (p.Line? ==> Quiet(p.b)) && AllOk(more) && QuietLines(more)
    ensures var ps := [p] + more;
            && AllOk(ps) && QuietLines(ps)
            && Render(ps) == RenderOne(p) + Render(more) && Toks(ps) == TokOne(p) + Toks(more)
  {
    assert ([p] + more)[1..] == more;
  }

  lemma MarkOk(b: byte)
    requires Solid(b)
    ensures Ok(Tok([b]))
  {}

  lemma EmptyPieces()
    ensures var ps := [Tok([LBRACKET])] + ([Tok([RBRACKET])] + []);
            && AllOk(ps) && QuietLines(ps) && Render(ps) == [LBRACKET, RBRACKET]
            && Toks(ps) == [[LBRACKET], [RBRACKET]]
  {
    MarkOk(LBRACKET);
    MarkOk(RBRACKET);
    PiecesOne(Tok([RBRACKET]), []);
    PiecesOne(Tok([LBRACKET]), [Tok([RBRACKET])] + []);
  }

  lemma NumberPieces(d: byte)
    requires IsDigit(d)
    ensures var ps := [Tok([LBRACKET])] + ([Tok([d])] + ([Tok([RBRACKET])] + []));
            && AllOk(ps) && QuietLines(ps) && Render(ps) == [LBRACKET, d, RBRACKET]
            && Toks(ps) == [[LBRACKET], [d], [RBRACKET]]
  {
    MarkOk(LBRACKET);
    MarkOk(RBRACKET);
    MarkOk(d);
    PiecesOne(Tok([RBRACKET]), []);
    PiecesOne(Tok([d]), [Tok([RBRACKET])] + []);
    PiecesOne(Tok([LBRACKET]), [Tok([d])] + ([Tok([RBRACKET])] + []));
  }

  lemma NotePieces(ps: seq<Piece>)
    requires AllOk(ps) && QuietLines(ps)
    ensures var qs := [Note([])] + ps;
            AllOk(qs) && QuietLines(qs) && Render(qs) == OPEN_NOTE + CLOSE_NOTE + Render(ps) && Toks(qs) == Toks(ps)
  {
    assert [] + CLOSE_NOTE == CLOSE_NOTE && OPEN_NOTE + [] == OPEN_NOTE;
    PiecesOne(Note([]), ps);
    assert [] + Toks(ps) == Toks(ps);
  }

  /** An empty array, and one behind an empty block comment. */
  function EmptyText(): Bytes {
    [LBRACKET, RBRACKET]
  }

  function NoteText(): Bytes {
    [SLASH, STAR, STAR, SLASH, LBRACKET, RBRACKET]
  }

  lemma EmptySamples()
    ensures ParseWithComments(EmptyText()) == Some(Arr([], 0)) && ParseWithComments(NoteText()) == Some(Arr([], 0))
  {
    var ps := [Tok([LBRACKET])] + ([Tok([RBRACKET])] + []);
    var v := Arr([], 0);
    EmptyPieces();
    assert Tokens(v) == [[LBRACKET], [RBRACKET]];
    assert EmptyText() + [] == EmptyText();
    Sample(v, ps, [], EmptyText());
    NotePieces(ps);
    assert OPEN_NOTE + CLOSE_NOTE + EmptyText() + [] == NoteText();
    Sample(v, [Note([])] + ps, [], NoteText());
  }

  /** An array of one digit. */
  function NumberText(n: nat): Bytes
    requires n < 10
  {
    [LBRACKET, ZERO + n, RBRACKET]
  }

  lemma NumberSample(n: nat, rest: Bytes)
    requires n < 10
    ensures ParseWithComments(NumberText(n) + rest) == Some(Arr([Num(n)], 1))
  {
    var d: byte := ZERO + n;
    var ps := [Tok([LBRACKET])] + ([Tok([d])] + ([Tok([RBRACKET])] + []));
    var v := Arr([Num(n)], 1);
    NumberPieces(d);
    assert Tokens(v.items[0]) == [[d]] && ItemTokens(v.items, 1) == [];
    assert ItemTokens(v.items, 0) == [[d]] + [] + [];
    assert Tokens(v) == [[LBRACKET], [d], [RBRACKET]];
    assert CleanItems(v.items, 1) && Clean(v.items[0]);
    assert TrimItems(v.items) == [Num(n)] + [];
    Sample(v, ps, rest, NumberText(n) + rest);
  }

  /** Two texts that are read alike behind the comment, but not without it. */
  lemma SwallowIsVisible(b: Bytes, zero: Bytes, one: Bytes) returns (rest: Bytes)
    requires b != [] && b[0] != STAR && FateOf(b, 0, false, false) == InNote && NUL !in b
    requires |zero| == |one| && STAR !in zero && STAR !in one && NUL !in zero && NUL !in one
    requires ParseWithComments(zero + CLOSE_NOTE) != ParseWithComments(one + CLOSE_NOTE)
    ensures ParseWithComments(LineText(b) + rest) != ParseWithComments(rest)
  {
    OpenNoteSwallows(b, zero, one, LineText(b) + (zero + CLOSE_NOTE), LineText(b) + (one + CLOSE_NOTE));
    rest := zero + CLOSE_NOTE;
    if ParseWithComments(LineText(b) + rest) == ParseWithComments(rest) {
      rest := one + CLOSE_NOTE;
    }
  }

  lemma OpenIsVisible(b: Bytes) returns (rest: Bytes)
    requires b != [] && b[0] != STAR && FateOf(b, 0, false, false) == InNote && NUL !in b
    ensures ParseWithComments(LineText(b) + rest) != ParseWithComments(rest)
  {
    NumberSample(0, CLOSE_NOTE);
    NumberSample(1, CLOSE_NOTE);
    rest := SwallowIsVisible(b, NumberText(0), NumberText(1));
  }

  /** Every other line comment changes what some text is read as. */
  lemma LoudIsVisible(b: Bytes) returns (rest: Bytes)
    requires !Quiet(b) && NUL !in b && NEWLINE !in b
    ensures ParseWithComments(LineText(b) + rest) != ParseWithComments(rest)
  {
    EmptySamples();
    if b[0] == STAR {
      rest := EmptyText();
      StarIsVisible(b, rest);
    } else if FateOf(b, 0, false, false) == InString {
      rest := NoteText();
      QuoteIsVisible(b, rest);
    } else {
      rest := OpenIsVisible(b);
    }
  }

  /**
   * A line comment in front of a text is invisible in front of every text exactly if its quotes come in
   * pairs, the block comments that open in it close in it, and its body does not begin with a star.
   */
  lemma InvisibleExactly(b: Bytes)
    requires NUL !in b && NEWLINE !in b
    ensures Quiet(b) <==> forall rest :: ParseWithComments(LineText(b) + rest) == ParseWithComments(rest)
  {
    if Quiet(b) {
      forall rest ensures ParseWithComments(LineText(b) + rest) == ParseWithComments(rest) {
        QuietIsInvisible(b, rest);
      }
    } else {
      var rest := LoudIsVisible(b);
    }
  }

  // ----- comments that never close, in front of a text -----

  lemma {:induction false} NothingOpens(t: Bytes, i: nat, open: Bytes, close: Bytes, inString: bool, escaped: bool)
    requires i <= |t| && open != [] && close != [] && NotBefore(t, open, |t|)
    ensures Remove(t, i, open, close, inString, escaped) == t[i..]
    decreases |t| - i
  {
    if i < |t| {
      var r := ScanRound(t, i, open, close, inString, escaped);
      NothingOpens(t, i + 1, open, close, r.inString, r.escaped);
      assert t[i..] == [t[i]] + t[i + 1..];
    }
  }

  lemma {:induction false} NothingCloses(t: Bytes, i: nat, close: Bytes)
    requires i <= |t| && close != [] && forall j :: i <= j < |t| ==> !StandsAt(t, j, close)
    ensures FindSub(t, close, i) == |t|
    decreases |t| - i
  {
    if i < |t| {
      NothingCloses(t, i + 1, close);
    }
  }

  /** A comment in front of a text that never closes loses only its two opening bytes. */
  lemma OpensForever(open: Bytes, close: Bytes, s: Bytes)
    requires open == OPEN_LINE || open == OPEN_NOTE
    requires close != [] && forall j :: 2 <= j < |s| + 2 ==> !StandsAt(open + s, j, close)
    ensures Remove(open + s, 0, open, close, false, false) == Spaces(2) + s
  {
    var t := open + s;
    assert t[..2] == open && t[2..] == s;
    NothingCloses(t, 2, close);
    assert Spaces(2) + s + [] == Spaces(2) + s;
  }

  /** A line comment without a line feed is read as text, up to the end. */
  lemma CutLineIsRead(s: Bytes)
    requires NUL !in s && NEWLINE !in s && NotBefore(OPEN_LINE + s, OPEN_NOTE, |s| + 2)
    ensures ParseWithComments(OPEN_LINE + s) == ParseString(s)
  {
    var t := OPEN_LINE + s;
    NothingOpens(t, 0, OPEN_NOTE, CLOSE_NOTE, false, false);
    forall j | 2 <= j < |t| ensures !StandsAt(t, j, CLOSE_LINE) {
      assert t[j] == s[j - 2];
      PrefixHead(t, j, CLOSE_LINE);
    }
    OpensForever(OPEN_LINE, CLOSE_LINE, s);
    SpacesBlank(2);
    BlankInFront(Spaces(2), s);
  }
}
