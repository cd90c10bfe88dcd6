/** The promises that span parser and serialiser. */
module JsonTheorems {
  import opened Text
  import opened Decimal
  import opened Strings
  import opened Values
  import opened ObjectStore
  import opened RoundTrip
  import opened Parser
  import opened ParserOutput
  import opened Serializer
  import opened Layout
  import opened Pieces

  /**
   * Parsing compact or pretty output returns the value, members in order, exactly when no string
   * in it holds a control byte without a short escape; otherwise the parser refuses the text.
   */
  lemma RoundTrips(v: Value, pretty: bool)
    requires (v.Arr? || v.Obj?) && Shaped(v, 0) && Small(v)
    ensures ParseString(Emit(v, 0, pretty)) == if Clean(v) then Some(Trim(v)) else None
  {
    EmitSpaced(v, 0, pretty, 0);
    ParseSpaced(v, Emit(v, 0, pretty));
  }

  /** A value that came from text survives being written and parsed again, capacities included. */
  lemma ParsedRoundTrips(t: Bytes, pretty: bool)
    requires ParseString(t).Some? && Clean(ParseString(t).value) && Small(ParseString(t).value)
    ensures ParseString(Emit(ParseString(t).value, 0, pretty)) == ParseString(t)
  {
    ParsedIsSound(t, SkipSpace(t, 0), 0);
    TightIsTrimmed(ParseString(t).value);
    assert SkipSpace(t, SkipSpace(t, 0)) == SkipSpace(t, 0);
    RoundTrips(ParseString(t).value, pretty);
  }

  /** An escaped control byte is taken in but comes out raw, and is refused on the way back. */
  lemma ControlByteDoesNotRoundTrip()
    ensures var v := Arr([Str([1])], 1);
            Shaped(v, 0) && Small(v) && ParseString(Emit(v, 0, false)) == None
  {
    var v := Arr([Str([1])], 1);
    assert !CleanByte([1][0]) && !Clean(v.items[0]);
    RoundTrips(v, false);
  }

  // ----- pretty text is compact text with white space -----

  lemma {:induction false} ConcatConcat(a: seq<Bytes>, b: seq<Bytes>)
    ensures Concat(a + b) == Concat(a) + Concat(b)
  {
    if a == [] {
      assert a + b == b;
    } else {
      assert (a + b)[1..] == a[1..] + b;
      ConcatConcat(a[1..], b);
      Assoc(a[0], Concat(a[1..]), Concat(b));
    }
  }

  lemma ConcatOne(a: Bytes)
    ensures Concat([a]) == a
  {
    assert Concat([a]) == a + [];
  }

  lemma {:induction false} CompactIsTokens(v: Value, level: nat, d: nat)
    requires Shaped(v, d)
    ensures Emit(v, level, false) == Concat(Tokens(v))
    decreases v, 4
  {
    match v
    case Null => ConcatOne(NULL_TOKEN);
    case Bool(b) => ConcatOne(if b then TRUE_TOKEN else FALSE_TOKEN);
    case Num(n) => ConcatOne(PrintInt(n));
    case Str(s) => ConcatOne(Quote(s));
    case Arr(items, _) =>
      CompactItems(items, 0, level, d + 1);
      CompactContainer(LBRACKET, EmitItems(items, 0, level, false), ItemTokens(items, 0), RBRACKET, level);
    case Obj(members, _) =>
      CompactMembers(members, 0, level, d + 1);
      CompactContainer(LBRACE, EmitMembers(members, 0, level, false), MemberTokens(members, 0), RBRACE, level);
  }

  lemma CompactContainer(open: byte, entries: Bytes, toks: seq<Bytes>, close: byte, level: nat)
    requires entries == Concat(toks)
    ensures Container(open, entries, close, false, level) == Concat([[open]] + toks + [[close]])
  {
    ConcatOne([open]);
    ConcatOne([close]);
    ConcatConcat([[open]], toks);
    ConcatConcat([[open]] + toks, [[close]]);
  }

  lemma CompactEntry(front: Bytes, toks: seq<Bytes>, v: Value, level: nat, last: bool)
    requires front == Concat(toks) && Emit(v, level, false) == Concat(Tokens(v))
    ensures front + Emit(v, level, false) + EntryEnd(last, false) == Concat(toks + Tokens(v) + CommaTokens(last))
  {
    ConcatOne([COMMA]);
    assert EntryEnd(last, false) == Concat(CommaTokens(last));
    ConcatConcat(toks, Tokens(v));
    ConcatConcat(toks + Tokens(v), CommaTokens(last));
  }

  lemma {:induction false} CompactItems(items: seq<Value>, k: nat, level: nat, d: nat)
    requires k <= |items| && forall j :: 0 <= j < |items| ==> Shaped(items[j], d)
    ensures EmitItems(items, k, level, false) == Concat(ItemTokens(items, k))
    decreases items, 0, |items| - k
  {
    if k < |items| {
      var last := k == |items| - 1;
      CompactIsTokens(items[k], level + 1, d);
      CompactEntry([], [], items[k], level + 1, last);
      CompactItems(items, k + 1, level, d);
      assert [] + Tokens(items[k]) == Tokens(items[k]);
      ConcatConcat(Tokens(items[k]) + CommaTokens(last), ItemTokens(items, k + 1));
    }
  }

  lemma {:induction false} CompactMembers(members: seq<Member>, k: nat, level: nat, d: nat)
    requires k <= |members| && Distinct(members)
    requires forall j :: 0 <= j < |members| ==> Shaped(members[j].value, d)
    ensures EmitMembers(members, k, level, false) == Concat(MemberTokens(members, k))
    decreases members, 0, |members| - k
  {
    if k < |members| {
      var last, name, v := k == |members| - 1, members[k].name, members[k].value;
      FindDistinct(members, k);
      CompactIsTokens(v, level + 1, d);
      var key := [Quote(name), [COLON]];
      CompactKey(name, level + 1);
      CompactEntry(KeyText(name, level + 1, false), key, v, level + 1, last);
      CompactMembers(members, k + 1, level, d);
      ConcatConcat(key + Tokens(v) + CommaTokens(last), MemberTokens(members, k + 1));
    }
  }

  lemma CompactKey(name: Bytes, level: nat)
    ensures KeyText(name, level, false) == Concat([Quote(name), [COLON]])
  {
    assert [Quote(name), [COLON]] == [Quote(name)] + [[COLON]];
    ConcatOne(Quote(name));
    ConcatOne([COLON]);
    ConcatConcat([Quote(name)], [[COLON]]);
    assert KeyText(name, level, false) == Quote(name) + [COLON];
  }

  /** Pretty output without the white space outside strings is the compact output. */
  lemma PrettyIsSpacedCompact(v: Value, level: nat)
    requires Shaped(v, 0) && Small(v)
    ensures Strip(Emit(v, level, true), false, false) == Emit(v, 0, false)
  {
    EmitSpaced(v, level, true, 0);
    StripSpaced(Emit(v, level, true), Tokens(v));
    CompactIsTokens(v, 0, 0);
  }

  // ----- the byte in front of a member name -----

  lemma {:induction false} SkipQuotesBehind(t: Bytes, u: Bytes, i: nat)
    requires |t| == |u| && i <= |t| && forall k :: i <= k < |t| ==> t[k] == u[k]
    ensures SkipQuotes(t, i) == SkipQuotes(u, i)
    decreases |t| - i
  {
    if i < |t| && t[i] != QUOTE && t[i] != NUL {
      SkipQuotesBehind(t, u, i + 1);
      if i + 1 < |t| {
        SkipQuotesBehind(t, u, i + 2);
      }
    }
  }

  /** A name is read the same whatever stands where its opening quote should be. */
  lemma OpeningQuoteIgnored(t: Bytes, i: nat, b: byte)
    requires i < |t|
    ensures GetQuoted(t[i := b], i) == GetQuoted(t, i)
  {
    var u := t[i := b];
    SkipQuotesBehind(t, u, i + 1);
    var e := SkipQuotes(t, i + 1).end;
    if Peek(t, e) != NUL {
      assert t[i + 1..e - 1] == u[i + 1..e - 1];
    }
  }

  const UNQUOTED: Bytes := [LBRACE, 120, 97, QUOTE, COLON, 49, RBRACE]

  lemma UnquotedName()
    ensures GetQuoted(UNQUOTED, 1) == AString([97], 4)
  {
    var t := UNQUOTED;
    assert SkipQuotes(t, 3) == Scan(4, true);
    assert SkipQuotes(t, 2) == Scan(4, true);
    assert t[2..3] == [97];
    assert Decode([97]) == Prepend([97], Decode([]));
    assert CString([97]) == [97] + CString([]);
  }

  /** The text `{xa":1}` is taken as an object with the member `a`. */
  lemma UnquotedNameParses()
    ensures ParseString(UNQUOTED) == Some(Obj([Member([97], Num(1))], 1))
  {
    var t, empty := UNQUOTED, Table([], 0);
    var one := [Member([97], Num(1))];
    UnquotedName();
    assert PrintInt(1) == [49] && t[5..6] == [49];
    ParsePrinted(t, 5, 1);
    assert ParseValue(t, 5, 1) == Done(Num(1), 6);
    MemberUnfold(t, 1, 1, empty, [97], 5, Done(Num(1), 6));
    assert empty.members + one == one;
    assert Add(empty, [97], Some(Num(1))) == (true, Table(one, STARTING_CAPACITY));
    assert FinishObject(t, 6, Table(one, STARTING_CAPACITY)) == Done(Obj(one, 1), 7);
    assert ParseMembers(t, 1, 1, empty) == Done(Obj(one, 1), 7);
    assert ParseObject(t, 0, 1) == Done(Obj(one, 1), 7);
  }
}
