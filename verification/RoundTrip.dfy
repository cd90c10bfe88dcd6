/** Parsing what was serialised gives the value back, or refuses exactly the unclean values. */
module RoundTrip {
  import opened Text
  import opened Decimal
  import opened Strings
  import opened Values
  import opened ObjectStore
  import opened ArrayStore
  import opened Parser
  import opened Layout

  // ----- numbers -----

  lemma {:induction false} DigitsEndAt(t: Bytes, i: nat, e: nat)
    requires i <= e <= |t| && !IsDigit(Peek(t, e))
    requires forall k :: i <= k < e ==> IsDigit(t[k])
    ensures DigitsEnd(t, i) == e
    decreases e - i
  {
    if i < e {
      DigitsEndAt(t, i + 1, e);
    }
  }

  /** A byte that neither prolongs a numeral nor makes it hexadecimal. */
  predicate EndsNumber(b: byte) {
    !IsDigit(b) && !IsHexMark(b)
  }

  lemma PrintedNotHex(t: Bytes, i: nat, n: nat)
    requires StandsAt(t, i, PrintNat(n)) && EndsNumber(Peek(t, i + |PrintNat(n)|))
    ensures !HexAt(t, i)
  {
    PrintNatDigits(n);
    PrefixHead(t, i, PrintNat(n));
  }

  /** Digits without a leading zero, up to a byte that is no digit. */
  lemma ScanDigits(t: Bytes, i: nat, n: nat)
    requires StandsAt(t, i, PrintNat(n)) && !IsDigit(Peek(t, i + |PrintNat(n)|)) && !HexAt(t, i)
    ensures Magnitude(t, i) == (n, i + |PrintNat(n)|)
  {
    var s, e := PrintNat(n), i + |PrintNat(n)|;
    PrintNatDigits(n);
    assert forall k :: i <= k < e ==> t[k] == s[k - i];
    DigitsEndAt(t, i, e);
  }

  lemma ScanPrinted(t: Bytes, i: nat, n: nat)
    requires StandsAt(t, i, PrintNat(n)) && EndsNumber(Peek(t, i + |PrintNat(n)|))
    ensures Magnitude(t, i) == (n, i + |PrintNat(n)|)
  {
    PrintedNotHex(t, i, n);
    ScanDigits(t, i, n);
  }

  lemma PrintedIsDecimal(n: int)
    ensures IsDecimal(PrintInt(n)) && (PrintInt(n)[0] == MINUS || IsDigit(PrintInt(n)[0]))
    ensures n >= 0 ==> IsDigit(PrintInt(n)[0])
  {
    PrintNatDigits(if n < 0 then -n else n);
  }

  lemma ParsePrinted(t: Bytes, i: nat, n: int)
    requires StandsAt(t, i, PrintInt(n)) && EndsNumber(Peek(t, i + |PrintInt(n)|))
    ensures ParseNumber(t, i) == Done(Num(n), i + |PrintInt(n)|)
    ensures t[i] == MINUS || IsDigit(t[i])
  {
    PrintedIsDecimal(n);
    assert t[i] == t[i..i + |PrintInt(n)|][0];
    if n < 0 {
      StandsAtConcat(t, i, [MINUS], PrintNat(-n));
      ScanPrinted(t, i + 1, -n);
    } else {
      ScanPrinted(t, i, n);
    }
  }

  // ----- strings -----

  lemma ParseQuoted(t: Bytes, i: nat, s: Bytes)
    requires NUL !in s && StandsAt(t, i, Quote(s)) && Peek(t, i + |Quote(s)|) != NUL
    ensures i < |t| && t[i] == QUOTE
    ensures GetQuoted(t, i) == if CleanString(s) then AString(s, i + |Quote(s)|) else NoString
  {
    var raw, e := EscapeAll(s), i + |Quote(s)|;
    StandsAtConcat(t, i, [QUOTE] + raw, [QUOTE]);
    StandsAtConcat(t, i, [QUOTE], raw);
    assert t[i + 1..e - 1] == raw && t[e - 1] == [QUOTE][0];
    DecodeEscapeAll(s);
    SkipQuotesIsBalanced(t, i + 1, e);
  }

  // ----- what may follow a value -----

  /** Neither the end of the text nor part of a numeral. */
  predicate Boundary(t: Bytes, e: nat)
    requires e <= |t|
  {
    Peek(t, e) != NUL && EndsNumber(Peek(t, e))
  }

  lemma MarkIsBoundary(t: Bytes, i: nat, b: byte, toks: seq<Bytes>)
    requires i <= |t| && After(t, i, [[b]] + toks).Some? && b != NUL && EndsNumber(b)
    ensures Boundary(t, i)
  {
    assert ([[b]] + toks)[0] == [b];
  }

  /** The first byte of a value tells its kind. */
  lemma Head(v: Value)
    ensures Tokens(v) != [] && Tokens(v)[0] != []
    ensures var h := Tokens(v)[0][0];
      && (v.Null? ==> h == 110) && (v.Bool? ==> h == 116 || h == 102) && (v.Str? ==> h == QUOTE)
      && (v.Num? ==> h == MINUS || IsDigit(h)) && (v.Arr? ==> h == LBRACKET) && (v.Obj? ==> h == LBRACE)
  {
    if v.Num? {
      PrintNatDigits(if v.n < 0 then -v.n else v.n);
    }
  }

  // ----- the induction -----

  /** Parsing a laid-out value: the value in trimmed blocks, or a refusal if it is not clean. */
  lemma {:induction false} ParseLaid(v: Value, t: Bytes, i: nat, nesting: nat, e: nat)
    requires i <= |t| && Shaped(v, nesting) && After(t, i, Tokens(v)) == Some(e)
    requires v.Arr? || v.Obj? || Boundary(t, e)
    ensures ParseValue(t, i, nesting) == if Clean(v) then Done(Trim(v), e) else Fail
    decreases v, 2
  {
    Head(v);
    var p := SkipSpace(t, i);
    match v
    case Null => AfterOne(t, i, NULL_TOKEN, e);
    case Bool(b) => AfterOne(t, i, if b then TRUE_TOKEN else FALSE_TOKEN, e); BoolToken(t, p, b);
    case Num(n) => AfterOne(t, i, PrintInt(n), e); ParsePrinted(t, p, n);
    case Str(s) => AfterOne(t, i, Quote(s), e); ParseQuoted(t, p, s);
    case Arr(items, _) => ArrayLaid(v, t, i, nesting, e);
    case Obj(members, _) => ObjectLaid(v, t, i, nesting, e);
  }

  lemma BoolToken(t: Bytes, p: nat, b: bool)
    requires p <= |t| && StandsAt(t, p, if b then TRUE_TOKEN else FALSE_TOKEN)
    ensures ParseToken(t, p) == Done(Bool(b), p + if b then 4 else 5)
    ensures Peek(t, p) == if b then 116 else 102
  {
    var tok := if b then TRUE_TOKEN else FALSE_TOKEN;
    assert t[p] == t[p..p + |tok|][0];
    assert HasPrefix(t, p, TRUE_TOKEN) ==> t[p] == t[p..p + 4][0];
  }

  /** What the loops see behind a value: a comma and the next entry, or the closing bracket. */
  lemma AfterEntryLaid<T>(t: Bytes, b: nat, c: nat, m: nat, e: nat, last: bool, rest: seq<Bytes>, close: byte, next: T)
    requires b <= c <= m <= |t| && (last <==> rest == []) && (close == RBRACE || close == RBRACKET)
    requires After(t, b, CommaTokens(last)) == Some(c) && After(t, c, rest) == Some(m)
    requires After(t, m, [[close]]) == Some(e)
    ensures Boundary(t, b)
    ensures last ==>
              && AfterEntry(t, Next(next, b)) == Last(next, SkipSpace(t, b))
              && Peek(t, SkipSpace(t, b)) == close && e == SkipSpace(t, b) + 1
    ensures !last ==>
              && AfterEntry(t, Next(next, b)) == More(next, SkipSpace(t, c))
              && After(t, SkipSpace(t, c), rest) == Some(m) && SkipSpace(t, c) <= m
  {
    MarkIsBoundary(t, b, if last then close else COMMA, []);
    assert [[close]] + [] == [[close]] && [[COMMA]] + [] == [[COMMA]];
    if last {
      AfterMark(t, b, close, e);
    } else {
      AfterMark(t, b, COMMA, c);
      AfterSkip(t, c, rest);
    }
  }

  lemma OpensArray(t: Bytes, i: nat, nesting: nat, a: nat, q: nat)
    requires i <= |t| && nesting <= MAX_NESTING && Peek(t, SkipSpace(t, i)) == LBRACKET
    requires a == SkipSpace(t, i) + 1 && q == SkipSpace(t, a)
    ensures ParseValue(t, i, nesting) ==
            if Peek(t, q) == RBRACKET then Done(Arr([], 0), q + 1) else ParseItems(t, q, nesting + 1, Row([], 0))
  {}

  lemma OpensObject(t: Bytes, i: nat, nesting: nat, a: nat, q: nat)
    requires i <= |t| && nesting <= MAX_NESTING && Peek(t, SkipSpace(t, i)) == LBRACE
    requires a == SkipSpace(t, i) + 1 && q == SkipSpace(t, a)
    ensures ParseValue(t, i, nesting) ==
            if Peek(t, q) == RBRACE then Done(Obj([], 0), q + 1) else ParseMembers(t, q, nesting + 1, Table([], 0))
  {}

  lemma ArrayLaid(v: Value, t: Bytes, i: nat, nesting: nat, e: nat)
    requires v.Arr? && i <= |t| && Shaped(v, nesting) && After(t, i, Tokens(v)) == Some(e)
    ensures ParseValue(t, i, nesting) == if Clean(v) then Done(Trim(v), e) else Fail
    decreases v, 1
  {
    var items := v.items;
    var m := AfterSplit(t, i, [[LBRACKET]] + ItemTokens(items, 0), [[RBRACKET]], e);
    var a := AfterSplit(t, i, [[LBRACKET]], ItemTokens(items, 0), m);
    AfterMark(t, i, LBRACKET, a);
    var q := SkipSpace(t, a);
    OpensArray(t, i, nesting, a, q);
    if items == [] {
      AfterMark(t, a, RBRACKET, e);
    } else {
      Head(items[0]);
      ItemTokensHead(items, 0);
      AfterSkip(t, a, ItemTokens(items, 0));
      EntryStarts(t, q, ItemTokens(items, 0));
      ItemsLaid(items, 0, t, q, nesting + 1, Row([], 0), m, e);
    }
  }

  lemma ItemTokensHead(items: seq<Value>, k: nat)
    requires k < |items|
    ensures ItemTokens(items, k) != [] && ItemTokens(items, k)[0] == Tokens(items[k])[0] && Tokens(items[k]) != []
  {
    Head(items[k]);
  }

  /** One laid-out item up to the end of its value. */
  lemma ItemLaid(items: seq<Value>, k: nat, t: Bytes, i: nat, nesting: nat, sofar: Row, b: nat)
    requires k < |items| <= ARRAY_MAX_CAPACITY && Shaped(items[k], nesting)
    requires i <= b <= |t| && Boundary(t, b) && After(t, i, Tokens(items[k])) == Some(b)
    requires sofar.items == TrimItems(items)[..k] && OnLadder(sofar.cap) && k <= sofar.cap
    ensures ParseItem(t, i, nesting, sofar) ==
            if Clean(items[k]) then Next(NextRow(items, k, sofar), b) else Stop
    decreases items, 0, 0
  {
    ParseLaid(items[k], t, i, nesting, b);
    LadderGrows(sofar.cap);
    TakeNext(TrimItems(items), k);
    TrimItemsAt(items, k);
  }

  ghost function NextRow(items: seq<Value>, k: nat, sofar: Row): Row
    requires k < |items|
  {
    Row(TrimItems(items)[..k + 1], NextCap(sofar.cap, k))
  }

  /** The first byte of an entry is no white space and no NUL. */
  lemma EntryStarts(t: Bytes, i: nat, toks: seq<Bytes>)
    requires i <= |t| && SkipSpace(t, i) == i && After(t, i, toks).Some?
    requires toks != [] && toks[0] != [] && toks[0][0] != NUL
    ensures i < |t| && Peek(t, i) == toks[0][0]
  {
    assert t[i] == t[i..i + |toks[0]|][0];
  }

  lemma {:induction false} ItemsLaid(items: seq<Value>, k: nat, t: Bytes, i: nat, nesting: nat, sofar: Row, m: nat,
                                     e: nat)
    requires k < |items| <= ARRAY_MAX_CAPACITY
    requires forall j :: 0 <= j < |items| ==> Shaped(items[j], nesting)
    requires i <= m <= |t| && SkipSpace(t, i) == i
    requires After(t, i, ItemTokens(items, k)) == Some(m) && After(t, m, [[RBRACKET]]) == Some(e)
    requires sofar.items == TrimItems(items)[..k] && OnLadder(sofar.cap) && k <= sofar.cap
    ensures ParseItems(t, i, nesting, sofar) ==
            if CleanItems(items, k) then Done(Arr(TrimItems(items), |items|), e) else Fail
    decreases items, 0, |items| - k
  {
    var last, rest, next := k == |items| - 1, ItemTokens(items, k + 1), NextRow(items, k, sofar);
    var c := AfterSplit(t, i, Tokens(items[k]) + CommaTokens(last), rest, m);
    var b := AfterSplit(t, i, Tokens(items[k]), CommaTokens(last), c);
    if !last {
      ItemTokensHead(items, k + 1);
    }
    AfterEntryLaid(t, b, c, m, e, last, rest, RBRACKET, next);
    ItemTokensHead(items, k);
    Head(items[k]);
    EntryStarts(t, i, Tokens(items[k]));
    ItemLaid(items, k, t, i, nesting, sofar, b);
    ItemsUnfold(t, i, nesting, sofar, ParseItem(t, i, nesting, sofar));
    if Clean(items[k]) && last {
      FinishLaid(t, SkipSpace(t, b), TrimItems(items), next, e);
    } else if Clean(items[k]) {
      LadderNext(sofar.cap, k);
      ItemsLaid(items, k + 1, t, SkipSpace(t, c), nesting, next, m, e);
    }
  }

  lemma ItemsUnfold(t: Bytes, i: nat, nesting: nat, sofar: Row, step: Step<Row>)
    requires i < |t| && Peek(t, i) != NUL && step == ParseItem(t, i, nesting, sofar)
    ensures ParseItems(t, i, nesting, sofar) ==
            match AfterEntry(t, step)
            case Refused => Fail
            case More(next, pos) => ParseItems(t, pos, nesting, next)
            case Last(next, pos) => FinishArray(t, pos, next)
  {}

  lemma FinishLaid(t: Bytes, p: nat, all: seq<Value>, row: Row, e: nat)
    requires all != [] && p < |t| && Peek(t, p) == RBRACKET && e == p + 1
    requires row.items == all[..|all|]
    ensures FinishArray(t, p, row) == Done(Arr(all, |all|), e)
  {
    assert all[..|all|] == all;
  }

  lemma ObjectLaid(v: Value, t: Bytes, i: nat, nesting: nat, e: nat)
    requires v.Obj? && i <= |t| && Shaped(v, nesting) && After(t, i, Tokens(v)) == Some(e)
    ensures ParseValue(t, i, nesting) == if Clean(v) then Done(Trim(v), e) else Fail
    decreases v, 1
  {
    var members := v.members;
    var m := AfterSplit(t, i, [[LBRACE]] + MemberTokens(members, 0), [[RBRACE]], e);
    var a := AfterSplit(t, i, [[LBRACE]], MemberTokens(members, 0), m);
    AfterMark(t, i, LBRACE, a);
    var q := SkipSpace(t, a);
    OpensObject(t, i, nesting, a, q);
    if members == [] {
      AfterMark(t, a, RBRACE, e);
    } else {
      AfterSkip(t, a, MemberTokens(members, 0));
      EntryStarts(t, q, MemberTokens(members, 0));
      MembersLaid(members, 0, t, q, nesting + 1, Table([], 0), m, e);
    }
  }

  /** What becomes of the object after one laid-out member; `q` is where the loop goes on. */
  ghost predicate MemberGoes(members: seq<Member>, k: nat, t: Bytes, i: nat, nesting: nat, sofar: Table, m: nat, e: nat,
                             q: nat)
    requires k < |members| && i <= |t|
  {
    var all, next := ParseMembers(t, i, nesting, sofar), NextTable(members, k, sofar);
    if !(CleanString(members[k].name) && Clean(members[k].value)) then all == Fail
    else if k == |members| - 1 then q < |t| && all == FinishObject(t, q, next) && Peek(t, q) == RBRACE && e == q + 1
    else
      && q <= m <= |t| && all == ParseMembers(t, q, nesting, next) && SkipSpace(t, q) == q
      && After(t, q, MemberTokens(members, k + 1)) == Some(m)
  }

  lemma MemberEntry(members: seq<Member>, k: nat, t: Bytes, i: nat, nesting: nat, sofar: Table, m: nat, e: nat)
    returns (q: nat)
    requires k < |members| <= OBJECT_MAX_CAPACITY && Distinct(members)
    requires NUL !in members[k].name && Shaped(members[k].value, nesting)
    requires i <= m <= |t| && SkipSpace(t, i) == i
    requires After(t, i, MemberTokens(members, k)) == Some(m) && After(t, m, [[RBRACE]]) == Some(e)
    requires sofar.members == TrimMembers(members)[..k] && OnLadder(sofar.cap) && k <= sofar.cap
    ensures MemberGoes(members, k, t, i, nesting, sofar, m, e, q)
    decreases members, 0, 1
  {
    var last, rest, next := k == |members| - 1, MemberTokens(members, k + 1), NextTable(members, k, sofar);
    var entry := [Quote(members[k].name), [COLON]] + Tokens(members[k].value);
    var c := AfterSplit(t, i, entry + CommaTokens(last), rest, m);
    var b := AfterSplit(t, i, entry, CommaTokens(last), c);
    AfterEntryLaid(t, b, c, m, e, last, rest, RBRACE, next);
    EntryStarts(t, i, entry);
    MemberLaid(members, k, t, i, nesting, sofar, b);
    MembersUnfold(t, i, nesting, sofar, ParseMember(t, i, nesting, sofar));
    q := SkipSpace(t, if last then b else c);
  }

  lemma {:induction false} MembersLaid(members: seq<Member>, k: nat, t: Bytes, i: nat, nesting: nat, sofar: Table,
                                       m: nat, e: nat)
    requires k < |members| <= OBJECT_MAX_CAPACITY && Distinct(members)
    requires forall j :: 0 <= j < |members| ==> NUL !in members[j].name && Shaped(members[j].value, nesting)
    requires i <= m <= |t| && SkipSpace(t, i) == i
    requires After(t, i, MemberTokens(members, k)) == Some(m) && After(t, m, [[RBRACE]]) == Some(e)
    requires sofar.members == TrimMembers(members)[..k] && OnLadder(sofar.cap) && k <= sofar.cap
    ensures ParseMembers(t, i, nesting, sofar) ==
            if CleanMembers(members, k) then Done(Obj(TrimMembers(members), |members|), e) else Fail
    decreases members, 0, |members| - k + 1
  {
    var q := MemberEntry(members, k, t, i, nesting, sofar, m, e);
    var next := NextTable(members, k, sofar);
    if CleanString(members[k].name) && Clean(members[k].value) {
      if k == |members| - 1 {
        FinishObjectLaid(t, q, TrimMembers(members), next, e);
      } else {
        LadderNext(sofar.cap, k);
        MembersLaid(members, k + 1, t, q, nesting, next, m, e);
      }
    }
  }

  lemma MembersUnfold(t: Bytes, i: nat, nesting: nat, sofar: Table, step: Step<Table>)
    requires i < |t| && Peek(t, i) != NUL && step == ParseMember(t, i, nesting, sofar)
    ensures ParseMembers(t, i, nesting, sofar) ==
            match AfterEntry(t, step)
            case Refused => Fail
            case More(next, pos) => ParseMembers(t, pos, nesting, next)
            case Last(next, pos) => FinishObject(t, pos, next)
  {}

  lemma FinishObjectLaid(t: Bytes, p: nat, all: seq<Member>, table: Table, e: nat)
    requires all != [] && p < |t| && Peek(t, p) == RBRACE && e == p + 1
    requires table.members == all[..|all|]
    ensures FinishObject(t, p, table) == Done(Obj(all, |all|), e)
  {
    assert all[..|all|] == all;
  }

  ghost function NextTable(members: seq<Member>, k: nat, sofar: Table): Table
    requires k < |members|
  {
    Table(TrimMembers(members)[..k + 1], NextCap(sofar.cap, k))
  }

  lemma NotAddedYet(members: seq<Member>, k: nat)
    requires k < |members| && Distinct(members)
    ensures Find(TrimMembers(members)[..k], members[k].name) == k
  {
    var before := TrimMembers(members)[..k];
    forall j | 0 <= j < k ensures before[j].name != members[k].name {
      TrimMembersAt(members, j);
    }
    FindIs(before, members[k].name, k);
  }

  /** Adding a new name to a block that grew from empty is never refused below the cap. */
  lemma AddFresh(t: Table, m: Member)
    requires !Has(t.members, m.name) && |t.members| < OBJECT_MAX_CAPACITY
    requires OnLadder(t.cap) && |t.members| <= t.cap
    ensures Add(t, m.name, Some(m.value)) == (true, Table(t.members + [m], NextCap(t.cap, |t.members|)))
  {
    LadderGrows(t.cap);
  }

  /** Adding the next member of an object with distinct names to the ones before it. */
  lemma AddNext(members: seq<Member>, k: nat, sofar: Table)
    requires k < |members| <= OBJECT_MAX_CAPACITY && Distinct(members)
    requires sofar.members == TrimMembers(members)[..k] && OnLadder(sofar.cap) && k <= sofar.cap
    ensures Add(sofar, members[k].name, Some(Trim(members[k].value))) == (true, NextTable(members, k, sofar))
  {
    TakeNext(TrimMembers(members), k);
    TrimMembersAt(members, k);
    NotAddedYet(members, k);
    AddFresh(sofar, Member(members[k].name, Trim(members[k].value)));
  }

  /** One laid-out member up to the end of its value. */
  lemma MemberLaid(members: seq<Member>, k: nat, t: Bytes, i: nat, nesting: nat, sofar: Table, b: nat)
    requires k < |members| <= OBJECT_MAX_CAPACITY && Distinct(members)
    requires NUL !in members[k].name && Shaped(members[k].value, nesting)
    requires i <= b <= |t| && SkipSpace(t, i) == i && i < |t| && Boundary(t, b)
    requires After(t, i, [Quote(members[k].name), [COLON]] + Tokens(members[k].value)) == Some(b)
    requires sofar.members == TrimMembers(members)[..k] && OnLadder(sofar.cap) && k <= sofar.cap
    ensures ParseMember(t, i, nesting, sofar) ==
            if CleanString(members[k].name) && Clean(members[k].value)
            then Next(NextTable(members, k, sofar), b) else Stop
    decreases members, 0, 0
  {
    var name, v := members[k].name, members[k].value;
    var d := AfterSplit(t, i, [Quote(name), [COLON]], Tokens(v), b);
    KeyLaid(t, i, name, d);
    ParseLaid(v, t, d, nesting, b);
    AddNext(members, k, sofar);
    if CleanString(name) {
      MemberUnfold(t, i, nesting, sofar, name, d, ParseValue(t, d, nesting));
    }
  }

  lemma KeyLaid(t: Bytes, i: nat, name: Bytes, d: nat)
    requires i < |t| && SkipSpace(t, i) == i && NUL !in name
    requires After(t, i, [Quote(name), [COLON]]) == Some(d)
    ensures var key := GetQuoted(t, i);
            if CleanString(name) then
              key.AString? && key.s == name && Peek(t, SkipSpace(t, key.pos)) == COLON && SkipSpace(t, key.pos) + 1 == d
            else key.NoString?
  {
    assert [Quote(name), [COLON]] == [Quote(name)] + [[COLON]];
    var q := AfterSplit(t, i, [Quote(name)], [[COLON]], d);
    AfterOne(t, i, Quote(name), q);
    AfterMark(t, q, COLON, d);
    assert [[COLON]] + [] == [[COLON]];
    MarkIsBoundary(t, q, COLON, []);
    ParseQuoted(t, i, name);
  }
}
