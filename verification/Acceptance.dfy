/** The parser accepts exactly the texts of the grammar, within the limits on nesting, sizes and names. */
module Acceptance {
  import opened Text
  import opened Decimal
  import opened Strings
  import opened Literals
  import opened Values
  import opened ObjectStore
  import opened ArrayStore
  import opened Parser
  import opened ParserOutput
  import opened Pieces
  import opened RoundTrip
  import opened Grammar

  // ----- every text of the grammar is parsed to its meaning -----

  lemma TreeHead(tree: Tree)
    requires Valid(tree)
    ensures Written(tree) != []
    ensures var h := Written(tree)[0];
      && (tree.Word? ==> h == if tree.v.Null? then 110 else if tree.v.b then 116 else 102)
      && (tree.Numeral? ==> h == MINUS || IsDigit(h)) && (tree.Literal? ==> h == QUOTE)
      && (tree.List? ==> h == LBRACKET) && (tree.Record? ==> h == LBRACE)
  {
    match tree
    case Word(v) => WordsSpelled();
    case Numeral(n, s) => PrintedIsDecimal(n);
    case _ =>
  }

  /** White space in front of a byte that is none. */
  lemma SkipBlank(t: Bytes, a: nat, blank: Bytes, i: nat)
    requires StandsAt(t, a, blank) && Blank(blank) && i == a + |blank| && !IsSpace(Peek(t, i))
    ensures SkipSpace(t, a) == i
  {
    forall k | a <= k < i ensures IsSpace(t[k]) {
      assert t[k] == t[a..i][k - a];
    }
    SkipSpaceOver(t, a, i);
  }

  /** What stands between two bytes. */
  lemma Inside(t: Bytes, i: nat, first: byte, inside: Bytes, last: byte, e: nat)
    requires StandsAt(t, i, [first] + inside + [last]) && e == i + |inside| + 2
    ensures t[i] == first && t[i + 1..e - 1] == inside && t[e - 1] == last
  {
    StandsAtConcat(t, i, [first] + inside, [last]);
    StandsAtConcat(t, i, [first], inside);
    PrefixHead(t, i, [first]);
    PrefixHead(t, e - 1, [last]);
  }

  lemma QuotedScanned(t: Bytes, i: nat, d: Bytes, e: nat)
    requires i + 2 <= e < |t| && SkipQuotes(t, i + 1) == Scan(e, true) && t[e] != NUL
    requires Decode(t[i + 1..e - 1]) == Some(d)
    ensures GetQuoted(t, i) == AString(CString(d), e)
  {
    var raw := t[i + 1..SkipQuotes(t, i + 1).end - 1];
    var r := Decode(raw);
    assert r == Some(d);
  }

  /** A spelled literal is read as what it means, whatever byte stands first. */
  lemma QuotedParses(t: Bytes, i: nat, first: byte, cs: seq<Char>, e: nat)
    requires AllProper(cs) && StandsAt(t, i, [first] + SpelledAll(cs) + [QUOTE]) && e == i + |SpelledAll(cs)| + 2
    requires Peek(t, e) != NUL
    ensures i < |t| && GetQuoted(t, i) == AString(CString(MeantAll(cs)), e)
  {
    GrammarDecodes(cs);
    Inside(t, i, first, SpelledAll(cs), QUOTE, e);
    SkipQuotesIsBalanced(t, i + 1, e);
    QuotedScanned(t, i, MeantAll(cs), e);
  }

  lemma WordParses(v: Value, t: Bytes, p: nat)
    requires (v.Null? || v.Bool?) && StandsAt(t, p, WordText(v))
    ensures v.Null? ==> ParseNull(t, p) == Done(v, p + |WordText(v)|)
    ensures v.Bool? ==> ParseToken(t, p) == Done(v, p + |WordText(v)|)
  {
    WordsSpelled();
    if v.Bool? {
      BoolToken(t, p, v.b);
    }
  }

  lemma NumeralParses(n: int, s: Bytes, t: Bytes, p: nat, e: nat)
    requires SpellsInt(s, n) && s != [] && StandsAt(t, p, s) && e == p + |s| && EndsNumber(Peek(t, e))
    ensures ParseNumber(t, p) == Done(Num(n), e)
  {
    NumeralIsParsed(t, p, n, e);
  }

  /** The text of a tree at `i`, behind white space, up to `e`. */
  ghost predicate TreeAt(t: Bytes, i: nat, tree: Tree, e: nat) {
    && i <= |t| && Valid(tree) && StandsAt(t, SkipSpace(t, i), Written(tree))
    && e == SkipSpace(t, i) + |Written(tree)|
  }

  lemma {:induction false} TreeParses(tree: Tree, t: Bytes, i: nat, nesting: nat, e: nat)
    requires TreeAt(t, i, tree, e) && Shaped(Meaning(tree), nesting)
    requires tree.List? || tree.Record? || Boundary(t, e)
    ensures ParseValue(t, i, nesting) == Done(Meaning(tree), e)
    decreases tree, 2
  {
    var p := SkipSpace(t, i);
    TreeHead(tree);
    PrefixHead(t, p, Written(tree));
    match tree
    case Word(v) => WordParses(v, t, p);
    case Numeral(n, s) => NumeralParses(n, s, t, p, e);
    case Literal(cs) => QuotedParses(t, p, QUOTE, cs, e);
    case List(_, _) => ListParses(tree, t, i, nesting, e);
    case Record(_, _) => RecordParses(tree, t, i, nesting, e);
  }

  // arrays

  lemma EmptyListParses(t: Bytes, i: nat, nesting: nat, blank: Bytes, e: nat)
    requires i <= |t| && nesting <= MAX_NESTING && Peek(t, SkipSpace(t, i)) == LBRACKET && Blank(blank)
    requires StandsAt(t, SkipSpace(t, i) + 1, blank) && e == SkipSpace(t, i) + |blank| + 2 && Peek(t, e - 1) == RBRACKET
    ensures ParseValue(t, i, nesting) == Done(Arr([], 0), e)
  {
    var a := SkipSpace(t, i) + 1;
    SkipBlank(t, a, blank, e - 1);
    OpensArray(t, i, nesting, a, e - 1);
  }

  ghost predicate ItemsShaped(slots: seq<Slot>, nesting: nat)
    requires ValidSlots(slots)
  {
    slots == [] || (ValidSlot(slots[0]) && Shaped(Meaning(slots[0].item), nesting) && ItemsShaped(slots[1..], nesting))
  }

  lemma {:induction false} ShapedItems(slots: seq<Slot>, nesting: nat)
    requires ValidSlots(slots) && forall k :: 0 <= k < |slots| ==> Shaped(Items(slots)[k], nesting)
    ensures ItemsShaped(slots, nesting)
  {
    if slots != [] {
      assert Items(slots)[0] == Meaning(slots[0].item);
      forall k | 0 <= k < |slots[1..]| ensures Shaped(Items(slots[1..])[k], nesting) {
        assert Items(slots[1..])[k] == Items(slots)[k + 1];
      }
      ShapedItems(slots[1..], nesting);
    }
  }

  /** Slots that end at a closing bracket, with room for their items, and the array they complete. */
  ghost predicate SlotsAt(t: Bytes, a: nat, slots: seq<Slot>, nesting: nat, sofar: Row, r: Parse) {
    && slots != [] && ValidSlots(slots) && StandsAt(t, a, SlotsText(slots)) && ItemsShaped(slots, nesting)
    && a + |SlotsText(slots)| < |t| && t[a + |SlotsText(slots)|] == RBRACKET
    && OnLadder(sofar.cap) && |sofar.items| <= sofar.cap && |sofar.items| + |slots| <= ARRAY_MAX_CAPACITY
    && r == Done(Arr(sofar.items + Items(slots), |sofar.items| + |slots|), a + |SlotsText(slots)| + 1)
  }

  lemma ListBegins(tree: Tree, t: Bytes, i: nat, nesting: nat, e: nat)
    requires tree.List? && tree.slots != [] && TreeAt(t, i, tree, e) && Shaped(Meaning(tree), nesting)
    ensures nesting <= MAX_NESTING && SkipSpace(t, i) < |t| && t[SkipSpace(t, i)] == LBRACKET
    ensures SlotsAt(t, SkipSpace(t, i) + 1, tree.slots, nesting + 1, Row([], 0), Done(Meaning(tree), e))
  {
    Inside(t, SkipSpace(t, i), LBRACKET, SlotsText(tree.slots), RBRACKET, e);
    assert Meaning(tree) == Arr(Items(tree.slots), |tree.slots|);
    ShapedItems(tree.slots, nesting + 1);
    assert [] + Items(tree.slots) == Items(tree.slots);
  }

  lemma ListGoesOn(t: Bytes, i: nat, nesting: nat, a: nat, r: Parse)
    requires i <= |t| && nesting <= MAX_NESTING && Peek(t, SkipSpace(t, i)) == LBRACKET && a == SkipSpace(t, i) + 1
    requires Peek(t, SkipSpace(t, a)) != RBRACKET && ItemsTo(t, a, nesting + 1, Row([], 0), r)
    ensures ParseValue(t, i, nesting) == r
  {
    OpensArray(t, i, nesting, a, SkipSpace(t, a));
  }

  lemma ListParses(tree: Tree, t: Bytes, i: nat, nesting: nat, e: nat)
    requires tree.List? && TreeAt(t, i, tree, e) && Shaped(Meaning(tree), nesting)
    ensures ParseValue(t, i, nesting) == Done(Meaning(tree), e)
    decreases tree, 1
  {
    var p, r := SkipSpace(t, i), Done(Meaning(tree), e);
    if tree.slots == [] {
      Inside(t, p, LBRACKET, tree.blank, RBRACKET, e);
      EmptyListParses(t, i, nesting, tree.blank, e);
    } else {
      ListBegins(tree, t, i, nesting, e);
      SlotsParse(tree.slots, t, p + 1, nesting + 1, Row([], 0), r);
      ListGoesOn(t, i, nesting, p + 1, r);
    }
  }

  lemma SlotStands(t: Bytes, a: nat, slot: Slot, i: nat, b: nat)
    requires StandsAt(t, a, SlotText(slot)) && i == a + |slot.before| && b == i + |Written(slot.item)|
    ensures StandsAt(t, a, slot.before) && StandsAt(t, i, Written(slot.item)) && StandsAt(t, b, slot.after)
  {
    StandsAtConcat(t, a, slot.before + Written(slot.item), slot.after);
    StandsAtConcat(t, a, slot.before, Written(slot.item));
  }

  /** Where the parts of a slot stand, whatever byte ends it. */
  lemma SlotParts(t: Bytes, a: nat, slot: Slot, p: nat) returns (i: nat, b: nat)
    requires ValidSlot(slot) && StandsAt(t, a, SlotText(slot)) && p == a + |SlotText(slot)|
    requires Boundary(t, p) && !IsSpace(Peek(t, p))
    ensures a <= i && i == SkipSpace(t, a) && TreeAt(t, i, slot.item, b) && TreeAt(t, a, slot.item, b)
    ensures b <= p && SkipSpace(t, b) == p && Boundary(t, b)
  {
    i, b := a + |slot.before|, p - |slot.after|;
    SlotStands(t, a, slot, i, b);
    TreeHead(slot.item);
    PrefixHead(t, i, Written(slot.item));
    SkipBlank(t, a, slot.before, i);
    SkipBlank(t, b, slot.after, p);
    if slot.after != [] {
      PrefixHead(t, b, slot.after);
    }
    SkipBlank(t, i, [], i);
  }

  /** A slot that ends at `p`, and the row with its item. */
  ghost predicate SlotAt(slot: Slot, t: Bytes, a: nat, nesting: nat, sofar: Row, p: nat, next: Row) {
    && ValidSlot(slot) && StandsAt(t, a, SlotText(slot)) && p == a + |SlotText(slot)| && p < |t|
    && (t[p] == COMMA || t[p] == RBRACKET) && Shaped(Meaning(slot.item), nesting)
    && Push(sofar, Meaning(slot.item)) == (true, next)
  }

  lemma SlotsHead(slots: seq<Slot>)
    requires slots != [] && ValidSlots(slots)
    ensures ValidSlot(slots[0]) && Items(slots) == [Meaning(slots[0].item)] + Items(slots[1..])
    ensures SlotsText(slots) == SlotText(slots[0]) + if |slots| == 1 then [] else [COMMA] + SlotsText(slots[1..])
  {}

  lemma RowWith(sofar: Row, v: Value) returns (next: Row)
    requires OnLadder(sofar.cap) && |sofar.items| <= sofar.cap && |sofar.items| < ARRAY_MAX_CAPACITY
    ensures Push(sofar, v) == (true, next) && next.items == sofar.items + [v]
    ensures OnLadder(next.cap) && |next.items| <= next.cap
  {
    next := Row(sofar.items + [v], NextCap(sofar.cap, |sofar.items|));
    LadderGrows(sofar.cap);
    LadderNext(sofar.cap, |sofar.items|);
  }

  lemma LastSlot(t: Bytes, a: nat, slots: seq<Slot>, nesting: nat, sofar: Row, r: Parse) returns (p: nat, next: Row)
    requires SlotsAt(t, a, slots, nesting, sofar, r) && |slots| == 1
    ensures SlotAt(slots[0], t, a, nesting, sofar, p, next) && t[p] == RBRACKET
    ensures next.items != [] && r == Done(Arr(next.items, |next.items|), p + 1)
  {
    SlotsHead(slots);
    assert SlotText(slots[0]) + [] == SlotText(slots[0]);
    next := RowWith(sofar, Meaning(slots[0].item));
    p := a + |SlotText(slots[0])|;
    assert [Meaning(slots[0].item)] + Items(slots[1..]) == [Meaning(slots[0].item)];
  }

  lemma SlotsRest(t: Bytes, a: nat, slots: seq<Slot>, nesting: nat, sofar: Row, r: Parse, p: nat, next: Row)
    requires SlotsAt(t, a, slots, nesting, sofar, r) && |slots| > 1 && p == a + |SlotText(slots[0])|
    requires ValidSlot(slots[0]) && next.items == sofar.items + [Meaning(slots[0].item)]
    requires OnLadder(next.cap) && |next.items| <= next.cap
    requires p < |t| && StandsAt(t, p + 1, SlotsText(slots[1..]))
    ensures SlotsAt(t, p + 1, slots[1..], nesting, next, r)
  {
    SlotsHead(slots);
    Assoc(sofar.items, [Meaning(slots[0].item)], Items(slots[1..]));
  }

  lemma NextSlot(t: Bytes, a: nat, slots: seq<Slot>, nesting: nat, sofar: Row, r: Parse) returns (p: nat, next: Row)
    requires SlotsAt(t, a, slots, nesting, sofar, r) && |slots| > 1
    ensures SlotAt(slots[0], t, a, nesting, sofar, p, next) && t[p] == COMMA
    ensures SlotsAt(t, p + 1, slots[1..], nesting, next, r)
  {
    SlotsHead(slots);
    next := RowWith(sofar, Meaning(slots[0].item));
    p := a + |SlotText(slots[0])|;
    CommaParts(t, a, SlotText(slots[0]), SlotsText(slots[1..]));
    SlotsRest(t, a, slots, nesting, sofar, r, p, next);
  }

  lemma CommaParts(t: Bytes, a: nat, x: Bytes, y: Bytes)
    requires StandsAt(t, a, x + ([COMMA] + y))
    ensures StandsAt(t, a, x) && t[a + |x|] == COMMA && StandsAt(t, a + |x| + 1, y)
  {
    StandsAtConcat(t, a, x, [COMMA] + y);
    StandsAtConcat(t, a + |x|, [COMMA], y);
    PrefixHead(t, a + |x|, [COMMA]);
  }

  /** What the loops do behind an entry. */
  lemma EntryGoesOn<T>(t: Bytes, next: T, b: nat, p: nat)
    requires b <= |t| && p == SkipSpace(t, b)
    ensures AfterEntry(t, Next(next, b)) ==
            if Peek(t, p) == COMMA then More(next, SkipSpace(t, p + 1)) else Last(next, p)
  {}

  /** What the array is, once the item up to the byte at `p` has been added. */
  ghost predicate ItemsGoOn(t: Bytes, a: nat, nesting: nat, sofar: Row, p: nat, next: Row)
    requires a <= |t| && p < |t|
  {
    ParseItems(t, SkipSpace(t, a), nesting, sofar) ==
    if t[p] == COMMA then ParseItems(t, SkipSpace(t, p + 1), nesting, next) else FinishArray(t, p, next)
  }

  lemma ItemGoesOn(t: Bytes, i: nat, nesting: nat, sofar: Row, v: Value, b: nat, p: nat, next: Row)
    requires i < |t| && t[i] != NUL && ParseValue(t, i, nesting) == Done(v, b)
    requires Push(sofar, v) == (true, next) && b <= |t| && p == SkipSpace(t, b) && p < |t|
    ensures ParseItems(t, i, nesting, sofar) ==
            if t[p] == COMMA then ParseItems(t, SkipSpace(t, p + 1), nesting, next) else FinishArray(t, p, next)
  {
    ItemUnfold(t, i, nesting, sofar, Done(v, b));
    EntryGoesOn(t, next, b, p);
    ItemsUnfold(t, i, nesting, sofar, Next(next, b));
  }

  lemma ItemsEnd(t: Bytes, a: nat, nesting: nat, sofar: Row, p: nat, next: Row)
    requires a <= |t| && p < |t| && ItemsGoOn(t, a, nesting, sofar, p, next) && t[p] == RBRACKET && next.items != []
    ensures ItemsTo(t, a, nesting, sofar, Done(Arr(next.items, |next.items|), p + 1))
  {
    assert SkipSpace(t, p) == p;
  }

  lemma ItemsGo(t: Bytes, a: nat, nesting: nat, sofar: Row, p: nat, next: Row, r: Parse)
    requires a <= |t| && p < |t| && ItemsGoOn(t, a, nesting, sofar, p, next) && t[p] == COMMA
    requires ItemsTo(t, p + 1, nesting, next, r)
    ensures ItemsTo(t, a, nesting, sofar, r)
  {}

  /** One slot is parsed, and the rest of the array is what is parsed behind it. */
  lemma SlotParses(slot: Slot, t: Bytes, a: nat, nesting: nat, sofar: Row, p: nat, next: Row)
    requires SlotAt(slot, t, a, nesting, sofar, p, next)
    ensures Peek(t, SkipSpace(t, a)) != RBRACKET && ItemsGoOn(t, a, nesting, sofar, p, next)
    decreases slot, 3
  {
    var i, b := SlotParts(t, a, slot, p);
    TreeParses(slot.item, t, i, nesting, b);
    TreeHead(slot.item);
    PrefixHead(t, i, Written(slot.item));
    ItemGoesOn(t, i, nesting, sofar, Meaning(slot.item), b, p, next);
  }

  lemma {:induction false} SlotsParse(slots: seq<Slot>, t: Bytes, a: nat, nesting: nat, sofar: Row, r: Parse)
    requires SlotsAt(t, a, slots, nesting, sofar, r)
    ensures a <= |t| && Peek(t, SkipSpace(t, a)) != RBRACKET && ItemsTo(t, a, nesting, sofar, r)
    decreases slots, 0
  {
    if |slots| == 1 {
      var p, next := LastSlot(t, a, slots, nesting, sofar, r);
      SlotParses(slots[0], t, a, nesting, sofar, p, next);
      ItemsEnd(t, a, nesting, sofar, p, next);
    } else {
      var p, next := NextSlot(t, a, slots, nesting, sofar, r);
      SlotParses(slots[0], t, a, nesting, sofar, p, next);
      SlotsParse(slots[1..], t, p + 1, nesting, next, r);
      ItemsGo(t, a, nesting, sofar, p, next, r);
    }
  }

  // objects

  lemma EmptyRecordParses(t: Bytes, i: nat, nesting: nat, blank: Bytes, e: nat)
    requires i <= |t| && nesting <= MAX_NESTING && Peek(t, SkipSpace(t, i)) == LBRACE && Blank(blank)
    requires StandsAt(t, SkipSpace(t, i) + 1, blank) && e == SkipSpace(t, i) + |blank| + 2 && Peek(t, e - 1) == RBRACE
    ensures ParseValue(t, i, nesting) == Done(Obj([], 0), e)
  {
    var a := SkipSpace(t, i) + 1;
    SkipBlank(t, a, blank, e - 1);
    OpensObject(t, i, nesting, a, e - 1);
  }

  ghost predicate MembersShaped(pairs: seq<Named>, nesting: nat)
    requires ValidPairs(pairs)
  {
    || pairs == []
    || (ValidPair(pairs[0]) && Shaped(MemberOf(pairs[0]).value, nesting) && MembersShaped(pairs[1..], nesting))
  }

  lemma {:induction false} ShapedMembers(pairs: seq<Named>, nesting: nat)
    requires ValidPairs(pairs) && forall k :: 0 <= k < |pairs| ==> Shaped(Members(pairs)[k].value, nesting)
    ensures MembersShaped(pairs, nesting)
  {
    if pairs != [] {
      assert Members(pairs)[0] == MemberOf(pairs[0]);
      forall k | 0 <= k < |pairs[1..]| ensures Shaped(Members(pairs[1..])[k].value, nesting) {
        assert Members(pairs[1..])[k] == Members(pairs)[k + 1];
      }
      ShapedMembers(pairs[1..], nesting);
    }
  }

  /** Pairs that end at a closing brace, with room for their new names, and the object they complete. */
  ghost predicate PairsAt(t: Bytes, a: nat, pairs: seq<Named>, nesting: nat, sofar: Table, r: Parse) {
    && pairs != [] && ValidPairs(pairs) && StandsAt(t, a, PairsText(pairs)) && MembersShaped(pairs, nesting)
    && a + |PairsText(pairs)| < |t| && t[a + |PairsText(pairs)|] == RBRACE
    && OnLadder(sofar.cap) && |sofar.members| <= sofar.cap && |sofar.members| + |pairs| <= OBJECT_MAX_CAPACITY
    && Distinct(sofar.members + Members(pairs))
    && r == Done(Obj(sofar.members + Members(pairs), |sofar.members| + |pairs|), a + |PairsText(pairs)| + 1)
  }

  lemma RecordBegins(tree: Tree, t: Bytes, i: nat, nesting: nat, e: nat)
    requires tree.Record? && tree.pairs != [] && TreeAt(t, i, tree, e) && Shaped(Meaning(tree), nesting)
    ensures nesting <= MAX_NESTING && SkipSpace(t, i) < |t| && t[SkipSpace(t, i)] == LBRACE
    ensures PairsAt(t, SkipSpace(t, i) + 1, tree.pairs, nesting + 1, Table([], 0), Done(Meaning(tree), e))
  {
    Inside(t, SkipSpace(t, i), LBRACE, PairsText(tree.pairs), RBRACE, e);
    assert Meaning(tree) == Obj(Members(tree.pairs), |tree.pairs|);
    ShapedMembers(tree.pairs, nesting + 1);
    assert [] + Members(tree.pairs) == Members(tree.pairs);
  }

  lemma RecordGoesOn(t: Bytes, i: nat, nesting: nat, a: nat, r: Parse)
    requires i <= |t| && nesting <= MAX_NESTING && Peek(t, SkipSpace(t, i)) == LBRACE && a == SkipSpace(t, i) + 1
    requires Peek(t, SkipSpace(t, a)) != RBRACE && MembersTo(t, a, nesting + 1, Table([], 0), r)
    ensures ParseValue(t, i, nesting) == r
  {
    OpensObject(t, i, nesting, a, SkipSpace(t, a));
  }

  lemma RecordParses(tree: Tree, t: Bytes, i: nat, nesting: nat, e: nat)
    requires tree.Record? && TreeAt(t, i, tree, e) && Shaped(Meaning(tree), nesting)
    ensures ParseValue(t, i, nesting) == Done(Meaning(tree), e)
    decreases tree, 1
  {
    var p, r := SkipSpace(t, i), Done(Meaning(tree), e);
    if tree.pairs == [] {
      Inside(t, p, LBRACE, tree.blank, RBRACE, e);
      EmptyRecordParses(t, i, nesting, tree.blank, e);
    } else {
      RecordBegins(tree, t, i, nesting, e);
      PairsBegin(t, p + 1, tree.pairs, nesting + 1, Table([], 0), r);
      PairsParse(tree.pairs, t, p + 1, nesting + 1, Table([], 0), r);
      RecordGoesOn(t, i, nesting, p + 1, r);
    }
  }

  /** A pair that ends at `p`, and the table with its member. */
  ghost predicate PairAt(pair: Named, t: Bytes, a: nat, nesting: nat, sofar: Table, p: nat, next: Table) {
    && ValidPair(pair) && StandsAt(t, a, PairText(pair)) && p == a + |PairText(pair)| && p < |t|
    && (t[p] == COMMA || t[p] == RBRACE) && Shaped(MemberOf(pair).value, nesting)
    && Add(sofar, MemberOf(pair).name, Some(MemberOf(pair).value)) == (true, next)
  }

  lemma PairsHead(pairs: seq<Named>)
    requires pairs != [] && ValidPairs(pairs)
    ensures ValidPair(pairs[0]) && Members(pairs) == [MemberOf(pairs[0])] + Members(pairs[1..])
    ensures PairsText(pairs) == PairText(pairs[0]) + if |pairs| == 1 then [] else [COMMA] + PairsText(pairs[1..])
  {}

  lemma TableWith(sofar: Table, m: Member, more: seq<Member>) returns (next: Table)
    requires OnLadder(sofar.cap) && |sofar.members| <= sofar.cap && |sofar.members| < OBJECT_MAX_CAPACITY
    requires Distinct(sofar.members + ([m] + more))
    ensures Add(sofar, m.name, Some(m.value)) == (true, next) && next.members == sofar.members + [m]
    ensures OnLadder(next.cap) && |next.members| <= next.cap
  {
    var all := sofar.members + ([m] + more);
    assert all[|sofar.members|] == m;
    assert forall k :: 0 <= k < |sofar.members| ==> all[k] == sofar.members[k];
    FindIs(sofar.members, m.name, |sofar.members|);
    AddFresh(sofar, m);
    next := Table(sofar.members + [m], NextCap(sofar.cap, |sofar.members|));
    LadderNext(sofar.cap, |sofar.members|);
  }

  lemma LastPair(t: Bytes, a: nat, pairs: seq<Named>, nesting: nat, sofar: Table, r: Parse)
    returns (p: nat, next: Table)
    requires PairsAt(t, a, pairs, nesting, sofar, r) && |pairs| == 1
    ensures PairAt(pairs[0], t, a, nesting, sofar, p, next) && t[p] == RBRACE
    ensures next.members != [] && r == Done(Obj(next.members, |next.members|), p + 1)
  {
    PairsHead(pairs);
    assert PairText(pairs[0]) + [] == PairText(pairs[0]);
    next := TableWith(sofar, MemberOf(pairs[0]), Members(pairs[1..]));
    p := a + |PairText(pairs[0])|;
    assert [MemberOf(pairs[0])] + Members(pairs[1..]) == [MemberOf(pairs[0])];
  }

  lemma PairsRest(t: Bytes, a: nat, pairs: seq<Named>, nesting: nat, sofar: Table, r: Parse, p: nat, next: Table)
    requires PairsAt(t, a, pairs, nesting, sofar, r) && |pairs| > 1 && p == a + |PairText(pairs[0])|
    requires next.members == sofar.members + [MemberOf(pairs[0])] && OnLadder(next.cap) && |next.members| <= next.cap
    requires p < |t| && StandsAt(t, p + 1, PairsText(pairs[1..]))
    ensures PairsAt(t, p + 1, pairs[1..], nesting, next, r)
  {
    PairsHead(pairs);
    Assoc(sofar.members, [MemberOf(pairs[0])], Members(pairs[1..]));
  }

  lemma NextPair(t: Bytes, a: nat, pairs: seq<Named>, nesting: nat, sofar: Table, r: Parse)
    returns (p: nat, next: Table)
    requires PairsAt(t, a, pairs, nesting, sofar, r) && |pairs| > 1
    ensures PairAt(pairs[0], t, a, nesting, sofar, p, next) && t[p] == COMMA
    ensures PairsAt(t, p + 1, pairs[1..], nesting, next, r)
  {
    PairsHead(pairs);
    next := TableWith(sofar, MemberOf(pairs[0]), Members(pairs[1..]));
    p := a + |PairText(pairs[0])|;
    CommaParts(t, a, PairText(pairs[0]), PairsText(pairs[1..]));
    PairsRest(t, a, pairs, nesting, sofar, r, p, next);
  }

  /** What the object is, once the member up to the byte at `p` has been added. */
  ghost predicate MembersGoOn(t: Bytes, a: nat, nesting: nat, sofar: Table, p: nat, next: Table)
    requires a <= |t| && p < |t|
  {
    ParseMembers(t, SkipSpace(t, a), nesting, sofar) ==
    if t[p] == COMMA then ParseMembers(t, SkipSpace(t, p + 1), nesting, next) else FinishObject(t, p, next)
  }

  /** Where the parts of a member stand. */
  ghost predicate KeyAt(t: Bytes, i: nat, name: Bytes, d: nat) {
    && i < |t| && t[i] != NUL && d <= |t|
    && GetQuoted(t, i).AString? && GetQuoted(t, i).s == name
    && Peek(t, SkipSpace(t, GetQuoted(t, i).pos)) == COLON && SkipSpace(t, GetQuoted(t, i).pos) + 1 == d
  }

  lemma MemberGoesOn(t: Bytes, i: nat, nesting: nat, sofar: Table, m: Member, d: nat, b: nat, p: nat, next: Table)
    requires KeyAt(t, i, m.name, d) && ParseValue(t, d, nesting) == Done(m.value, b)
    requires Add(sofar, m.name, Some(m.value)) == (true, next) && b <= |t| && p == SkipSpace(t, b) && p < |t|
    ensures ParseMembers(t, i, nesting, sofar) ==
            if t[p] == COMMA then ParseMembers(t, SkipSpace(t, p + 1), nesting, next) else FinishObject(t, p, next)
  {
    MemberUnfold(t, i, nesting, sofar, m.name, d, Done(m.value, b));
    EntryGoesOn(t, next, b, p);
    MembersUnfold(t, i, nesting, sofar, Next(next, b));
  }

  lemma MembersEnd(t: Bytes, a: nat, nesting: nat, sofar: Table, p: nat, next: Table)
    requires a <= |t| && p < |t| && MembersGoOn(t, a, nesting, sofar, p, next) && t[p] == RBRACE && next.members != []
    ensures MembersTo(t, a, nesting, sofar, Done(Obj(next.members, |next.members|), p + 1))
  {
    assert SkipSpace(t, p) == p;
  }

  lemma PairStands(t: Bytes, a: nat, pair: Named, name: Bytes, i: nat, k: nat, q: nat)
    requires StandsAt(t, a, PairText(pair)) && name == [pair.first] + SpelledAll(pair.name) + [QUOTE]
    requires i == a + |pair.before| && k == i + |name| && q == k + |pair.mid|
    ensures StandsAt(t, a, pair.before) && StandsAt(t, i, name) && StandsAt(t, k, pair.mid)
    ensures StandsAt(t, q, [COLON]) && StandsAt(t, q + 1, SlotText(pair.slot))
  {
    StandsAtConcat(t, a, pair.before + name + pair.mid + [COLON], SlotText(pair.slot));
    StandsAtConcat(t, a, pair.before + name + pair.mid, [COLON]);
    StandsAtConcat(t, a, pair.before + name, pair.mid);
    StandsAtConcat(t, a, pair.before, name);
  }

  /** White space in front of a text ends where the text begins. */
  lemma SkipTo(t: Bytes, a: nat, blank: Bytes, i: nat, text: Bytes)
    requires StandsAt(t, a, blank) && Blank(blank) && i == a + |blank| && StandsAt(t, i, text)
    requires text != [] && !IsSpace(text[0])
    ensures i < |t| && t[i] == text[0] && SkipSpace(t, a) == i && (a < i ==> IsSpace(t[a]))
  {
    PrefixHead(t, i, text);
    SkipBlank(t, a, blank, i);
    if blank != [] {
      PrefixHead(t, a, blank);
    }
  }

  lemma KeyParses(t: Bytes, a: nat, pair: Named, i: nat, d: nat)
    requires ValidPair(pair) && StandsAt(t, a, PairText(pair))
    requires i == a + |pair.before| && d == i + |SpelledAll(pair.name)| + 2 + |pair.mid| + 1
    ensures i == SkipSpace(t, a) && KeyAt(t, i, MemberOf(pair).name, d) && t[i] == pair.first
    ensures StandsAt(t, d, SlotText(pair.slot))
  {
    var name := [pair.first] + SpelledAll(pair.name) + [QUOTE];
    var k := i + |name|;
    PairStands(t, a, pair, name, i, k, d - 1);
    SkipTo(t, a, pair.before, i, name);
    SkipTo(t, k, pair.mid, d - 1, [COLON]);
    QuotedParses(t, i, pair.first, pair.name, k);
  }

  /** One pair is parsed, and the rest of the object is what is parsed behind it. */
  lemma PairParses(pair: Named, t: Bytes, a: nat, nesting: nat, sofar: Table, p: nat, next: Table)
    requires PairAt(pair, t, a, nesting, sofar, p, next)
    ensures MembersGoOn(t, a, nesting, sofar, p, next)
    decreases pair, 3
  {
    var i, m := a + |pair.before|, MemberOf(pair);
    var d := i + |SpelledAll(pair.name)| + 2 + |pair.mid| + 1;
    KeyParses(t, a, pair, i, d);
    var _, b := SlotParts(t, d, pair.slot, p);
    TreeParses(pair.slot.item, t, d, nesting, b);
    MemberGoesOn(t, i, nesting, sofar, m, d, b, p, next);
  }

  /** The first pair, and the pairs behind its comma or the end of the object. */
  ghost predicate PairsSplit(t: Bytes, a: nat, pairs: seq<Named>, nesting: nat, sofar: Table, r: Parse, p: nat,
                             next: Table)
    requires pairs != []
  {
    && PairAt(pairs[0], t, a, nesting, sofar, p, next)
    && if |pairs| == 1 then t[p] == RBRACE && next.members != [] && r == Done(Obj(next.members, |next.members|), p + 1)
       else t[p] == COMMA && PairsAt(t, p + 1, pairs[1..], nesting, next, r)
  }

  lemma PairsStep(t: Bytes, a: nat, pairs: seq<Named>, nesting: nat, sofar: Table, r: Parse)
    returns (p: nat, next: Table)
    requires PairsAt(t, a, pairs, nesting, sofar, r)
    ensures PairsSplit(t, a, pairs, nesting, sofar, r, p, next)
  {
    if |pairs| == 1 {
      p, next := LastPair(t, a, pairs, nesting, sofar, r);
    } else {
      p, next := NextPair(t, a, pairs, nesting, sofar, r);
    }
  }

  lemma PairsBegin(t: Bytes, a: nat, pairs: seq<Named>, nesting: nat, sofar: Table, r: Parse)
    requires PairsAt(t, a, pairs, nesting, sofar, r)
    ensures a <= |t| && Peek(t, SkipSpace(t, a)) == pairs[0].first
  {
    var p, next := PairsStep(t, a, pairs, nesting, sofar, r);
    var i := a + |pairs[0].before|;
    KeyParses(t, a, pairs[0], i, i + |SpelledAll(pairs[0].name)| + 2 + |pairs[0].mid| + 1);
  }

  lemma MembersDone(t: Bytes, a: nat, nesting: nat, sofar: Table, r: Parse, p: nat, next: Table)
    requires a <= |t| && p < |t| && MembersGoOn(t, a, nesting, sofar, p, next)
    requires if t[p] == COMMA then MembersTo(t, p + 1, nesting, next, r)
             else t[p] == RBRACE && next.members != [] && r == Done(Obj(next.members, |next.members|), p + 1)
    ensures MembersTo(t, a, nesting, sofar, r)
  {
    if t[p] == RBRACE {
      MembersEnd(t, a, nesting, sofar, p, next);
    }
  }

  /** One round: the pair, the byte behind it, and what is left. */
  lemma PairRound(t: Bytes, a: nat, pairs: seq<Named>, nesting: nat, sofar: Table, r: Parse)
    returns (p: nat, next: Table, more: seq<Named>)
    requires a <= |t| && PairsAt(t, a, pairs, nesting, sofar, r)
    ensures p < |t| && MembersGoOn(t, a, nesting, sofar, p, next) && more == pairs[1..]
    ensures if t[p] == COMMA then PairsAt(t, p + 1, more, nesting, next, r)
            else t[p] == RBRACE && next.members != [] && r == Done(Obj(next.members, |next.members|), p + 1)
    decreases pairs, 0
  {
    p, next := PairsStep(t, a, pairs, nesting, sofar, r);
    PairParses(pairs[0], t, a, nesting, sofar, p, next);
    more := pairs[1..];
  }

  lemma {:induction false} PairsParse(pairs: seq<Named>, t: Bytes, a: nat, nesting: nat, sofar: Table, r: Parse)
    requires pairs != [] && a <= |t| && PairsAt(t, a, pairs, nesting, sofar, r)
    ensures MembersTo(t, a, nesting, sofar, r)
    decreases pairs, 1
  {
    var p, next, more := PairRound(t, a, pairs, nesting, sofar, r);
    if t[p] == COMMA {
      PairsParse(more, t, p + 1, nesting, next, r);
    }
    MembersDone(t, a, nesting, sofar, r, p, next);
  }

  // ----- acceptance is derivability -----

  /** White space, the text of a tree that means `v`, and anything behind it. */
  ghost predicate Spells(t: Bytes, tree: Tree, v: Value) {
    && Valid(tree) && (tree.List? || tree.Record?) && Meaning(tree) == v && Shaped(v, 0)
    && StandsAt(t, SkipSpace(t, 0), Written(tree))
  }

  lemma SpelledIsAccepted(t: Bytes, tree: Tree, v: Value)
    requires Spells(t, tree, v)
    ensures ParseString(t) == Some(v)
    ensures ParseValue(t, SkipSpace(t, 0), 0) == Done(v, SkipSpace(t, 0) + |Written(tree)|)
  {
    var p := SkipSpace(t, 0);
    TreeHead(tree);
    PrefixHead(t, p, Written(tree));
    assert SkipSpace(t, p) == p;
    TreeParses(tree, t, p, 0, p + |Written(tree)|);
  }

  lemma AcceptedIsSpelled(t: Bytes, v: Value) returns (tree: Tree)
    requires ParseString(t) == Some(v)
    ensures Spells(t, tree, v)
  {
    var p := SkipSpace(t, 0);
    assert SkipSpace(t, p) == p;
    ParsedIsSound(t, p, 0);
    tree := ParsedIsDerived(t, p, 0);
    TreeHead(tree);
    PrefixHead(t, p, Written(tree));
  }

  /**
   * A text is accepted with a value exactly if it begins, behind white space, with the text of an array
   * or object of the grammar that means the value, and the value keeps to the limits: nesting, sizes,
   * and one member for each name.
   */
  lemma AcceptedIsGrammar(t: Bytes, v: Value)
    ensures ParseString(t) == Some(v) <==> exists tree :: Spells(t, tree, v)
  {
    if ParseString(t) == Some(v) {
      var tree := AcceptedIsSpelled(t, v);
    }
    if tree :| Spells(t, tree, v) {
      SpelledIsAccepted(t, tree, v);
    }
  }

  /** The bytes that open and close an array or an object. */
  lemma BracketsMatch(tree: Tree)
    requires Valid(tree) && (tree.List? || tree.Record?)
    ensures var s := Written(tree);
            && |s| >= 2 && s[0] == (if tree.List? then LBRACKET else LBRACE)
            && s[|s| - 1] == (if tree.List? then RBRACKET else RBRACE)
  {}

  lemma SkipSpaceCut(t: Bytes, n: nat)
    requires SkipSpace(t, 0) < n <= |t|
    ensures SkipSpace(t[..n], 0) == SkipSpace(t, 0) && Peek(t[..n], SkipSpace(t, 0)) == Peek(t, SkipSpace(t, 0))
  {
    SkipSpaceOver(t[..n], 0, SkipSpace(t, 0));
  }

  /** A container stands in a text as soon as its own bytes do. */
  lemma StandsInBoth(t: Bytes, n: nat, p: nat, s: Bytes)
    requires n <= |t| && p + |s| <= n
    ensures StandsAt(t[..n], p, s) <==> StandsAt(t, p, s)
  {
    assert t[..n][p..p + |s|] == t[p..p + |s|];
  }

  /** Nothing behind the closing byte matters, and a text that is cut off in front of its end is refused. */
  lemma CutTextRefused(t: Bytes, v: Value, n: nat)
    requires ParseString(t) == Some(v) && n <= |t|
    ensures ParseString(t[..n]) == if n < ParseValue(t, SkipSpace(t, 0), 0).pos then None else Some(v)
  {
    var u, p := t[..n], SkipSpace(t, 0);
    var tree := AcceptedIsSpelled(t, v);
    var e := p + |Written(tree)|;
    SpelledIsAccepted(t, tree, v);
    if p < n {
      SkipSpaceCut(t, n);
      if n < e && ParseString(u).Some? {
        CutIsNotShorter(t, v, tree, n, ParseString(u).value);
      } else if n >= e {
        StandsInBoth(t, n, p, Written(tree));
        SpelledIsAccepted(u, tree, v);
      }
    } else {
      AllSpaceRefused(t, n);
    }
  }

  lemma CutIsNotShorter(t: Bytes, v: Value, tree: Tree, n: nat, w: Value)
    requires Spells(t, tree, v) && SkipSpace(t, 0) < n <= |t| && ParseString(t[..n]) == Some(w)
    ensures SkipSpace(t, 0) + |Written(tree)| <= n
  {
    var p := SkipSpace(t, 0);
    SkipSpaceCut(t, n);
    var other := AcceptedIsSpelled(t[..n], w);
    StandsInBoth(t, n, p, Written(other));
    SpelledIsAccepted(t, other, w);
    SpelledIsAccepted(t, tree, v);
  }

  lemma AllSpaceRefused(t: Bytes, n: nat)
    requires n <= SkipSpace(t, 0)
    ensures ParseString(t[..n]) == None
  {
    SkipSpaceOver(t[..n], 0, n);
  }

  /** The text between `p` and `e` opens and closes with the brackets of its kind. */
  ghost predicate Enclosing(t: Bytes, p: nat, e: nat, square: bool) {
    && p < e - 1 < |t|
    && t[p] == (if square then LBRACKET else LBRACE) && t[e - 1] == (if square then RBRACKET else RBRACE)
  }

  lemma SpelledCloses(t: Bytes, tree: Tree, v: Value)
    requires Spells(t, tree, v)
    ensures Enclosing(t, SkipSpace(t, 0), SkipSpace(t, 0) + |Written(tree)|, v.Arr?)
  {
    var p, s := SkipSpace(t, 0), Written(tree);
    BracketsMatch(tree);
    assert s[|s| - 1] == t[p..p + |s|][|s| - 1];
    PrefixHead(t, p, s);
  }

  /** An accepted text has its brackets at both ends. */
  lemma AcceptedCloses(t: Bytes, v: Value)
    requires ParseString(t) == Some(v)
    ensures Enclosing(t, SkipSpace(t, 0), ParseValue(t, SkipSpace(t, 0), 0).pos, v.Arr?)
  {
    var tree := AcceptedIsSpelled(t, v);
    SpelledIsAccepted(t, tree, v);
    SpelledCloses(t, tree, v);
  }

  lemma MarksSpelled()
    ensures [LBRACE, RBRACE, LBRACKET, RBRACKET, QUOTE, COLON, COMMA, MINUS] == Spell("{}[]\":,-")
    ensures [SPACE, TAB, NEWLINE, RETURN, SLASH, STAR, BACKSLASH, ZERO] == Spell(" \t\n\r/*\\0")
  {}

  lemma StandsBehind(front: Bytes, t: Bytes, p: nat, s: Bytes)
    ensures StandsAt(front + t, |front| + p, s) <==> StandsAt(t, p, s)
  {
    if p + |s| <= |t| {
      assert (front + t)[|front| + p..|front| + p + |s|] == t[p..p + |s|];
    }
  }

  lemma BlankAhead(blank: Bytes, t: Bytes)
    requires Blank(blank)
    ensures SkipSpace(blank + t, 0) == |blank| + SkipSpace(t, 0)
  {
    var u, e := blank + t, |blank| + SkipSpace(t, 0);
    forall k | 0 <= k < e ensures IsSpace(u[k]) {
      assert u[k] == if k < |blank| then blank[k] else t[k - |blank|];
    }
    SkipSpaceOver(u, 0, e);
  }

  /** White space in front of a text means nothing. */
  lemma BlankInFront(blank: Bytes, t: Bytes)
    requires Blank(blank)
    ensures ParseString(blank + t) == ParseString(t)
  {
    BlankAhead(blank, t);
    if ParseString(t).Some? {
      var tree := AcceptedIsSpelled(t, ParseString(t).value);
      StandsBehind(blank, t, SkipSpace(t, 0), Written(tree));
      SpelledIsAccepted(blank + t, tree, ParseString(t).value);
    } else if ParseString(blank + t).Some? {
      var tree := AcceptedIsSpelled(blank + t, ParseString(blank + t).value);
      StandsBehind(blank, t, SkipSpace(t, 0), Written(tree));
      SpelledIsAccepted(t, tree, ParseString(blank + t).value);
    }
  }

  // ----- the limit on nesting -----

  /** `n` empty arrays, one in the other. */
  function Nest(n: nat): Tree
    requires n > 0
  {
    if n == 1 then List([], []) else List([], [Slot([], Nest(n - 1), [])])
  }

  function Repeat(b: byte, n: nat): Bytes {
    seq(n, _ => b)
  }

  lemma {:induction false} NestWritten(n: nat)
    requires n > 0
    ensures Valid(Nest(n)) && Written(Nest(n)) == Repeat(LBRACKET, n) + Repeat(RBRACKET, n)
  {
    if n > 1 {
      NestWritten(n - 1);
      var slot := Slot([], Nest(n - 1), []);
      assert ValidSlot(slot);
      assert ValidSlots([slot]) by { assert [slot][1..] == []; }
      assert SlotsText([slot]) == Written(Nest(n - 1));
      assert Repeat(LBRACKET, n) == [LBRACKET] + Repeat(LBRACKET, n - 1);
      assert Repeat(RBRACKET, n) == Repeat(RBRACKET, n - 1) + [RBRACKET];
    } else {
      assert Written(Nest(1)) == [LBRACKET] + [] + [RBRACKET];
    }
  }

  lemma {:induction false} NestShaped(n: nat, depth: nat)
    requires n > 0 && depth + n <= 20
    ensures Valid(Nest(n)) && Shaped(Meaning(Nest(n)), depth)
    decreases n
  {
    NestWritten(n);
    if n > 1 {
      var slot := Slot([], Nest(n - 1), []);
      NestShaped(n - 1, depth + 1);
      assert ValidSlot(slot) && [slot][1..] == [];
      assert Items([slot]) == [Meaning(Nest(n - 1))] + Items([]) == [Meaning(Nest(n - 1))];
    }
  }

  /** Brackets that open more often than is allowed are refused, whatever follows them. */
  lemma {:induction false} DeepRefused(t: Bytes, i: nat, nesting: nat, k: nat)
    requires i + k <= |t| && nesting + k > 20 && forall j :: i <= j < i + k ==> t[j] == LBRACKET
    ensures ParseValue(t, i, nesting) == Fail
    decreases k
  {
    if nesting <= MAX_NESTING {
      assert SkipSpace(t, i) == i && SkipSpace(t, i + 1) == i + 1;
      DeepRefused(t, i + 1, nesting + 1, k - 1);
      OpensArray(t, i, nesting, i + 1, i + 1);
      ItemUnfold(t, i + 1, nesting + 1, Row([], 0), Fail);
      ItemsUnfold(t, i + 1, nesting + 1, Row([], 0), Stop);
    }
  }

  /** Nested arrays are accepted up to twenty deep, and no deeper. */
  lemma DepthLimit(n: nat)
    ensures ParseString(Repeat(LBRACKET, n) + Repeat(RBRACKET, n)).Some? <==> 1 <= n <= 20
  {
    var t := Repeat(LBRACKET, n) + Repeat(RBRACKET, n);
    if n > 0 {
      NestWritten(n);
      assert SkipSpace(t, 0) == 0 && t[0..|t|] == t;
      if n <= 20 {
        NestShaped(n, 0);
        SpelledIsAccepted(t, Nest(n), Meaning(Nest(n)));
      } else {
        DeepRefused(t, 0, 0, n);
      }
    }
  }
}
