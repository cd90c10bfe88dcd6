/** The grammar of the texts that are accepted, written apart from the parser, and what each text means. */
module Grammar {
  import opened Text
  import opened Decimal
  import opened Strings
  import opened Literals
  import opened Values
  import opened ObjectStore
  import opened ArrayStore
  import opened Parser
  import opened ParserOutput
  import opened Pieces
  import opened RoundTrip

  // ----- numerals -----

  /** How an integer may be spelled: as it is printed, or as a negative zero. */
  predicate SpellsInt(s: Bytes, n: int) {
    s == PrintInt(n) || (n == 0 && s == [MINUS, ZERO])
  }

  lemma {:induction false} DigitsArePrinted(s: Bytes)
    requires s != [] && AllDigits(s) && (|s| > 1 ==> s[0] != ZERO)
    ensures DigitsValue(s) >= 0 && s == PrintNat(DigitsValue(s))
    decreases |s|
  {
    var front, d := s[..|s| - 1], s[|s| - 1] - ZERO;
    if |s| == 1 {
      assert DigitsValue(front) == 0;
    } else {
      DigitsArePrinted(front);
      var q := DigitsValue(front);
      assert front[0] != PrintNat(0)[0];
      assert (q * 10 + d) / 10 == q && (q * 10 + d) % 10 == d;
      assert s == front + [s[|s| - 1]];
    }
  }

  /** is_decimal refuses a leading zero and nothing else that is digits with a sign or without. */
  lemma DecimalDigits(s: Bytes, digits: Bytes)
    requires digits != [] && AllDigits(digits) && (s == digits || s == [MINUS] + digits)
    ensures IsDecimal(s) <==> |digits| == 1 || digits[0] != ZERO
  {
    if s == [MINUS] + digits {
      assert forall k :: 1 <= k < |s| ==> s[k] == digits[k - 1];
      if |s| > 2 {
        assert s[..2] == [MINUS, digits[0]];
      }
    }
  }

  /** A numeral stands at `i` and ends at `e`: neither prolonged nor made hexadecimal by what follows. */
  predicate NumeralAt(t: Bytes, i: nat, n: int, e: nat)
    requires i < e <= |t|
  {
    SpellsInt(t[i..e], n) && !IsDigit(Peek(t, e)) && (n == 0 ==> !HexAt(t, e - 1))
  }

  lemma PrintedIsParsed(t: Bytes, i: nat, n: nat, e: nat)
    requires i < e <= |t| && NumeralAt(t, i, n, e) && t[i..e] == PrintNat(n)
    ensures ParseNumber(t, i) == Done(Num(n), e)
  {
    PrintNatDigits(n);
    DecimalDigits(t[i..e], PrintNat(n));
    assert t[i] == t[i..e][0];
    ScanDigits(t, i, n);
  }

  lemma NegatedIsParsed(t: Bytes, i: nat, n: int, e: nat)
    requires i < e <= |t| && NumeralAt(t, i, n, e) && n <= 0 && t[i..e] == [MINUS] + PrintNat(-n)
    ensures ParseNumber(t, i) == Done(Num(n), e)
  {
    PrintNatDigits(-n);
    DecimalDigits(t[i..e], PrintNat(-n));
    assert t[i] == t[i..e][0] && t[i + 1..e] == PrintNat(-n);
    assert n == 0 ==> e - 1 == i + 1;
    PrefixHead(t, i + 1, PrintNat(-n));
    ScanDigits(t, i + 1, -n);
  }

  lemma NumeralIsParsed(t: Bytes, i: nat, n: int, e: nat)
    requires i < e <= |t| && NumeralAt(t, i, n, e)
    ensures ParseNumber(t, i) == Done(Num(n), e)
  {
    if t[i..e] == PrintInt(n) && n >= 0 {
      PrintedIsParsed(t, i, n, e);
    } else {
      assert n == 0 ==> [MINUS, ZERO] == [MINUS] + PrintNat(0);
      NegatedIsParsed(t, i, n, e);
    }
  }

  lemma HexIsMarked(t: Bytes, i: nat)
    requires i <= |t|
    ensures HexAt(t, i) ==> i + 1 < Magnitude(t, i).1 && IsHexMark(t[i + 1])
  {
    if HexAt(t, i) {
      assert HexEnd(t, i + 2) >= i + 2;
    }
  }

  lemma ScannedDigits(t: Bytes, i: nat, first: nat, e: nat)
    requires i < e <= |t| && (first == i || first == i + 1) && IsDecimal(t[i..e]) && Magnitude(t, first).1 == e
    ensures !HexAt(t, first) && AllDigits(t[first..e]) && Magnitude(t, first).0 == DigitsValue(t[first..e])
    ensures !IsDigit(Peek(t, e))
  {
    HexIsMarked(t, first);
    if first + 1 < e {
      assert t[i..e][first + 1 - i] == t[first + 1];
    }
  }

  lemma ParsedIsNumeral(t: Bytes, i: nat, n: int, e: nat)
    requires i < e <= |t| && ParseNumber(t, i) == Done(Num(n), e)
    ensures NumeralAt(t, i, n, e)
  {
    var first := if Peek(t, i) == MINUS then i + 1 else i;
    ScannedDigits(t, i, first, e);
    var s, digits := t[i..e], t[first..e];
    assert first == i + 1 ==> s == [MINUS] + digits;
    DecimalDigits(s, digits);
    DigitsArePrinted(digits);
    if n == 0 {
      assert |digits| == 1;
    }
  }

  /**
   * A number is taken exactly if it is spelled without a leading zero, a plus sign or a hexadecimal
   * marker, and up to its last digit.
   */
  lemma NumberIsNumeral(t: Bytes, i: nat, n: int, e: nat)
    requires i < e <= |t|
    ensures ParseNumber(t, i) == Done(Num(n), e) <==> NumeralAt(t, i, n, e)
  {
    if NumeralAt(t, i, n, e) {
      NumeralIsParsed(t, i, n, e);
    }
    if ParseNumber(t, i) == Done(Num(n), e) {
      ParsedIsNumeral(t, i, n, e);
    }
  }

  /** What a leading zero may not be followed by: a digit, or a hexadecimal marker and a digit. */
  predicate Prolonged(t: Bytes, i: nat)
    requires i < |t|
  {
    t[i] == ZERO && (IsDigit(Peek(t, i + 1)) || HexAt(t, i))
  }

  lemma ProlongedScan(t: Bytes, i: nat)
    requires i < |t| && Prolonged(t, i)
    ensures i + 1 < Magnitude(t, i).1 && t[i + 1] != 46
  {
    HexIsMarked(t, i);
    if !HexAt(t, i) {
      assert DigitsEnd(t, i) == DigitsEnd(t, i + 1) == DigitsEnd(t, i + 2);
    }
  }

  /** `01`, `-01`, `0x1` and `-0x1` are refused, whatever follows them. */
  lemma LeadingZeroRefused(t: Bytes, i: nat)
    requires i < |t|
    ensures Prolonged(t, i) ==> ParseNumber(t, i) == Fail
    ensures t[i] == MINUS && i + 1 < |t| && Prolonged(t, i + 1) ==> ParseNumber(t, i) == Fail
  {
    if Prolonged(t, i) {
      ProlongedScan(t, i);
      var s := t[i..Magnitude(t, i).1];
      assert s[0] == ZERO && s[1] == t[i + 1];
    } else if t[i] == MINUS && i + 1 < |t| && Prolonged(t, i + 1) {
      ProlongedScan(t, i + 1);
      var s := t[i..Magnitude(t, i + 1).1];
      assert s[..2] == [MINUS, ZERO] && s[2] == t[i + 2];
    }
  }

  // ----- the grammar -----

  datatype Tree =
    | Word(v: Value)
    | Numeral(n: int, s: Bytes)
    | Literal(cs: seq<Char>)
    | List(blank: Bytes, slots: seq<Slot>)
    | Record(blank: Bytes, pairs: seq<Named>)

  datatype Slot = Slot(before: Bytes, item: Tree, after: Bytes)

  /** A name is quoted, but any byte will do for its opening quote. */
  datatype Named = Named(before: Bytes, first: byte, name: seq<Char>, mid: Bytes, slot: Slot)

  ghost predicate Valid(tree: Tree) {
    match tree
    case Word(v) => v.Null? || v.Bool?
    case Numeral(n, s) => SpellsInt(s, n)
    case Literal(cs) => AllProper(cs)
    case List(blank, slots) => Blank(blank) && ValidSlots(slots)
    case Record(blank, pairs) => Blank(blank) && ValidPairs(pairs) && (pairs != [] ==> pairs[0].first != RBRACE)
  }

  ghost predicate ValidSlot(slot: Slot) {
    Blank(slot.before) && Valid(slot.item) && Blank(slot.after)
  }

  ghost predicate ValidSlots(slots: seq<Slot>) {
    slots == [] || (ValidSlot(slots[0]) && ValidSlots(slots[1..]))
  }

  ghost predicate ValidPair(pair: Named) {
    && Blank(pair.before) && pair.first != NUL && !IsSpace(pair.first) && AllProper(pair.name) && Blank(pair.mid)
    && ValidSlot(pair.slot)
  }

  ghost predicate ValidPairs(pairs: seq<Named>) {
    pairs == [] || (ValidPair(pairs[0]) && ValidPairs(pairs[1..]))
  }

  function WordText(v: Value): Bytes {
    match v
    case Null => Spell("null")
    case Bool(b) => if b then Spell("true") else Spell("false")
    case _ => []
  }

  function Written(tree: Tree): Bytes {
    match tree
    case Word(v) => WordText(v)
    case Numeral(_, s) => s
    case Literal(cs) => [QUOTE] + SpelledAll(cs) + [QUOTE]
    case List(blank, slots) => [LBRACKET] + (if slots == [] then blank else SlotsText(slots)) + [RBRACKET]
    case Record(blank, pairs) => [LBRACE] + (if pairs == [] then blank else PairsText(pairs)) + [RBRACE]
  }

  function SlotText(slot: Slot): Bytes {
    slot.before + Written(slot.item) + slot.after
  }

  function SlotsText(slots: seq<Slot>): Bytes
    requires slots != []
  {
    SlotText(slots[0]) + if |slots| == 1 then [] else [COMMA] + SlotsText(slots[1..])
  }

  function PairText(pair: Named): Bytes {
    pair.before + ([pair.first] + SpelledAll(pair.name) + [QUOTE]) + pair.mid + [COLON] + SlotText(pair.slot)
  }

  function PairsText(pairs: seq<Named>): Bytes
    requires pairs != []
  {
    PairText(pairs[0]) + if |pairs| == 1 then [] else [COMMA] + PairsText(pairs[1..])
  }

  ghost function Meaning(tree: Tree): Value
    requires Valid(tree)
  {
    match tree
    case Word(v) => v
    case Numeral(n, _) => Num(n)
    case Literal(cs) => Str(CString(MeantAll(cs)))
    case List(_, slots) => Arr(Items(slots), |slots|)
    case Record(_, pairs) => Obj(Members(pairs), |pairs|)
  }

  ghost function Items(slots: seq<Slot>): (r: seq<Value>)
    requires ValidSlots(slots)
    ensures |r| == |slots|
  {
    if slots == [] then []
    else
      assert ValidSlot(slots[0]);
      [Meaning(slots[0].item)] + Items(slots[1..])
  }

  ghost function MemberOf(pair: Named): Member
    requires ValidPair(pair)
  {
    assert ValidSlot(pair.slot);
    Member(CString(MeantAll(pair.name)), Meaning(pair.slot.item))
  }

  ghost function Members(pairs: seq<Named>): (r: seq<Member>)
    requires ValidPairs(pairs)
    ensures |r| == |pairs|
  {
    if pairs == [] then [] else [MemberOf(pairs[0])] + Members(pairs[1..])
  }

  // ----- whatever is accepted is derived -----

  ghost predicate Derives(tree: Tree, s: Bytes, v: Value) {
    Valid(tree) && Written(tree) == s && Meaning(tree) == v
  }

  /** A dash without a digit, which is taken as the number 0 and not even consumed. */
  predicate BareDash(t: Bytes, p: nat, r: Parse)
    requires p <= |t|
  {
    Peek(t, p) == MINUS && r == Done(Num(0), p)
  }

  lemma WordsSpelled()
    ensures NULL_TOKEN == Spell("null") && TRUE_TOKEN == Spell("true") && FALSE_TOKEN == Spell("false")
  {}

  lemma Cut(t: Bytes, a: nat, b: nat, c: nat)
    requires a <= b <= c <= |t|
    ensures t[a..b] + t[b..c] == t[a..c]
  {}

  lemma CutOne(t: Bytes, a: nat, c: nat)
    requires a < c <= |t|
    ensures [t[a]] + t[a + 1..c] == t[a..c]
  {}

  lemma WordDerived(t: Bytes, p: nat, r: Parse) returns (tree: Tree)
    requires p <= |t| && r.Done? && (r == ParseToken(t, p) || r == ParseNull(t, p))
    ensures p < r.pos <= |t| && Derives(tree, t[p..r.pos], r.v)
  {
    WordsSpelled();
    tree := Word(r.v);
  }

  lemma NumberDerived(t: Bytes, p: nat) returns (tree: Tree)
    requires p < |t| && (t[p] == MINUS || IsDigit(t[p])) && ParseNumber(t, p).Done?
    ensures var r := ParseNumber(t, p); BareDash(t, p, r) || (p < r.pos && Derives(tree, t[p..r.pos], r.v))
  {
    var r := ParseNumber(t, p);
    tree := Numeral(r.v.n, t[p..r.pos]);
    if p < r.pos {
      ParsedIsNumeral(t, p, r.v.n, r.pos);
    }
  }

  lemma QuotedScan(t: Bytes, i: nat, e: nat)
    requires i < |t| && GetQuoted(t, i).AString? && e == SkipQuotes(t, i + 1).end
    ensures GetQuoted(t, i).pos == e && SkipQuotes(t, i + 1) == Scan(e, true)
    ensures Decode(t[i + 1..e - 1]).Some? && GetQuoted(t, i).s == CString(Decode(t[i + 1..e - 1]).value)
  {}

  /** A quoted string spells what was read, behind whatever byte stood first. */
  lemma QuotedDerived(t: Bytes, i: nat) returns (cs: seq<Char>)
    requires i < |t| && GetQuoted(t, i).AString?
    ensures var q := GetQuoted(t, i);
            AllProper(cs) && t[i..q.pos] == [t[i]] + SpelledAll(cs) + [QUOTE] && q.s == CString(MeantAll(cs))
  {
    var e := SkipQuotes(t, i + 1).end;
    var raw := t[i + 1..e - 1];
    QuotedScan(t, i, e);
    SkipQuotesIsBalanced(t, i + 1, e);
    cs := DecodedIsGrammar(raw);
    Enclosed(t, i, raw, e, QUOTE);
  }

  lemma StringDerived(t: Bytes, p: nat) returns (tree: Tree)
    requires p < |t| && t[p] == QUOTE && ParseStr(t, p).Done?
    ensures p < ParseStr(t, p).pos && Derives(tree, t[p..ParseStr(t, p).pos], ParseStr(t, p).v)
  {
    var cs := QuotedDerived(t, p);
    tree := Literal(cs);
  }

  lemma Enclosed(t: Bytes, i: nat, inside: Bytes, e: nat, close: byte)
    requires i + 1 < e <= |t| && t[e - 1] == close && t[i + 1..e - 1] == inside
    ensures t[i..e] == [t[i]] + inside + [close]
  {}

  lemma CommaCut(t: Bytes, a: nat, p: nat, e: nat)
    requires a <= p < e <= |t| && t[p] == COMMA
    ensures t[a..e] == t[a..p] + ([COMMA] + t[p + 1..e])
  {}

  /** White space, an item that ends at `b`, and white space. */
  lemma SlotDerived(t: Bytes, a: nat, b: nat, item: Tree, v: Value) returns (slot: Slot)
    requires a <= |t| && SkipSpace(t, a) <= b <= |t| && Derives(item, t[SkipSpace(t, a)..b], v)
    ensures ValidSlot(slot) && slot.item == item && SlotText(slot) == t[a..SkipSpace(t, b)]
  {
    var i, p := SkipSpace(t, a), SkipSpace(t, b);
    slot := Slot(t[a..i], item, t[b..p]);
    Cut(t, a, i, b);
    Cut(t, a, b, p);
  }

  lemma {:induction false} ParsedIsDerived(t: Bytes, i: nat, nesting: nat) returns (tree: Tree)
    requires i <= |t| && ParseValue(t, i, nesting).Done?
    ensures var r, p := ParseValue(t, i, nesting), SkipSpace(t, i);
            BareDash(t, p, r) || (p < r.pos && Derives(tree, t[p..r.pos], r.v))
    decreases |t| - i, 2
  {
    var p := SkipSpace(t, i);
    var c := Peek(t, p);
    if c == LBRACE {
      tree := ObjectDerived(t, p, nesting + 1);
    } else if c == LBRACKET {
      tree := ArrayDerived(t, p, nesting + 1);
    } else if c == QUOTE {
      tree := StringDerived(t, p);
    } else if c == MINUS || IsDigit(c) {
      tree := NumberDerived(t, p);
    } else {
      tree := WordDerived(t, p, ParseValue(t, i, nesting));
    }
  }

  // arrays

  lemma ArrayDerived(t: Bytes, i: nat, nesting: nat) returns (tree: Tree)
    requires i < |t| && t[i] == LBRACKET && ParseArray(t, i, nesting).Done?
    ensures var r := ParseArray(t, i, nesting); i < r.pos && Derives(tree, t[i..r.pos], r.v)
    decreases |t| - i, 1
  {
    var p, r := SkipSpace(t, i + 1), ParseArray(t, i, nesting);
    if Peek(t, p) == RBRACKET {
      tree := EmptyListDerived(t, i, p);
    } else {
      var slots := ItemsDerived(t, i + 1, nesting, Row([], 0), r);
      tree := ListDerived(t, i, slots, r);
    }
  }

  lemma EmptyListDerived(t: Bytes, i: nat, p: nat) returns (tree: Tree)
    requires i + 1 <= p < |t| && t[i] == LBRACKET && t[p] == RBRACKET && Blank(t[i + 1..p])
    ensures Derives(tree, t[i..p + 1], Arr([], 0))
  {
    tree := List(t[i + 1..p], []);
    Enclosed(t, i, t[i + 1..p], p + 1, RBRACKET);
  }

  lemma ListDerived(t: Bytes, i: nat, slots: seq<Slot>, r: Parse) returns (tree: Tree)
    requires i < |t| && t[i] == LBRACKET && SlotsTo(t, i + 1, slots, [], r)
    ensures Derives(tree, t[i..r.pos], r.v)
  {
    tree := List([], slots);
    Enclosed(t, i, SlotsText(slots), r.pos, RBRACKET);
    assert [] + Items(slots) == Items(slots);
    assert Valid(tree);
  }

  /** A dash is followed neither by a comma nor by a bracket. */
  lemma DashStops<T>(t: Bytes, p: nat, sofar: T)
    requires p < |t| && t[p] == MINUS
    ensures AfterEntry(t, Next(sofar, p)) == Last(sofar, p) && SkipSpace(t, p) == p
  {}

  /** What a round with this value makes of the array that ends in `r`. */
  ghost predicate ItemRound(t: Bytes, nesting: nat, sofar: Row, value: Parse, r: Parse)
    requires value.Done? ==> value.pos <= |t|
  {
    && value.Done? && Push(sofar, value.v).0
    && var round := AfterEntry(t, Next(Push(sofar, value.v).1, value.pos));
       r == if round.More? then ParseItems(t, round.pos, nesting, round.sofar)
            else FinishArray(t, round.pos, round.sofar)
  }

  lemma ItemUnfold(t: Bytes, i: nat, nesting: nat, sofar: Row, value: Parse)
    requires i <= |t| && value == ParseValue(t, i, nesting)
    ensures ParseItem(t, i, nesting, sofar) ==
            if value.Done? && Push(sofar, value.v).0 then Next(Push(sofar, value.v).1, value.pos) else Stop
  {}

  lemma ItemsByValue(t: Bytes, i: nat, nesting: nat, sofar: Row, value: Parse, r: Parse)
    requires i <= |t| && SkipSpace(t, i) == i && value == ParseValue(t, i, nesting)
    requires r.Done? && r == ParseItems(t, i, nesting, sofar)
    ensures ItemRound(t, nesting, sofar, value, r)
  {
    ItemUnfold(t, i, nesting, sofar, value);
    ItemsUnfold(t, i, nesting, sofar, ParseItem(t, i, nesting, sofar));
  }

  /** Items from behind the white space at `a` to the end of the array. */
  ghost predicate ItemsTo(t: Bytes, a: nat, nesting: nat, sofar: Row, r: Parse)
    requires a <= |t|
  {
    r.Done? && r == ParseItems(t, SkipSpace(t, a), nesting, sofar)
  }

  /** In an accepted array an item that is no bare dash is followed by a comma or the closing bracket. */
  lemma ItemFollowed(t: Bytes, i: nat, nesting: nat, sofar: Row, value: Parse, r: Parse) returns (p: nat, next: Row)
    requires i <= |t| && r.Done? && (value.Done? ==> i <= value.pos <= |t|)
    requires ItemRound(t, nesting, sofar, value, r)
    ensures !BareDash(t, i, value) && p == SkipSpace(t, value.pos) && p < |t|
    ensures next.items == sofar.items + [value.v]
    ensures if t[p] == COMMA then ItemsTo(t, p + 1, nesting, next, r)
            else t[p] == RBRACKET && r == Done(Arr(next.items, |next.items|), p + 1)
  {
    p, next := SkipSpace(t, value.pos), Push(sofar, value.v).1;
    if Peek(t, i) == MINUS && value == Done(Num(0), i) {
      DashStops(t, i, next);
    } else if Peek(t, p) != COMMA {
      SkipSpaceOver(t, value.pos, p);
    }
  }

  /** The slots from `a` to the end of the array, whose items come behind the given ones. */
  ghost predicate SlotsTo(t: Bytes, a: nat, slots: seq<Slot>, before: seq<Value>, r: Parse) {
    && slots != [] && ValidSlots(slots)
    && r.Done? && a < r.pos <= |t| && t[r.pos - 1] == RBRACKET && SlotsText(slots) == t[a..r.pos - 1]
    && r.v == Arr(before + Items(slots), |before| + |slots|)
  }

  lemma SlotsOne(t: Bytes, a: nat, slot: Slot, before: seq<Value>, p: nat, r: Parse) returns (slots: seq<Slot>)
    requires a <= p < |t| && t[p] == RBRACKET && ValidSlot(slot) && SlotText(slot) == t[a..p]
    requires r == Done(Arr(before + [Meaning(slot.item)], |before| + 1), p + 1)
    ensures SlotsTo(t, a, slots, before, r)
  {
    slots := [slot];
    assert [slot][1..] == [] && ValidSlots([]);
    assert Items(slots) == [Meaning(slot.item)] + Items([]) == [Meaning(slot.item)];
  }

  lemma SlotsCons(slot: Slot, more: seq<Slot>)
    requires ValidSlot(slot) && more != [] && ValidSlots(more)
    ensures var slots := [slot] + more;
            ValidSlots(slots) && SlotsText(slots) == SlotText(slot) + ([COMMA] + SlotsText(more))
            && Items(slots) == [Meaning(slot.item)] + Items(more)
  {
    assert ([slot] + more)[1..] == more;
  }

  lemma SlotsJoin(t: Bytes, a: nat, p: nat, slot: Slot, more: seq<Slot>, before: seq<Value>, r: Parse)
    returns (slots: seq<Slot>)
    requires a <= p < |t| && t[p] == COMMA && ValidSlot(slot) && SlotText(slot) == t[a..p]
    requires SlotsTo(t, p + 1, more, before + [Meaning(slot.item)], r)
    ensures SlotsTo(t, a, slots, before, r)
  {
    slots := [slot] + more;
    SlotsCons(slot, more);
    CommaCut(t, a, p, r.pos - 1);
    Assoc(before, [Meaning(slot.item)], Items(more));
  }

  lemma FirstSlot(t: Bytes, a: nat, nesting: nat, sofar: Row, r: Parse) returns (slot: Slot, p: nat, next: Row)
    requires a <= |t| && ItemsTo(t, a, nesting, sofar, r)
    ensures a <= p < |t| && ValidSlot(slot) && SlotText(slot) == t[a..p]
    ensures next.items == sofar.items + [Meaning(slot.item)]
    ensures if t[p] == COMMA then ItemsTo(t, p + 1, nesting, next, r)
            else t[p] == RBRACKET && r == Done(Arr(next.items, |next.items|), p + 1)
    decreases |t| - a, 3
  {
    var i := SkipSpace(t, a);
    var value := ParseValue(t, i, nesting);
    SkipSpaceOver(t, a, i);
    ItemsByValue(t, i, nesting, sofar, value, r);
    p, next := ItemFollowed(t, i, nesting, sofar, value, r);
    var item := ParsedIsDerived(t, i, nesting);
    slot := SlotDerived(t, a, value.pos, item, value.v);
  }

  lemma {:induction false} ItemsDerived(t: Bytes, a: nat, nesting: nat, sofar: Row, r: Parse) returns (slots: seq<Slot>)
    requires a <= |t| && ItemsTo(t, a, nesting, sofar, r)
    ensures SlotsTo(t, a, slots, sofar.items, r)
    decreases |t| - a, 4
  {
    var slot, p, next := FirstSlot(t, a, nesting, sofar, r);
    if t[p] == COMMA {
      var more := ItemsDerived(t, p + 1, nesting, next, r);
      slots := SlotsJoin(t, a, p, slot, more, sofar.items, r);
    } else {
      slots := SlotsOne(t, a, slot, sofar.items, p, r);
    }
  }

  // objects

  lemma ObjectDerived(t: Bytes, i: nat, nesting: nat) returns (tree: Tree)
    requires i < |t| && t[i] == LBRACE && ParseObject(t, i, nesting).Done?
    ensures var r := ParseObject(t, i, nesting); i < r.pos && Derives(tree, t[i..r.pos], r.v)
    decreases |t| - i, 1
  {
    var p, r := SkipSpace(t, i + 1), ParseObject(t, i, nesting);
    if Peek(t, p) == RBRACE {
      tree := EmptyRecordDerived(t, i, p);
    } else {
      var pairs := MembersDerived(t, i + 1, nesting, Table([], 0), r);
      tree := RecordDerived(t, i, pairs, r);
    }
  }

  lemma EmptyRecordDerived(t: Bytes, i: nat, p: nat) returns (tree: Tree)
    requires i + 1 <= p < |t| && t[i] == LBRACE && t[p] == RBRACE && Blank(t[i + 1..p])
    ensures Derives(tree, t[i..p + 1], Obj([], 0))
  {
    tree := Record(t[i + 1..p], []);
    Enclosed(t, i, t[i + 1..p], p + 1, RBRACE);
  }

  lemma RecordDerived(t: Bytes, i: nat, pairs: seq<Named>, r: Parse) returns (tree: Tree)
    requires i < |t| && t[i] == LBRACE && Peek(t, SkipSpace(t, i + 1)) != RBRACE && PairsTo(t, i + 1, pairs, [], r)
    ensures Derives(tree, t[i..r.pos], r.v)
  {
    tree := Record([], pairs);
    Enclosed(t, i, PairsText(pairs), r.pos, RBRACE);
    assert [] + Members(pairs) == Members(pairs);
    assert Valid(tree);
  }

  lemma PairCut(t: Bytes, a: nat, i: nat, k: nat, q: nat, p: nat)
    requires a <= i <= k <= q < p <= |t| && t[q] == COLON
    ensures t[a..p] == t[a..i] + t[i..k] + t[k..q] + [COLON] + t[q + 1..p]
  {
    Cut(t, a, i, k);
    Cut(t, a, k, q);
    Cut(t, a, q, p);
    CutOne(t, q, p);
    Assoc(t[a..q], [COLON], t[q + 1..p]);
  }

  /** A name, a colon, and a value, each with its white space. */
  lemma PairDerived(t: Bytes, a: nat, key: Quoted, slot: Slot, p: nat) returns (pair: Named)
    requires a <= |t| && Peek(t, SkipSpace(t, a)) != NUL && key == GetQuoted(t, SkipSpace(t, a)) && key.AString?
    requires Peek(t, SkipSpace(t, key.pos)) == COLON && SkipSpace(t, key.pos) + 1 <= p <= |t|
    requires ValidSlot(slot) && SlotText(slot) == t[SkipSpace(t, key.pos) + 1..p]
    ensures ValidPair(pair) && pair.first == t[SkipSpace(t, a)] && MemberOf(pair) == Member(key.s, Meaning(slot.item))
    ensures PairText(pair) == t[a..p]
  {
    var i, q := SkipSpace(t, a), SkipSpace(t, key.pos);
    var cs := QuotedDerived(t, i);
    pair := Named(t[a..i], t[i], cs, t[key.pos..q], slot);
    PairCut(t, a, i, key.pos, q, p);
  }

  lemma KeyUnfold(t: Bytes, i: nat, nesting: nat, sofar: Table, key: Quoted, d: nat, value: Parse)
    requires i < |t| && key == GetQuoted(t, i) && key.AString? && Peek(t, SkipSpace(t, key.pos)) == COLON
    requires d == SkipSpace(t, key.pos) + 1 && value == ParseValue(t, d, nesting)
    ensures ParseMember(t, i, nesting, sofar) ==
            if value.Done? && Add(sofar, key.s, Some(value.v)).0
            then Next(Add(sofar, key.s, Some(value.v)).1, value.pos) else Stop
  {}

  lemma KeyNeeded(t: Bytes, i: nat, nesting: nat, sofar: Table)
    requires i < |t| && ParseMember(t, i, nesting, sofar).Next?
    ensures GetQuoted(t, i).AString? && Peek(t, SkipSpace(t, GetQuoted(t, i).pos)) == COLON
  {}

  /** What a round with this member makes of the object that ends in `r`. */
  ghost predicate MemberRound(t: Bytes, nesting: nat, step: Step<Table>, r: Parse)
    requires step.Next? ==> step.pos <= |t|
  {
    && step.Next?
    && var round := AfterEntry(t, step);
       r == if round.More? then ParseMembers(t, round.pos, nesting, round.sofar)
            else FinishObject(t, round.pos, round.sofar)
  }

  lemma MembersByStep(t: Bytes, i: nat, nesting: nat, sofar: Table, step: Step<Table>, r: Parse)
    requires i <= |t| && SkipSpace(t, i) == i && r.Done? && r == ParseMembers(t, i, nesting, sofar)
    requires i < |t| ==> step == ParseMember(t, i, nesting, sofar)
    ensures i < |t| && t[i] != NUL && MemberRound(t, nesting, step, r)
  {
    if i < |t| && t[i] != NUL {
      MembersUnfold(t, i, nesting, sofar, step);
    }
  }

  /** Members from behind the white space at `a` to the end of the object. */
  ghost predicate MembersTo(t: Bytes, a: nat, nesting: nat, sofar: Table, r: Parse)
    requires a <= |t|
  {
    r.Done? && r == ParseMembers(t, SkipSpace(t, a), nesting, sofar)
  }

  /** In an accepted object a member is followed by a comma or the closing brace. */
  lemma MemberFollowed(t: Bytes, nesting: nat, step: Step<Table>, r: Parse) returns (p: nat)
    requires (step.Next? ==> step.pos <= |t|) && r.Done? && MemberRound(t, nesting, step, r)
    ensures Peek(t, step.pos) != MINUS && p == SkipSpace(t, step.pos) && p < |t|
    ensures if t[p] == COMMA then MembersTo(t, p + 1, nesting, step.sofar, r)
            else t[p] == RBRACE && r == Done(Obj(step.sofar.members, |step.sofar.members|), p + 1)
  {
    p := SkipSpace(t, step.pos);
    if Peek(t, step.pos) == MINUS {
      DashStops(t, step.pos, step.sofar);
    } else if Peek(t, p) != COMMA {
      SkipSpaceOver(t, step.pos, p);
    }
  }

  /** The parts of a member that was taken. */
  ghost predicate MemberParts(t: Bytes, i: nat, nesting: nat, key: Quoted, value: Parse, sofar: Table,
                              step: Step<Table>)
    requires i < |t|
  {
    && key == GetQuoted(t, i) && key.AString? && Peek(t, SkipSpace(t, key.pos)) == COLON
    && value == ParseValue(t, SkipSpace(t, key.pos) + 1, nesting)
    && value.Done? && step.Next? && step.pos == value.pos
    && step.sofar.members == sofar.members + [Member(key.s, value.v)]
  }

  lemma MemberTaken(t: Bytes, i: nat, nesting: nat, sofar: Table, step: Step<Table>)
    returns (key: Quoted, value: Parse)
    requires i < |t| && step == ParseMember(t, i, nesting, sofar) && step.Next?
    ensures MemberParts(t, i, nesting, key, value, sofar, step)
  {
    KeyNeeded(t, i, nesting, sofar);
    key := GetQuoted(t, i);
    value := ParseValue(t, SkipSpace(t, key.pos) + 1, nesting);
    KeyUnfold(t, i, nesting, sofar, key, SkipSpace(t, key.pos) + 1, value);
  }

  /** The pairs from `a` to the end of the object, whose members come behind the given ones. */
  ghost predicate PairsTo(t: Bytes, a: nat, pairs: seq<Named>, before: seq<Member>, r: Parse)
    requires a <= |t|
  {
    && pairs != [] && ValidPairs(pairs) && pairs[0].first == Peek(t, SkipSpace(t, a))
    && r.Done? && a < r.pos <= |t| && t[r.pos - 1] == RBRACE && PairsText(pairs) == t[a..r.pos - 1]
    && r.v == Obj(before + Members(pairs), |before| + |pairs|)
  }

  /** The pair between `a` and `p`. */
  ghost predicate PairAt(t: Bytes, a: nat, p: nat, pair: Named, member: Member) {
    && a <= p < |t| && ValidPair(pair) && pair.first == Peek(t, SkipSpace(t, a)) && PairText(pair) == t[a..p]
    && MemberOf(pair) == member
  }

  lemma PairsOne(t: Bytes, a: nat, pair: Named, member: Member, before: seq<Member>, p: nat, r: Parse)
    returns (pairs: seq<Named>)
    requires PairAt(t, a, p, pair, member) && t[p] == RBRACE
    requires r == Done(Obj(before + [member], |before| + 1), p + 1)
    ensures PairsTo(t, a, pairs, before, r)
  {
    pairs := [pair];
    assert [pair][1..] == [] && ValidPairs([]);
    assert Members(pairs) == [MemberOf(pair)] + Members([]) == [MemberOf(pair)];
  }

  lemma PairsCons(pair: Named, more: seq<Named>)
    requires ValidPair(pair) && more != [] && ValidPairs(more)
    ensures var pairs := [pair] + more;
            ValidPairs(pairs) && PairsText(pairs) == PairText(pair) + ([COMMA] + PairsText(more))
            && Members(pairs) == [MemberOf(pair)] + Members(more)
  {
    assert ([pair] + more)[1..] == more;
  }

  lemma PairsJoin(t: Bytes, a: nat, p: nat, pair: Named, member: Member, more: seq<Named>, before: seq<Member>,
                  r: Parse)
    returns (pairs: seq<Named>)
    requires PairAt(t, a, p, pair, member) && t[p] == COMMA && PairsTo(t, p + 1, more, before + [member], r)
    ensures PairsTo(t, a, pairs, before, r)
  {
    pairs := [pair] + more;
    PairsCons(pair, more);
    CommaCut(t, a, p, r.pos - 1);
    Assoc(before, [member], Members(more));
  }

  lemma PairOfParts(t: Bytes, a: nat, i: nat, nesting: nat, key: Quoted, value: Parse, sofar: Table,
                    step: Step<Table>, p: nat)
    returns (pair: Named)
    requires a <= |t| && i == SkipSpace(t, a) && i < |t| && t[i] != NUL
    requires MemberParts(t, i, nesting, key, value, sofar, step) && step.pos <= |t| && Peek(t, step.pos) != MINUS
    requires p == SkipSpace(t, step.pos) && p < |t|
    ensures PairAt(t, a, p, pair, Member(key.s, value.v))
    decreases |t| - a, 2
  {
    var d := SkipSpace(t, key.pos) + 1;
    var item := ParsedIsDerived(t, d, nesting);
    assert !BareDash(t, SkipSpace(t, d), value);
    var slot := SlotDerived(t, d, value.pos, item, value.v);
    pair := PairDerived(t, a, key, slot, p);
  }

  lemma FirstPair(t: Bytes, a: nat, nesting: nat, sofar: Table, r: Parse)
    returns (pair: Named, member: Member, p: nat, next: Table)
    requires a <= |t| && MembersTo(t, a, nesting, sofar, r)
    ensures PairAt(t, a, p, pair, member) && next.members == sofar.members + [member]
    ensures if t[p] == COMMA then MembersTo(t, p + 1, nesting, next, r)
            else t[p] == RBRACE && r == Done(Obj(next.members, |next.members|), p + 1)
    decreases |t| - a, 3
  {
    var i := SkipSpace(t, a);
    SkipSpaceOver(t, a, i);
    var step := if i < |t| then ParseMember(t, i, nesting, sofar) else Stop;
    MembersByStep(t, i, nesting, sofar, step, r);
    p := MemberFollowed(t, nesting, step, r);
    var key, value := MemberTaken(t, i, nesting, sofar, step);
    pair := PairOfParts(t, a, i, nesting, key, value, sofar, step, p);
    member, next := Member(key.s, value.v), step.sofar;
  }

  lemma {:induction false} MembersDerived(t: Bytes, a: nat, nesting: nat, sofar: Table, r: Parse)
    returns (pairs: seq<Named>)
    requires a <= |t| && MembersTo(t, a, nesting, sofar, r)
    ensures PairsTo(t, a, pairs, sofar.members, r)
    decreases |t| - a, 4
  {
    var pair, member, p, next := FirstPair(t, a, nesting, sofar, r);
    if t[p] == COMMA {
      var more := MembersDerived(t, p + 1, nesting, next, r);
      pairs := PairsJoin(t, a, p, pair, member, more, sofar.members, r);
    } else {
      pairs := PairsOne(t, a, pair, member, sofar.members, p, r);
    }
  }
}
