/** What every parsed value is like, for every text. */
module ParserOutput {
  import opened Text
  import opened Values
  import opened ObjectStore
  import opened ArrayStore
  import opened Parser

  /** Every block holds exactly its entries. */
  predicate Tight(v: Value) {
    match v
    case Arr(items, cap) => cap == |items| && forall k :: 0 <= k < |items| ==> Tight(items[k])
    case Obj(members, cap) => cap == |members| && forall k :: 0 <= k < |members| ==> Tight(members[k].value)
    case _ => true
  }

  lemma {:induction false} TightIsTrimmed(v: Value)
    requires Tight(v)
    ensures Trim(v) == v
    decreases v, 1
  {
    match v
    case Arr(items, _) => TightItems(items);
    case Obj(members, _) => TightMembers(members);
    case _ =>
  }

  lemma {:induction false} TightItems(items: seq<Value>)
    requires forall k :: 0 <= k < |items| ==> Tight(items[k])
    ensures TrimItems(items) == items
    decreases items, 0
  {
    if items != [] {
      TightIsTrimmed(items[0]);
      TightItems(items[1..]);
    }
  }

  lemma {:induction false} TightMembers(members: seq<Member>)
    requires forall k :: 0 <= k < |members| ==> Tight(members[k].value)
    ensures TrimMembers(members) == members
    decreases members, 0
  {
    if members != [] {
      TightIsTrimmed(members[0].value);
      TightMembers(members[1..]);
    }
  }

  /** A value the parser may return `depth` containers down. */
  ghost predicate Sound(v: Value, depth: nat) {
    Shaped(v, depth) && Tight(v)
  }

  ghost predicate SoundTable(table: Table, depth: nat) {
    && Good(table)
    && forall k :: 0 <= k < |table.members| ==> NUL !in table.members[k].name && Sound(table.members[k].value, depth)
  }

  ghost predicate SoundRow(row: Row, depth: nat) {
    && |row.items| <= row.cap <= ARRAY_MAX_CAPACITY
    && forall k :: 0 <= k < |row.items| ==> Sound(row.items[k], depth)
  }

  /**
   * For every text and cursor: a returned value has distinct names, sizes within the caps, no node
   * deeper than MAX_NESTING, and blocks cut to size.
   */
  lemma {:induction false} ParsedIsSound(t: Bytes, i: nat, nesting: nat)
    requires i <= |t|
    ensures ParseValue(t, i, nesting).Done? ==> Sound(ParseValue(t, i, nesting).v, nesting)
    ensures ParseValue(t, i, nesting).Done? && Peek(t, SkipSpace(t, i)) == LBRACE ==> ParseValue(t, i, nesting).v.Obj?
    ensures ParseValue(t, i, nesting).Done? && Peek(t, SkipSpace(t, i)) == LBRACKET ==> ParseValue(t, i, nesting).v.Arr?
    decreases |t| - i, 2
  {
    var p := SkipSpace(t, i);
    if nesting <= MAX_NESTING {
      if Peek(t, p) == LBRACE {
        ObjectIsSound(t, p, nesting);
      } else if Peek(t, p) == LBRACKET {
        ArrayIsSound(t, p, nesting);
      }
    }
  }

  lemma ObjectIsSound(t: Bytes, i: nat, nesting: nat)
    requires i < |t| && nesting <= MAX_NESTING
    ensures ParseObject(t, i, nesting + 1).Done? ==>
              Sound(ParseObject(t, i, nesting + 1).v, nesting) && ParseObject(t, i, nesting + 1).v.Obj?
    decreases |t| - i, 1
  {
    MembersAreSound(t, SkipSpace(t, i + 1), nesting, Table([], 0));
  }

  lemma {:induction false} MembersAreSound(t: Bytes, i: nat, nesting: nat, sofar: Table)
    requires i <= |t| && nesting <= MAX_NESTING && SoundTable(sofar, nesting + 1)
    ensures ParseMembers(t, i, nesting + 1, sofar).Done? ==>
              Sound(ParseMembers(t, i, nesting + 1, sofar).v, nesting) && ParseMembers(t, i, nesting + 1, sofar).v.Obj?
    decreases |t| - i, 4
  {
    if Peek(t, i) != NUL {
      MemberIsSound(t, i, nesting + 1, sofar);
      var round := AfterEntry(t, ParseMember(t, i, nesting + 1, sofar));
      if round.More? {
        MembersAreSound(t, round.pos, nesting, round.sofar);
      }
    }
  }

  lemma MemberIsSound(t: Bytes, i: nat, depth: nat, sofar: Table)
    requires i < |t| && SoundTable(sofar, depth)
    ensures ParseMember(t, i, depth, sofar).Next? ==> SoundTable(ParseMember(t, i, depth, sofar).sofar, depth)
    decreases |t| - i, 3
  {
    var key := GetQuoted(t, i);
    if key.AString? && Peek(t, SkipSpace(t, key.pos)) == COLON {
      var value := ParseValue(t, SkipSpace(t, key.pos) + 1, depth);
      ParsedIsSound(t, SkipSpace(t, key.pos) + 1, depth);
      if value.Done? {
        AddKeepsGood(sofar, key.s, Some(value.v));
      }
    }
  }

  lemma ArrayIsSound(t: Bytes, i: nat, nesting: nat)
    requires i < |t| && nesting <= MAX_NESTING
    ensures ParseArray(t, i, nesting + 1).Done? ==>
              Sound(ParseArray(t, i, nesting + 1).v, nesting) && ParseArray(t, i, nesting + 1).v.Arr?
    decreases |t| - i, 1
  {
    ItemsAreSound(t, SkipSpace(t, i + 1), nesting, Row([], 0));
  }

  lemma {:induction false} ItemsAreSound(t: Bytes, i: nat, nesting: nat, sofar: Row)
    requires i <= |t| && nesting <= MAX_NESTING && SoundRow(sofar, nesting + 1)
    ensures ParseItems(t, i, nesting + 1, sofar).Done? ==>
              Sound(ParseItems(t, i, nesting + 1, sofar).v, nesting) && ParseItems(t, i, nesting + 1, sofar).v.Arr?
    decreases |t| - i, 4
  {
    if Peek(t, i) != NUL {
      ParsedIsSound(t, i, nesting + 1);
      var round := AfterEntry(t, ParseItem(t, i, nesting + 1, sofar));
      if round.More? {
        ItemsAreSound(t, round.pos, nesting, round.sofar);
      }
    }
  }
}
