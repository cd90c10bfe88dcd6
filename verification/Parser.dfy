/** The recursive-descent parser over a moving cursor. */
module Parser {
  import opened Text
  import opened Decimal
  import opened Strings
  import opened Values
  import opened ObjectStore
  import opened ArrayStore

  const TRUE_TOKEN: Bytes := [116, 114, 117, 101]
  const FALSE_TOKEN: Bytes := [102, 97, 108, 115, 101]
  const NULL_TOKEN: Bytes := [110, 117, 108, 108]

  // ----- what each parsing function returns, as a function of text and cursor -----

  datatype Parse = Fail | Done(v: Value, pos: nat)

  /** After one entry: what has been added, and the cursor behind the value. */
  datatype Step<T> = Stop | Next(sofar: T, pos: nat)

  /** After one round of a loop: another round follows a comma, and the end of the container otherwise. */
  datatype Round<T> = Refused | More(sofar: T, pos: nat) | Last(sofar: T, pos: nat)

  function AfterEntry<T>(t: Bytes, step: Step<T>): (r: Round<T>)
    requires step.Next? ==> step.pos <= |t|
    ensures !r.Refused? ==> step.Next? && step.pos <= r.pos <= |t|
    ensures r.More? ==> step.pos < r.pos
  {
    match step
    case Stop => Refused
    case Next(sofar, pos) =>
      var p := SkipSpace(t, pos);
      if Peek(t, p) == COMMA then More(sofar, SkipSpace(t, p + 1)) else Last(sofar, p)
  }

  datatype Quoted = NoString | AString(s: Bytes, pos: nat)

  /** get_quoted_string; the byte at `i` is skipped whatever it is. */
  function GetQuoted(t: Bytes, i: nat): (q: Quoted)
    requires i < |t|
    ensures q.AString? ==> i + 2 <= q.pos < |t| && NUL !in q.s
  {
    var scan := SkipQuotes(t, i + 1);
    if Peek(t, scan.end) == NUL then NoString
    else
      match Decode(t[i + 1..scan.end - 1])
      case None => NoString
      case Some(d) => AString(CString(d), scan.end)
  }

  function DigitsEnd(t: Bytes, i: nat): (e: nat)
    requires i <= |t|
    ensures i <= e <= |t| && !IsDigit(Peek(t, e))
    ensures forall k :: i <= k < e ==> IsDigit(t[k])
    decreases |t| - i
  {
    if IsDigit(Peek(t, i)) then DigitsEnd(t, i + 1) else i
  }

  predicate IsHexMark(b: byte) {
    b == 120 || b == 88
  }

  /** A hexadecimal numeral: a zero, the mark, and at least one digit. */
  predicate HexAt(t: Bytes, i: nat)
    requires i <= |t|
  {
    Peek(t, i) == ZERO && IsHexMark(Peek(t, i + 1)) && IsHex(Peek(t, i + 2))
  }

  function HexEnd(t: Bytes, i: nat): (e: nat)
    requires i <= |t|
    ensures i <= e <= |t| && forall k :: i <= k < e ==> IsHex(t[k])
    decreases |t| - i
  {
    if IsHex(Peek(t, i)) then HexEnd(t, i + 1) else i
  }

  function HexValue(s: Bytes): nat
    requires forall k :: 0 <= k < |s| ==> IsHex(s[k])
  {
    if s == [] then 0 else HexValue(s[..|s| - 1]) * 16 + HexDigit(s[|s| - 1])
  }

  /** The magnitude behind the sign, and where it ends. */
  function Magnitude(t: Bytes, i: nat): (r: (int, nat))
    requires i <= |t|
    ensures i <= r.1 <= |t|
  {
    if HexAt(t, i) then (HexValue(t[i + 2..HexEnd(t, i + 2)]), HexEnd(t, i + 2))
    else (DigitsValue(t[i..DigitsEnd(t, i)]), DigitsEnd(t, i))
  }

  /** `strtod` on integer text: the number and where it ends; a bare sign is not a number. */
  function ScanNumber(t: Bytes, i: nat): (r: (int, nat))
    requires i <= |t|
    ensures i <= r.1 <= |t|
  {
    var first := if Peek(t, i) == MINUS then i + 1 else i;
    var (n, end) := Magnitude(t, first);
    if end == first then (0, i)
    else (if first == i then n else -n, end)
  }

  predicate IsDecimal(s: Bytes) {
    && !(|s| > 1 && s[0] == ZERO && s[1] != 46)
    && !(|s| > 2 && s[..2] == [MINUS, ZERO] && s[2] != 46)
    && forall k :: 0 <= k < |s| ==> !IsHexMark(s[k])
  }

  function ParseNumber(t: Bytes, i: nat): (r: Parse)
    requires i <= |t|
    ensures r.Done? ==> i <= r.pos <= |t|
  {
    var (number, end) := ScanNumber(t, i);
    if IsDecimal(t[i..end]) then Done(Num(number), end) else Fail
  }

  function ParseToken(t: Bytes, i: nat): (r: Parse)
    requires i <= |t|
    ensures r.Done? ==> i <= r.pos <= |t|
  {
    if HasPrefix(t, i, TRUE_TOKEN) then Done(Bool(true), i + 4)
    else if HasPrefix(t, i, FALSE_TOKEN) then Done(Bool(false), i + 5)
    else Fail
  }

  function ParseNull(t: Bytes, i: nat): (r: Parse)
    requires i <= |t|
    ensures r.Done? ==> i <= r.pos <= |t|
  {
    if HasPrefix(t, i, NULL_TOKEN) then Done(Null, i + 4) else Fail
  }

  function ParseStr(t: Bytes, i: nat): (r: Parse)
    requires i < |t|
    ensures r.Done? ==> i <= r.pos <= |t|
  {
    match GetQuoted(t, i)
    case NoString => Fail
    case AString(s, pos) => Done(Str(s), pos)
  }

  function ParseValue(t: Bytes, i: nat, nesting: nat): (r: Parse)
    requires i <= |t|
    ensures r.Done? ==> i <= r.pos <= |t|
    decreases |t| - i, 2
  {
    var p := SkipSpace(t, i);
    var c := Peek(t, p);
    if nesting > MAX_NESTING then Fail
    else if c == LBRACE then ParseObject(t, p, nesting + 1)
    else if c == LBRACKET then ParseArray(t, p, nesting + 1)
    else if c == QUOTE then ParseStr(t, p)
    else if c == 102 || c == 116 then ParseToken(t, p)
    else if c == MINUS || IsDigit(c) then ParseNumber(t, p)
    else if c == 110 then ParseNull(t, p)
    else Fail
  }

  function ParseObject(t: Bytes, i: nat, nesting: nat): (r: Parse)
    requires i < |t|
    ensures r.Done? ==> i <= r.pos <= |t|
    decreases |t| - i, 1
  {
    var p := SkipSpace(t, i + 1);
    if Peek(t, p) == RBRACE then Done(Obj([], 0), p + 1)
    else ParseMembers(t, p, nesting, Table([], 0))
  }

  /** One member: the key, the colon, the value, and adding them; `pos` is behind the value. */
  function ParseMember(t: Bytes, i: nat, nesting: nat, sofar: Table): (r: Step<Table>)
    requires i < |t|
    ensures r.Next? ==> i < r.pos <= |t|
    decreases |t| - i, 3
  {
    var key := GetQuoted(t, i);
    if key.NoString? || Peek(t, SkipSpace(t, key.pos)) != COLON then Stop
    else
      var value := ParseValue(t, SkipSpace(t, key.pos) + 1, nesting);
      if value.Fail? then Stop
      else
        var (ok, next) := Add(sofar, key.s, Some(value.v));
        if ok then Next(next, value.pos) else Stop
  }

  /** The member loop of parse_object_value, with the members added so far. */
  function ParseMembers(t: Bytes, i: nat, nesting: nat, sofar: Table): (r: Parse)
    requires i <= |t|
    ensures r.Done? ==> i <= r.pos <= |t|
    decreases |t| - i, 4
  {
    if Peek(t, i) == NUL then FinishObject(t, i, sofar)
    else
      match AfterEntry(t, ParseMember(t, i, nesting, sofar))
      case Refused => Fail
      case More(next, pos) => ParseMembers(t, pos, nesting, next)
      case Last(next, pos) => FinishObject(t, pos, next)
  }

  lemma MemberUnfold(t: Bytes, i: nat, nesting: nat, sofar: Table, name: Bytes, d: nat, value: Parse)
    requires i < |t| && d <= |t| && GetQuoted(t, i).AString? && GetQuoted(t, i).s == name
    requires Peek(t, SkipSpace(t, GetQuoted(t, i).pos)) == COLON && SkipSpace(t, GetQuoted(t, i).pos) + 1 == d
    requires value == ParseValue(t, d, nesting)
    ensures ParseMember(t, i, nesting, sofar) ==
            if value.Fail? then Stop
            else if Add(sofar, name, Some(value.v)).0 then Next(Add(sofar, name, Some(value.v)).1, value.pos) else Stop
  {}

  function FinishObject(t: Bytes, i: nat, sofar: Table): (r: Parse)
    requires i <= |t|
    ensures r.Done? ==> i <= r.pos <= |t|
  {
    var p := SkipSpace(t, i);
    if Peek(t, p) != RBRACE || |sofar.members| == 0 then Fail
    else Done(Obj(sofar.members, |sofar.members|), p + 1)
  }

  function ParseArray(t: Bytes, i: nat, nesting: nat): (r: Parse)
    requires i < |t|
    ensures r.Done? ==> i <= r.pos <= |t|
    decreases |t| - i, 1
  {
    var p := SkipSpace(t, i + 1);
    if Peek(t, p) == RBRACKET then Done(Arr([], 0), p + 1)
    else ParseItems(t, p, nesting, Row([], 0))
  }

  /** One item: the value and adding it. */
  function ParseItem(t: Bytes, i: nat, nesting: nat, sofar: Row): (r: Step<Row>)
    requires i <= |t|
    ensures r.Next? ==> i <= r.pos <= |t|
    decreases |t| - i, 3
  {
    var value := ParseValue(t, i, nesting);
    if value.Fail? then Stop
    else
      var (ok, next) := Push(sofar, value.v);
      if ok then Next(next, value.pos) else Stop
  }

  /** The item loop of parse_array_value, with the items added so far. */
  function ParseItems(t: Bytes, i: nat, nesting: nat, sofar: Row): (r: Parse)
    requires i <= |t|
    ensures r.Done? ==> i <= r.pos <= |t|
    decreases |t| - i, 4
  {
    if Peek(t, i) == NUL then FinishArray(t, i, sofar)
    else
      match AfterEntry(t, ParseItem(t, i, nesting, sofar))
      case Refused => Fail
      case More(next, pos) => ParseItems(t, pos, nesting, next)
      case Last(next, pos) => FinishArray(t, pos, next)
  }

  function FinishArray(t: Bytes, i: nat, sofar: Row): (r: Parse)
    requires i <= |t|
    ensures r.Done? ==> i <= r.pos <= |t|
  {
    var p := SkipSpace(t, i);
    if Peek(t, p) != RBRACKET || |sofar.items| == 0 then Fail
    else Done(Arr(sofar.items, |sofar.items|), p + 1)
  }

  /** json_parse_string: the first value of the text, if that is an object or an array. */
  function ParseString(t: Bytes): Option<Value> {
    var p := SkipSpace(t, 0);
    if Peek(t, p) != LBRACE && Peek(t, p) != LBRACKET then None
    else
      match ParseValue(t, p, 0)
      case Fail => None
      case Done(v, _) => Some(v)
  }

  // ----- the code: one shared cursor that never passes the terminator -----

  method IsDecimalText(text: Bytes, at: nat, length: nat) returns (ok: bool)
    requires at + length <= |text|
    ensures ok == IsDecimal(text[at..at + length])
  {
    ghost var s := text[at..at + length];
    if length > 1 && text[at] == ZERO && text[at + 1] != 46 {
      return false;
    }
    if length > 2 && text[at..at + 2] == [MINUS, ZERO] && text[at + 2] != 46 {
      assert s[..2] == text[at..at + 2];
      return false;
    }
    assert length > 2 ==> s[..2] == text[at..at + 2];
    var left := length;
    while left > 0
      invariant 0 <= left <= length == |s|
      invariant forall k :: left <= k < length ==> !IsHexMark(s[k])
    {
      left := left - 1;
      if IsHexMark(text[at + left]) {
        assert s[left] == text[at + left];
        return false;
      }
    }
    return true;
  }

  class Cursor {
    const text: Bytes
    var pos: nat

    ghost predicate Valid()
      reads this
    {
      pos <= |text|
    }

    ghost predicate Matches(v: Option<Value>, r: Parse)
      reads this
    {
      && Valid()
      && (v == None <==> r.Fail?)
      && (v.Some? ==> r == Done(v.value, pos))
    }

    constructor (text: Bytes)
      ensures this.text == text && pos == 0 && Valid()
    {
      this.text, this.pos := text, 0;
    }

    method SkipWhitespaces()
      requires Valid()
      modifies this
      ensures pos == SkipSpace(text, old(pos))
    {
      while IsSpace(Peek(text, pos))
        invariant Valid()
        invariant SkipSpace(text, pos) == SkipSpace(text, old(pos))
        decreases |text| - pos
      {
        pos := pos + 1;
      }
    }

    method SkipToQuote()
      requires pos < |text|
      modifies this
      ensures pos == SkipQuotes(text, old(pos) + 1).end
    {
      pos := pos + 1;
      while Peek(text, pos) != QUOTE
        invariant Valid()
        invariant SkipQuotes(text, pos) == SkipQuotes(text, old(pos) + 1)
        decreases |text| - pos
      {
        if Peek(text, pos) == NUL {
          return;
        }
        if Peek(text, pos) == BACKSLASH {
          pos := pos + 1;
          if Peek(text, pos) == NUL {
            return;
          }
        }
        pos := pos + 1;
      }
      pos := pos + 1;
    }

    method QuotedString() returns (r: Option<Bytes>)
      requires pos < |text|
      modifies this
      ensures Valid() && old(pos) < pos
      ensures r == None <==> GetQuoted(text, old(pos)).NoString?
      ensures r.Some? ==> GetQuoted(text, old(pos)) == AString(r.value, pos)
    {
      var start := pos;
      SkipToQuote();
      if Peek(text, pos) == NUL {
        return None;
      }
      var len := pos - start - 2;
      var input := text[start + 1..pos];
      SkipQuotesIsBalanced(text, start + 1, pos);
      assert input[..len] == text[start + 1..pos - 1];
      r := ProcessString(input, len);
    }

    method Value(nesting: nat) returns (v: Option<Value>)
      requires Valid()
      modifies this
      ensures Matches(v, ParseValue(text, old(pos), nesting)) && old(pos) <= pos
      decreases |text| - pos, 2
    {
      if nesting > MAX_NESTING {
        return None;
      }
      SkipWhitespaces();
      var c := Peek(text, pos);
      if c == LBRACE {
        v := Object(nesting + 1);
      } else if c == LBRACKET {
        v := Array(nesting + 1);
      } else if c == QUOTE {
        var s := QuotedString();
        v := if s == None then None else Some(Str(s.value));
      } else if c == 102 || c == 116 {
        v := Boolean();
      } else if c == MINUS || IsDigit(c) {
        v := Number();
      } else if c == 110 {
        if !HasPrefix(text, pos, NULL_TOKEN) {
          return None;
        }
        pos := pos + |NULL_TOKEN|;
        v := Some(Null);
      } else {
        v := None;
      }
    }

    method Boolean() returns (v: Option<Value>)
      requires Valid()
      modifies this
      ensures Matches(v, ParseToken(text, old(pos))) && old(pos) <= pos
    {
      if HasPrefix(text, pos, TRUE_TOKEN) {
        pos := pos + |TRUE_TOKEN|;
        return Some(Bool(true));
      } else if HasPrefix(text, pos, FALSE_TOKEN) {
        pos := pos + |FALSE_TOKEN|;
        return Some(Bool(false));
      }
      return None;
    }

    method Number() returns (v: Option<Value>)
      requires Valid()
      modifies this
      ensures Matches(v, ParseNumber(text, old(pos))) && old(pos) <= pos
    {
      var (number, end) := ScanNumber(text, pos);
      var decimal := IsDecimalText(text, pos, end - pos);
      if !decimal {
        return None;
      }
      pos := end;
      return Some(Num(number));
    }

    method Object(nesting: nat) returns (v: Option<Value>)
      requires pos < |text|
      modifies this
      ensures Matches(v, ParseObject(text, old(pos), nesting)) && old(pos) <= pos
      decreases |text| - pos, 1
    {
      pos := pos + 1;
      SkipWhitespaces();
      if Peek(text, pos) == RBRACE {
        pos := pos + 1;
        return Some(Obj([], 0));
      }
      v := Members(nesting);
    }

    method Members(nesting: nat) returns (v: Option<Value>)
      requires Valid()
      modifies this
      ensures Matches(v, ParseMembers(text, old(pos), nesting, Table([], 0))) && old(pos) <= pos
      decreases |text| - pos, 5
    {
      var table := new JsonObject();
      ghost var expected := ParseMembers(text, pos, nesting, Table([], 0));
      while Peek(text, pos) != NUL
        invariant Valid() && old(pos) <= pos
        invariant fresh(table) && table.Valid()
        invariant table.names != null ==> fresh(table.names)
        invariant table.values != null ==> fresh(table.values)
        invariant ParseMembers(text, pos, nesting, table.Contents()) == expected
        decreases |text| - pos
      {
        var ok, more := MemberRound(nesting, table);
        if !ok {
          return None;
        }
        if !more {
          v := CloseObject(table);
          return;
        }
      }
      v := CloseObject(table);
    }

    method AddMember(nesting: nat, table: JsonObject) returns (ok: bool)
      requires pos < |text| && table.Valid()
      modifies this, table, table.names, table.values
      ensures Valid() && old(pos) < pos && table.Valid()
      ensures table.names == old(table.names) || fresh(table.names)
      ensures table.values == old(table.values) || fresh(table.values)
      ensures ParseMember(text, old(pos), nesting, old(table.Contents())) ==
              if ok then Next(table.Contents(), pos) else Stop
      decreases |text| - pos, 3
    {
      var key := QuotedString();
      SkipWhitespaces();
      if key == None || Peek(text, pos) != COLON {
        return false;
      }
      pos := pos + 1;
      MemberUnfold(text, old(pos), nesting, table.Contents(), key.value, pos, ParseValue(text, pos, nesting));
      var value := Value(nesting);
      if value == None {
        return false;
      }
      ok := table.AddValue(key.value, value);
    }

    /** One round of the loop: the member and the comma behind it, if there is one. */
    method MemberRound(nesting: nat, table: JsonObject) returns (ok: bool, more: bool)
      requires pos < |text| && Peek(text, pos) != NUL && table.Valid()
      modifies this, table, table.names, table.values
      ensures Valid() && old(pos) <= pos && table.Valid()
      ensures more ==> old(pos) < pos
      ensures table.names == old(table.names) || fresh(table.names)
      ensures table.values == old(table.values) || fresh(table.values)
      ensures AfterEntry(text, ParseMember(text, old(pos), nesting, old(table.Contents()))) ==
              if !ok then Refused else if more then More(table.Contents(), pos) else Last(table.Contents(), pos)
      decreases |text| - pos, 4
    {
      more := false;
      ok := AddMember(nesting, table);
      if ok {
        SkipWhitespaces();
        if Peek(text, pos) == COMMA {
          pos := pos + 1;
          SkipWhitespaces();
          more := true;
        }
      }
    }

    /** The end of parse_object_value: the closing brace, and the block cut to size. */
    method CloseObject(table: JsonObject) returns (v: Option<Value>)
      requires Valid() && table.Valid()
      modifies this, table
      ensures Matches(v, FinishObject(text, old(pos), old(table.Contents()))) && old(pos) <= pos
    {
      SkipWhitespaces();
      if Peek(text, pos) != RBRACE {
        return None;
      }
      var trimmed := table.Resize(table.count);
      if !trimmed {
        return None;
      }
      pos := pos + 1;
      var object' := table.ToValue();
      v := Some(object');
    }

    method Array(nesting: nat) returns (v: Option<Value>)
      requires pos < |text|
      modifies this
      ensures Matches(v, ParseArray(text, old(pos), nesting)) && old(pos) <= pos
      decreases |text| - pos, 1
    {
      pos := pos + 1;
      SkipWhitespaces();
      if Peek(text, pos) == RBRACKET {
        pos := pos + 1;
        return Some(Arr([], 0));
      }
      v := Items(nesting);
    }

    method Items(nesting: nat) returns (v: Option<Value>)
      requires Valid()
      modifies this
      ensures Matches(v, ParseItems(text, old(pos), nesting, Row([], 0))) && old(pos) <= pos
      decreases |text| - pos, 5
    {
      var list := new JsonArray();
      ghost var expected := ParseItems(text, pos, nesting, Row([], 0));
      while Peek(text, pos) != NUL
        invariant Valid() && old(pos) <= pos
        invariant fresh(list) && list.Valid() && (list.block != null ==> fresh(list.block))
        invariant ParseItems(text, pos, nesting, list.Contents()) == expected
        decreases |text| - pos
      {
        var ok, more := ItemRound(nesting, list);
        if !ok {
          return None;
        }
        if !more {
          v := CloseArray(list);
          return;
        }
      }
      v := CloseArray(list);
    }

    method AddItem(nesting: nat, list: JsonArray) returns (ok: bool)
      requires Valid() && list.Valid()
      modifies this, list, list.block
      ensures Valid() && old(pos) <= pos && list.Valid()
      ensures list.block == old(list.block) || fresh(list.block)
      ensures ParseItem(text, old(pos), nesting, old(list.Contents())) ==
              if ok then Next(list.Contents(), pos) else Stop
      decreases |text| - pos, 3
    {
      var value := Value(nesting);
      if value == None {
        return false;
      }
      ok := list.AddItem(value.value);
    }

    /** One round of the loop: the item and the comma behind it, if there is one. */
    method ItemRound(nesting: nat, list: JsonArray) returns (ok: bool, more: bool)
      requires pos < |text| && Peek(text, pos) != NUL && list.Valid()
      modifies this, list, list.block
      ensures Valid() && old(pos) <= pos && list.Valid()
      ensures more ==> old(pos) < pos
      ensures list.block == old(list.block) || fresh(list.block)
      ensures AfterEntry(text, ParseItem(text, old(pos), nesting, old(list.Contents()))) ==
              if !ok then Refused else if more then More(list.Contents(), pos) else Last(list.Contents(), pos)
      decreases |text| - pos, 4
    {
      more := false;
      ok := AddItem(nesting, list);
      if ok {
        SkipWhitespaces();
        if Peek(text, pos) == COMMA {
          pos := pos + 1;
          SkipWhitespaces();
          more := true;
        }
      }
    }

    method CloseArray(list: JsonArray) returns (v: Option<Value>)
      requires Valid() && list.Valid()
      modifies this, list
      ensures Matches(v, FinishArray(text, old(pos), old(list.Contents()))) && old(pos) <= pos
    {
      SkipWhitespaces();
      if Peek(text, pos) != RBRACKET {
        return None;
      }
      var trimmed := list.Resize(list.count);
      if !trimmed {
        return None;
      }
      pos := pos + 1;
      var array' := list.ToValue();
      v := Some(array');
    }
  }

  method JsonParseString(text: Bytes) returns (v: Option<Value>)
    ensures v == ParseString(text)
  {
    var cursor := new Cursor(text);
    cursor.SkipWhitespaces();
    var c := Peek(text, cursor.pos);
    if c != LBRACE && c != LBRACKET {
      return None;
    }
    v := cursor.Value(0);
  }
}
