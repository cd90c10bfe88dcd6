/** The serialiser: one routine that measures when it has no buffer and writes when it has one. */
module Serializer {
  import opened Text
  import opened Decimal
  import opened Strings
  import opened Values
  import opened Parser

  // ----- the text of a value -----

  const INDENT: Bytes := [SPACE, SPACE, SPACE, SPACE]

  function Indent(level: nat): Bytes {
    if level == 0 then [] else INDENT + Indent(level - 1)
  }

  function When(c: bool, s: Bytes): Bytes {
    if c then s else []
  }

  /** The text of a value; a member's value is looked up by its name, as the code does. */
  function Emit(v: Value, level: nat, pretty: bool): Bytes
    decreases v, 3
  {
    match v
    case Null => NULL_TOKEN
    case Bool(b) => if b then TRUE_TOKEN else FALSE_TOKEN
    case Num(n) => PrintInt(n)
    case Str(s) => Quote(s)
    case Arr(items, _) =>
      Container(LBRACKET, EmitItems(items, 0, level, pretty), RBRACKET, items != [] && pretty, level)
    case Obj(members, _) =>
      Container(LBRACE, EmitMembers(members, 0, level, pretty), RBRACE, members != [] && pretty, level)
  }

  function Container(open: byte, entries: Bytes, close: byte, spread: bool, level: nat): Bytes {
    [open] + When(spread, [NEWLINE]) + entries + When(spread, Indent(level)) + [close]
  }

  function EntryEnd(last: bool, pretty: bool): Bytes {
    When(!last, [COMMA]) + When(pretty, [NEWLINE])
  }

  function EmitItem(v: Value, level: nat, pretty: bool, last: bool): Bytes
    decreases v, 4
  {
    When(pretty, Indent(level)) + Emit(v, level, pretty) + EntryEnd(last, pretty)
  }

  function EmitItems(items: seq<Value>, k: nat, level: nat, pretty: bool): Bytes
    requires k <= |items|
    decreases items, 0, |items| - k
  {
    if k == |items| then []
    else EmitItem(items[k], level + 1, pretty, k == |items| - 1) + EmitItems(items, k + 1, level, pretty)
  }

  function EmitMember(name: Bytes, v: Value, level: nat, pretty: bool, last: bool): Bytes
    decreases v, 4
  {
    When(pretty, Indent(level)) + Quote(name) + [COLON] + When(pretty, [SPACE])
    + Emit(v, level, pretty) + EntryEnd(last, pretty)
  }

  function EmitMembers(members: seq<Member>, k: nat, level: nat, pretty: bool): Bytes
    requires k <= |members|
    decreases members, 0, |members| - k
  {
    if k == |members| then []
    else
      var name := members[k].name;
      EmitMember(name, members[Find(members, name)].value, level + 1, pretty, k == |members| - 1)
      + EmitMembers(members, k + 1, level, pretty)
  }

  // ----- the code -----

  /** What the append macros advance: the buffer, if there is one, and the count of bytes. */
  class Output {
    const buf: array?<byte>
    var total: nat
    ghost var text: Bytes
    ghost const before: Bytes

    ghost predicate Valid()
      reads this, buf
    {
      && total == |text|
      && (buf != null ==>
            && buf.Length == |before| && |text| < |before|
            && buf[..|text|] == text
            && buf[|text| + 1..] == before[|text| + 1..])
    }

    /** `n` more bytes and a NUL still fit into the buffer. */
    ghost predicate Room(n: nat)
      reads this
    {
      buf != null ==> |text| + n < |before|
    }

    /** The text ends in a NUL, as `sprintf` leaves it. */
    ghost predicate Ended()
      reads this, buf
    {
      buf != null ==> |text| < buf.Length && buf[|text|] == NUL
    }

    constructor (buf: array?<byte>)
      requires buf != null ==> buf.Length > 0
      ensures Valid() && text == [] && this.buf == buf
      ensures buf != null ==> before == buf[..]
    {
      this.buf, total, text := buf, 0, [];
      before := if buf != null then buf[..] else [];
    }

    /** append_string: `sprintf` into the buffer, or only the length. */
    method Append(s: Bytes)
      requires Valid() && Room(|s|)
      modifies this, buf
      ensures Valid() && text == old(text) + s && Ended()
    {
      if buf != null {
        forall k | 0 <= k < |s| {
          buf[total + k] := s[k];
        }
        buf[total + |s|] := NUL;
      }
      total, text := total + |s|, text + s;
    }

    /** The default case of json_serialize_string: one byte, and no NUL behind it. */
    method Put(b: byte)
      requires Valid() && Room(1)
      modifies this, buf
      ensures Valid() && text == old(text) + [b]
    {
      if buf != null {
        buf[total] := b;
      }
      total, text := total + 1, text + [b];
    }

    method AppendIndent(level: nat)
      requires Valid() && Room(|Indent(level)|)
      modifies this, buf
      ensures Valid() && text == old(text) + Indent(level)
    {
      ghost var whole := text + Indent(level);
      for i := 0 to level
        invariant Valid() && Room(|Indent(level - i)|)
        invariant text + Indent(level - i) == whole
      {
        ghost var was := text;
        Append(INDENT);
        assert was + (INDENT + Indent(level - i - 1)) == text + Indent(level - i - 1);
      }
    }

    /** The switch of json_serialize_string. */
    method Escape(c: byte)
      requires Valid() && Room(|EscapeByte(c)|)
      modifies this, buf
      ensures Valid() && text == old(text) + EscapeByte(c)
    {
      if c == QUOTE { Append([BACKSLASH, QUOTE]); }
      else if c == BACKSLASH { Append([BACKSLASH, BACKSLASH]); }
      else if c == SLASH { Append([BACKSLASH, SLASH]); }
      else if c == BACKSPACE { Append([BACKSLASH, 98]); }
      else if c == FORMFEED { Append([BACKSLASH, 102]); }
      else if c == NEWLINE { Append([BACKSLASH, 110]); }
      else if c == RETURN { Append([BACKSLASH, 114]); }
      else if c == TAB { Append([BACKSLASH, 116]); }
      else { Put(c); }
    }

    method String(s: Bytes)
      requires Valid() && Room(|Quote(s)|)
      modifies this, buf
      ensures Valid() && text == old(text) + Quote(s) && Ended()
    {
      ghost var start := text;
      Append([QUOTE]);
      var i := 0;
      ghost var body := text + EscapeAll(s);
      assert s[0..] == s;
      while i < |s|
        invariant i <= |s| && Valid() && Room(|EscapeAll(s[i..])| + 1)
        invariant text + EscapeAll(s[i..]) == body
      {
        ghost var was := text;
        assert s[i..][1..] == s[i + 1..];
        Escape(s[i]);
        Assoc(was, EscapeByte(s[i]), EscapeAll(s[i + 1..]));
        i := i + 1;
      }
      Append([QUOTE]);
      Assoc(start, [QUOTE], EscapeAll(s));
      Assoc(start, [QUOTE] + EscapeAll(s), [QUOTE]);
    }

    method AppendWhen(c: bool, s: Bytes)
      requires Valid() && Room(|When(c, s)|)
      modifies this, buf
      ensures Valid() && text == old(text) + When(c, s)
    {
      if c {
        Append(s);
      }
    }

    method IndentWhen(c: bool, level: nat)
      requires Valid() && Room(|When(c, Indent(level))|)
      modifies this, buf
      ensures Valid() && text == old(text) + When(c, Indent(level))
    {
      if c {
        AppendIndent(level);
      }
    }

    /** json_serialize_to_buffer_r. */
    method Value(v: Values.Value, level: nat, pretty: bool)
      requires Valid() && Room(|Emit(v, level, pretty)|)
      modifies this, buf
      ensures Valid() && text == old(text) + Emit(v, level, pretty) && Ended()
      decreases v, 3
    {
      match v
      case Null => Append(NULL_TOKEN);
      case Bool(b) => Append(if b then TRUE_TOKEN else FALSE_TOKEN);
      case Num(n) => Append(PrintInt(n));
      case Str(s) => String(s);
      case Arr(items, _) => Array(items, level, pretty);
      case Obj(members, _) => Object(members, level, pretty);
    }

    method Array(items: seq<Values.Value>, level: nat, pretty: bool)
      requires Valid() && Room(|Container(LBRACKET, EmitItems(items, 0, level, pretty), RBRACKET,
                items != [] && pretty, level)|)
      modifies this, buf
      ensures Valid() && Ended()
      ensures text == old(text)
              + Container(LBRACKET, EmitItems(items, 0, level, pretty), RBRACKET, items != [] && pretty, level)
      decreases items, 2
    {
      var spread := |items| > 0 && pretty;
      ghost var start := text;
      Append([LBRACKET]);
      AppendWhen(spread, [NEWLINE]);
      Items(items, level, pretty);
      IndentWhen(spread, level);
      Append([RBRACKET]);
      ContainerAssoc(start, LBRACKET, EmitItems(items, 0, level, pretty), RBRACKET, spread, level);
    }

    method Items(items: seq<Values.Value>, level: nat, pretty: bool)
      requires Valid() && Room(|EmitItems(items, 0, level, pretty)|)
      modifies this, buf
      ensures Valid() && text == old(text) + EmitItems(items, 0, level, pretty)
      decreases items, 1
    {
      var i := 0;
      ghost var whole := text + EmitItems(items, 0, level, pretty);
      while i < |items|
        invariant i <= |items| && Valid()
        invariant Room(|EmitItems(items, i, level, pretty)|)
        invariant text + EmitItems(items, i, level, pretty) == whole
      {
        ghost var was, rest := text, EmitItems(items, i + 1, level, pretty);
        Item(items[i], level + 1, pretty, i == |items| - 1);
        Assoc(was, EmitItem(items[i], level + 1, pretty, i == |items| - 1), rest);
        i := i + 1;
      }
    }

    method Item(v: Values.Value, level: nat, pretty: bool, last: bool)
      requires Valid() && Room(|EmitItem(v, level, pretty, last)|)
      modifies this, buf
      ensures Valid() && text == old(text) + EmitItem(v, level, pretty, last)
      decreases v, 4
    {
      ghost var start := text;
      IndentWhen(pretty, level);
      Value(v, level, pretty);
      EndEntry(last, pretty);
      ghost var a, b, c := When(pretty, Indent(level)), Emit(v, level, pretty), EntryEnd(last, pretty);
      Assoc(start, a, b);
      Assoc(start, a + b, c);
    }

    method EndEntry(last: bool, pretty: bool)
      requires Valid() && Room(|EntryEnd(last, pretty)|)
      modifies this, buf
      ensures Valid() && text == old(text) + EntryEnd(last, pretty)
    {
      ghost var start := text;
      AppendWhen(!last, [COMMA]);
      AppendWhen(pretty, [NEWLINE]);
      Assoc(start, When(!last, [COMMA]), When(pretty, [NEWLINE]));
    }

    method Object(members: seq<Member>, level: nat, pretty: bool)
      requires Valid() && Room(|Container(LBRACE, EmitMembers(members, 0, level, pretty), RBRACE,
                members != [] && pretty, level)|)
      modifies this, buf
      ensures Valid() && Ended()
      ensures text == old(text)
              + Container(LBRACE, EmitMembers(members, 0, level, pretty), RBRACE, members != [] && pretty, level)
      decreases members, 2
    {
      var spread := |members| > 0 && pretty;
      ghost var start := text;
      Append([LBRACE]);
      AppendWhen(spread, [NEWLINE]);
      Members(members, level, pretty);
      IndentWhen(spread, level);
      Append([RBRACE]);
      ContainerAssoc(start, LBRACE, EmitMembers(members, 0, level, pretty), RBRACE, spread, level);
    }

    method Members(members: seq<Member>, level: nat, pretty: bool)
      requires Valid() && Room(|EmitMembers(members, 0, level, pretty)|)
      modifies this, buf
      ensures Valid() && text == old(text) + EmitMembers(members, 0, level, pretty)
      decreases members, 1
    {
      var i := 0;
      ghost var whole := text + EmitMembers(members, 0, level, pretty);
      while i < |members|
        invariant i <= |members| && Valid()
        invariant Room(|EmitMembers(members, i, level, pretty)|)
        invariant text + EmitMembers(members, i, level, pretty) == whole
      {
        ghost var was, rest := text, EmitMembers(members, i + 1, level, pretty);
        var name := members[i].name;
        var v := members[Find(members, name)].value;
        Member(name, v, level + 1, pretty, i == |members| - 1);
        Assoc(was, EmitMember(name, v, level + 1, pretty, i == |members| - 1), rest);
        i := i + 1;
      }
    }

    method Member(name: Bytes, v: Values.Value, level: nat, pretty: bool, last: bool)
      requires Valid() && Room(|EmitMember(name, v, level, pretty, last)|)
      modifies this, buf
      ensures Valid() && text == old(text) + EmitMember(name, v, level, pretty, last)
      decreases v, 4
    {
      ghost var start := text;
      IndentWhen(pretty, level);
      String(name);
      Append([COLON]);
      AppendWhen(pretty, [SPACE]);
      ghost var a, b, c, d := When(pretty, Indent(level)), Quote(name), [COLON], When(pretty, [SPACE]);
      Assoc4(start, a, b, c, d);
      ghost var e, f := Emit(v, level, pretty), EntryEnd(last, pretty);
      Value(v, level, pretty);
      Assoc(start, a + b + c + d, e);
      EndEntry(last, pretty);
      Assoc(start, a + b + c + d + e, f);
    }
  }

  lemma Assoc4(s: Bytes, a: Bytes, b: Bytes, c: Bytes, d: Bytes)
    ensures s + a + b + c + d == s + (a + b + c + d)
  {
    Assoc(s, a, b);
    Assoc(s, a + b, c);
    Assoc(s, a + b + c, d);
  }

  lemma ContainerAssoc(s: Bytes, open: byte, entries: Bytes, close: byte, spread: bool, level: nat)
    ensures s + [open] + When(spread, [NEWLINE]) + entries + When(spread, Indent(level)) + [close]
         == s + Container(open, entries, close, spread, level)
  {
    Assoc4(s, [open], When(spread, [NEWLINE]), entries, When(spread, Indent(level)));
    Assoc(s, [open] + When(spread, [NEWLINE]) + entries + When(spread, Indent(level)), [close]);
  }

  /** json_serialization_size and its pretty twin: the count of the pass without a buffer, plus a NUL. */
  method SerializationSize(v: Values.Value, pretty: bool) returns (size: nat)
    ensures size == |Emit(v, 0, pretty)| + 1
  {
    var output := new Output(null);
    output.Value(v, 0, pretty);
    size := output.total + 1;
  }

  /** json_serialize_to_buffer: all or nothing, exactly `size - 1` bytes and a NUL. */
  method SerializeToBuffer(v: Values.Value, buf: array<byte>, size: nat, pretty: bool) returns (ok: bool)
    requires size <= buf.Length
    modifies buf
    ensures ok <==> |Emit(v, 0, pretty)| + 1 <= size
    ensures !ok ==> buf[..] == old(buf[..])
    ensures ok ==>
              var text := Emit(v, 0, pretty);
              buf[..] == text + [NUL] + old(buf[..])[|text| + 1..]
  {
    var needed := SerializationSize(v, pretty);
    if size < needed {
      return false;
    }
    var output := new Output(buf);
    output.Value(v, 0, pretty);
    ghost var text := Emit(v, 0, pretty);
    assert [] + text == text;
    assert buf[..] == buf[..|text|] + [buf[|text|]] + buf[|text| + 1..];
    return true;
  }

  /** json_serialize_to_string: a block of exactly the measured size. */
  method SerializeToString(v: Values.Value, pretty: bool) returns (r: array<byte>)
    ensures fresh(r) && r[..] == Emit(v, 0, pretty) + [NUL]
  {
    var size := SerializationSize(v, pretty);
    r := new byte[size];
    var ok := SerializeToBuffer(v, r, size, pretty);
    assert r[..] == Emit(v, 0, pretty) + [NUL];
  }
}
