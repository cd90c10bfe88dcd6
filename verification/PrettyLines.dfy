/** Pretty text line by line: where lines break and how far each is indented, written apart from the serialiser. */
module PrettyLines {
  import opened Text
  import opened Decimal
  import opened Strings
  import opened Values
  import opened Serializer

  /** A line without its indentation, and how many containers are open around it. */
  datatype Line = Line(depth: nat, text: Bytes)

  /** The text of a value that fits on a line: a scalar or an empty container. */
  function Scalar(v: Value): Bytes {
    match v
    case Null => Spell("null")
    case Bool(b) => if b then Spell("true") else Spell("false")
    case Num(n) => PrintInt(n)
    case Str(s) => Quote(s)
    case Arr(_, _) => Spell("[]")
    case Obj(_, _) => Spell("{}")
  }

  /** An entry and what follows it: a comma, unless it is the last one. */
  function Comma(last: bool): Bytes {
    if last then [] else Spell(",")
  }

  /**
   * The lines of a value that has `before` in front of it and `behind` after it: one line, or a line that
   * opens it, the lines of its entries one level deeper, and a line that closes it.
   */
  function LinesOf(v: Value, depth: nat, before: Bytes, behind: Bytes): seq<Line>
    decreases v, 1
  {
    match v
    case Arr(items, _) =>
      if items == [] then [Line(depth, before + Scalar(v) + behind)]
      else [Line(depth, before + Spell("["))] + ItemLines(items, 0, depth + 1) + [Line(depth, Spell("]") + behind)]
    case Obj(members, _) =>
      if members == [] then [Line(depth, before + Scalar(v) + behind)]
      else [Line(depth, before + Spell("{"))] + MemberLines(members, 0, depth + 1) + [Line(depth, Spell("}") + behind)]
    case _ => [Line(depth, before + Scalar(v) + behind)]
  }

  function ItemLines(items: seq<Value>, k: nat, depth: nat): seq<Line>
    requires k <= |items|
    decreases items, 0, |items| - k
  {
    if k == |items| then []
    else LinesOf(items[k], depth, [], Comma(k == |items| - 1)) + ItemLines(items, k + 1, depth)
  }

  function MemberLines(members: seq<Member>, k: nat, depth: nat): seq<Line>
    requires k <= |members|
    decreases members, 0, |members| - k
  {
    if k == |members| then []
    else
      LinesOf(members[k].value, depth, Quote(members[k].name) + Spell(": "), Comma(k == |members| - 1))
      + MemberLines(members, k + 1, depth)
  }

  function Blanks(n: nat): (s: Bytes)
    ensures |s| == n && forall k :: 0 <= k < n ==> s[k] == SPACE
  {
    seq(n, _ => SPACE)
  }

  /** Four blanks for each level, the text, and a line feed. */
  function LineText(l: Line): Bytes {
    Blanks(4 * l.depth) + l.text + [NEWLINE]
  }

  function TextOf(lines: seq<Line>): Bytes {
    if lines == [] then [] else LineText(lines[0]) + TextOf(lines[1..])
  }

  lemma {:induction false} TextConcat(a: seq<Line>, b: seq<Line>)
    ensures TextOf(a + b) == TextOf(a) + TextOf(b)
  {
    if a == [] {
      assert a + b == b;
    } else {
      assert (a + b)[1..] == a[1..] + b;
      TextConcat(a[1..], b);
      Assoc(LineText(a[0]), TextOf(a[1..]), TextOf(b));
    }
  }

  lemma TextOne(l: Line)
    ensures TextOf([l]) == LineText(l)
  {
    assert TextOf([l]) == LineText(l) + [];
  }

  lemma {:induction false} IndentBlanks(level: nat)
    ensures Indent(level) == Blanks(4 * level)
  {
    if level > 0 {
      IndentBlanks(level - 1);
    }
  }

  lemma ScalarText(v: Value, level: nat)
    requires (v.Arr? ==> v.items == []) && (v.Obj? ==> v.members == [])
    ensures Emit(v, level, true) == Scalar(v)
  {
    match v
    case Arr(_, _) => assert Container(LBRACKET, [], RBRACKET, false, level) == Spell("[]");
    case Obj(_, _) => assert Container(LBRACE, [], RBRACE, false, level) == Spell("{}");
    case _ =>
  }

  lemma ScalarLine(v: Value, level: nat, before: Bytes, behind: Bytes)
    requires (v.Arr? ==> v.items == []) && (v.Obj? ==> v.members == [])
    ensures TextOf(LinesOf(v, level, before, behind)) ==
            Blanks(4 * level) + (before + Emit(v, level, true) + behind) + [NEWLINE]
  {
    ScalarText(v, level);
    TextOne(Line(level, before + Scalar(v) + behind));
  }

  /** The text of a container, entry lines and all, from its indentation to the line feed. */
  lemma ContainerLines(level: nat, before: Bytes, behind: Bytes, open: byte, close: byte, inner: seq<Line>,
                       entries: Bytes)
    requires TextOf(inner) == entries
    ensures TextOf([Line(level, before + [open])] + inner + [Line(level, [close] + behind)]) ==
            Blanks(4 * level) + (before + Container(open, entries, close, true, level) + behind) + [NEWLINE]
  {
    var first, last := Line(level, before + [open]), Line(level, [close] + behind);
    TextOne(first);
    TextOne(last);
    TextConcat([first], inner);
    TextConcat([first] + inner, [last]);
    IndentBlanks(level);
    ContainerText(Blanks(4 * level), before, behind, open, close, entries);
  }

  lemma ContainerText(ind: Bytes, before: Bytes, behind: Bytes, open: byte, close: byte, entries: Bytes)
    ensures ind + (before + [open]) + [NEWLINE] + entries + (ind + ([close] + behind) + [NEWLINE]) ==
            ind + (before + ([open] + [NEWLINE] + entries + ind + [close]) + behind) + [NEWLINE]
  {}

  lemma MarksSpelled()
    ensures Spell("[") == [LBRACKET] && Spell("]") == [RBRACKET] && Spell("{") == [LBRACE] && Spell("}") == [RBRACE]
  {}

  lemma CommaText(last: bool)
    ensures EntryEnd(last, true) == Comma(last) + [NEWLINE]
  {
    assert Spell(",") == [COMMA];
  }

  lemma EntryText(level: nat, before: Bytes, text: Bytes, last: bool)
    ensures Blanks(4 * level) + (before + text + Comma(last)) + [NEWLINE] ==
            Indent(level) + before + text + EntryEnd(last, true)
  {
    IndentBlanks(level);
    CommaText(last);
    var ind, comma := Indent(level), Comma(last);
    Assoc(ind, before + text, comma);
    Assoc(ind, before, text);
    Assoc(ind + before + text, comma, [NEWLINE]);
  }

  lemma {:induction false} EmitLines(v: Value, level: nat, before: Bytes, behind: Bytes, d: nat)
    requires Shaped(v, d)
    ensures TextOf(LinesOf(v, level, before, behind)) ==
            Blanks(4 * level) + (before + Emit(v, level, true) + behind) + [NEWLINE]
    decreases v, 1
  {
    if v.Arr? && v.items != [] {
      EmitItemLines(v.items, 0, level, d + 1);
      MarksSpelled();
      ContainerLines(level, before, behind, LBRACKET, RBRACKET, ItemLines(v.items, 0, level + 1),
                     EmitItems(v.items, 0, level, true));
    } else if v.Obj? && v.members != [] {
      EmitMemberLines(v.members, 0, level, d + 1);
      MarksSpelled();
      ContainerLines(level, before, behind, LBRACE, RBRACE, MemberLines(v.members, 0, level + 1),
                     EmitMembers(v.members, 0, level, true));
    } else {
      ScalarLine(v, level, before, behind);
    }
  }

  lemma ItemText(v: Value, level: nat, last: bool)
    ensures Blanks(4 * level) + ([] + Emit(v, level, true) + Comma(last)) + [NEWLINE] == EmitItem(v, level, true, last)
  {
    EntryText(level, [], Emit(v, level, true), last);
    assert Indent(level) + [] == Indent(level);
  }

  lemma {:induction false} EmitItemLines(items: seq<Value>, k: nat, level: nat, d: nat)
    requires k <= |items| && forall j :: 0 <= j < |items| ==> Shaped(items[j], d)
    ensures TextOf(ItemLines(items, k, level + 1)) == EmitItems(items, k, level, true)
    decreases items, 0, |items| - k
  {
    if k < |items| {
      var last := k == |items| - 1;
      EmitLines(items[k], level + 1, [], Comma(last), d);
      ItemText(items[k], level + 1, last);
      EmitItemLines(items, k + 1, level, d);
      TextConcat(LinesOf(items[k], level + 1, [], Comma(last)), ItemLines(items, k + 1, level + 1));
    }
  }

  lemma MemberText(name: Bytes, v: Value, level: nat, last: bool)
    ensures Blanks(4 * level) + (Quote(name) + Spell(": ") + Emit(v, level, true) + Comma(last)) + [NEWLINE] ==
            EmitMember(name, v, level, true, last)
  {
    assert Spell(": ") == [COLON] + [SPACE];
    EntryText(level, Quote(name) + Spell(": "), Emit(v, level, true), last);
    Assoc(Quote(name), [COLON], [SPACE]);
    Assoc(Indent(level), Quote(name) + [COLON], [SPACE]);
    Assoc(Indent(level), Quote(name), [COLON]);
  }

  lemma {:induction false} EmitMemberLines(members: seq<Member>, k: nat, level: nat, d: nat)
    requires k <= |members| && Distinct(members)
    requires forall j :: 0 <= j < |members| ==> Shaped(members[j].value, d)
    ensures TextOf(MemberLines(members, k, level + 1)) == EmitMembers(members, k, level, true)
    decreases members, 0, |members| - k
  {
    if k < |members| {
      var last, name, v := k == |members| - 1, members[k].name, members[k].value;
      FindDistinct(members, k);
      EmitLines(v, level + 1, Quote(name) + Spell(": "), Comma(last), d);
      MemberText(name, v, level + 1, last);
      EmitMemberLines(members, k + 1, level, d);
      TextConcat(LinesOf(v, level + 1, Quote(name) + Spell(": "), Comma(last)), MemberLines(members, k + 1, level + 1));
    }
  }

  /** Pretty output is the lines of the value, each on a line of its own and indented by four blanks a level. */
  lemma PrettyIsLines(v: Value)
    requires Shaped(v, 0)
    ensures Emit(v, 0, true) + Spell("\n") == TextOf(LinesOf(v, 0, [], []))
  {
    EmitLines(v, 0, [], [], 0);
    assert Spell("\n") == [NEWLINE] && Blanks(0) == [];
    assert [] + ([] + Emit(v, 0, true) + []) == Emit(v, 0, true);
  }

  // ----- a line holds no line feed -----

  ghost predicate OneLineEach(lines: seq<Line>) {
    forall k :: 0 <= k < |lines| ==> NEWLINE !in lines[k].text
  }

  lemma {:induction false} QuoteOneLine(s: Bytes)
    ensures NEWLINE !in EscapeAll(s)
  {
    if s != [] {
      QuoteOneLine(s[1..]);
    }
  }

  lemma ScalarOneLine(v: Value)
    ensures NEWLINE !in Scalar(v)
  {
    match v
    case Num(n) => PrintNatDigits(if n < 0 then -n else n);
    case Str(s) => QuoteOneLine(s);
    case _ =>
  }

  /** No line of pretty text breaks: a line feed inside a string is written as an escape. */
  lemma {:induction false} LinesAreLines(v: Value, depth: nat, before: Bytes, behind: Bytes)
    requires NEWLINE !in before && NEWLINE !in behind
    ensures OneLineEach(LinesOf(v, depth, before, behind))
    decreases v, 1
  {
    ScalarOneLine(v);
    if v.Arr? && v.items != [] {
      ItemLinesAreLines(v.items, 0, depth + 1);
    } else if v.Obj? && v.members != [] {
      MemberLinesAreLines(v.members, 0, depth + 1);
    }
  }

  lemma {:induction false} ItemLinesAreLines(items: seq<Value>, k: nat, depth: nat)
    requires k <= |items|
    ensures OneLineEach(ItemLines(items, k, depth))
    decreases items, 0, |items| - k
  {
    if k < |items| {
      LinesAreLines(items[k], depth, [], Comma(k == |items| - 1));
      ItemLinesAreLines(items, k + 1, depth);
    }
  }

  lemma {:induction false} MemberLinesAreLines(members: seq<Member>, k: nat, depth: nat)
    requires k <= |members|
    ensures OneLineEach(MemberLines(members, k, depth))
    decreases members, 0, |members| - k
  {
    if k < |members| {
      QuoteOneLine(members[k].name);
      LinesAreLines(members[k].value, depth, Quote(members[k].name) + Spell(": "), Comma(k == |members| - 1));
      MemberLinesAreLines(members, k + 1, depth);
    }
  }
}
