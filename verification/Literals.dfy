/** The grammar of string content, written apart from the decoder: section 7 of RFC 8259. */
module Literals {
  import opened Text
  import opened Utf8
  import opened Strings

  /** One character of a literal, as it is spelled, with what it stands for. */
  datatype Char =
    | Plain(b: byte)
    | Short(letter: byte, b: byte)
    | Hex(h: Bytes, cp: nat)
    | Pair(lead: Bytes, trail: Bytes, cp: nat)

  ghost predicate Proper(c: Char) {
    match c
    case Plain(b) => b >= 0x20 && b != QUOTE && b != BACKSLASH
    case Short(letter, b) => exists k :: 0 <= k < 8 && EscapeLetters()[k] == letter && EscapeMeanings()[k] == b
    case Hex(h, cp) => SpellsHex(h, cp) && Scalar(cp)
    case Pair(lead, trail, cp) =>
      && 0x10000 <= cp <= 0x10FFFF
      && SpellsHex(lead, HighHalf(cp)) && SpellsHex(trail, LowHalf(cp))
  }

  function Spelled(c: Char): Bytes {
    match c
    case Plain(b) => [b]
    case Short(letter, _) => [BACKSLASH, letter]
    case Hex(h, _) => [BACKSLASH, LOWER_U] + h
    case Pair(lead, trail, _) => [BACKSLASH, LOWER_U] + lead + [BACKSLASH, LOWER_U] + trail
  }

  function Meant(c: Char): Bytes
    requires Proper(c)
  {
    match c
    case Plain(b) => [b]
    case Short(_, b) => [b]
    case Hex(_, cp) => Encode(cp)
    case Pair(_, _, cp) => Encode(cp)
  }

  ghost predicate AllProper(cs: seq<Char>) {
    cs == [] || (Proper(cs[0]) && AllProper(cs[1..]))
  }

  function SpelledAll(cs: seq<Char>): Bytes {
    if cs == [] then [] else Spelled(cs[0]) + SpelledAll(cs[1..])
  }

  ghost function MeantAll(cs: seq<Char>): Bytes
    requires AllProper(cs)
  {
    if cs == [] then [] else Meant(cs[0]) + MeantAll(cs[1..])
  }

  // ----- everything the grammar allows is decoded to what it means -----

  lemma HexDenotes(raw: Bytes, c: Char, rest: Bytes)
    requires Proper(c) && c.Hex? && raw == Spelled(c) + rest
    ensures Utf16(raw) == Good(6, c.cp) && raw[6..] == rest
  {
    assert raw[2..6] == c.h;
    UnitsOf(raw, 6, c.cp);
  }

  lemma PairParts(raw: Bytes, lead: Bytes, trail: Bytes, rest: Bytes)
    requires |lead| == |trail| == 4 && raw == [BACKSLASH, LOWER_U] + lead + [BACKSLASH, LOWER_U] + trail + rest
    ensures raw[2..6] == lead && raw[6..8] == [BACKSLASH, LOWER_U] && raw[8..12] == trail && raw[12..] == rest
  {}

  lemma PairDenotes(raw: Bytes, c: Char, rest: Bytes)
    requires Proper(c) && c.Pair? && raw == Spelled(c) + rest
    ensures Utf16(raw) == Good(12, c.cp) && raw[12..] == rest
  {
    PairParts(raw, c.lead, c.trail, rest);
    UnitsOf(raw, 12, c.cp);
  }

  lemma HexIsPlain(h: Bytes, n: nat, k: nat)
    requires SpellsHex(h, n) && k < 4
    ensures h[k] != QUOTE && h[k] != BACKSLASH && h[k] != NUL
  {
    HexSplits(n);
    var d := if k == 0 then n / 4096 else if k == 1 then n / 256 % 16 else if k == 2 then n / 16 % 16 else n % 16;
    DigitSpelled(h[k], d);
  }

  lemma BalancedPlain(b: byte, rest: Bytes)
    requires b != QUOTE && b != BACKSLASH && b != NUL
    ensures Balanced([b] + rest) <==> Balanced(rest)
  {
    assert ([b] + rest)[1..] == rest;
  }

  lemma BalancedEscape(b: byte, rest: Bytes)
    requires b != NUL
    ensures Balanced([BACKSLASH, b] + rest) <==> Balanced(rest)
  {
    assert ([BACKSLASH, b] + rest)[2..] == rest;
  }

  lemma BalancedHex(h: Bytes, n: nat, rest: Bytes, raw: Bytes)
    requires SpellsHex(h, n) && raw == [BACKSLASH, LOWER_U] + h + rest
    ensures Balanced(raw) <==> Balanced(rest)
  {
    HexIsPlain(h, n, 0);
    HexIsPlain(h, n, 1);
    HexIsPlain(h, n, 2);
    HexIsPlain(h, n, 3);
    var three := [h[3]] + rest;
    var two := [h[2]] + three;
    var one := [h[1]] + two;
    var all := [h[0]] + one;
    assert raw == [BACKSLASH, LOWER_U] + all;
    BalancedEscape(LOWER_U, all);
    BalancedPlain(h[0], one);
    BalancedPlain(h[1], two);
    BalancedPlain(h[2], three);
    BalancedPlain(h[3], rest);
  }

  lemma PairSplits(c: Char, rest: Bytes, second: Bytes)
    requires c.Pair? && second == [BACKSLASH, LOWER_U] + c.trail + rest
    ensures Spelled(c) + rest == [BACKSLASH, LOWER_U] + c.lead + second
  {}

  lemma BalancedPair(c: Char, rest: Bytes)
    requires Proper(c) && c.Pair?
    ensures Balanced(Spelled(c) + rest) <==> Balanced(rest)
  {
    var second := [BACKSLASH, LOWER_U] + c.trail + rest;
    PairSplits(c, rest, second);
    BalancedHex(c.lead, HighHalf(c.cp), second, Spelled(c) + rest);
    BalancedHex(c.trail, LowHalf(c.cp), rest, second);
  }

  lemma BalancedSpelled(c: Char, rest: Bytes)
    requires Proper(c)
    ensures Balanced(Spelled(c) + rest) <==> Balanced(rest)
  {
    match c
    case Plain(b) => BalancedPlain(b, rest);
    case Short(letter, b) => EscapeTable(letter, b); BalancedEscape(letter, rest);
    case Hex(h, cp) => BalancedHex(h, cp, rest, Spelled(c) + rest);
    case Pair(lead, trail, cp) => BalancedPair(c, rest);
  }

  lemma DecodeSpelled(c: Char, rest: Bytes)
    requires Proper(c)
    ensures Decode(Spelled(c) + rest) == Prepend(Meant(c), Decode(rest))
  {
    var raw := Spelled(c) + rest;
    match c
    case Plain(b) => assert raw[1..] == rest;
    case Short(letter, b) =>
      assert raw[2..] == rest;
      EscapeTable(letter, b);
      EscapeTable(LOWER_U, b);
    case Hex(h, cp) => HexDenotes(raw, c, rest);
    case Pair(lead, trail, cp) => PairDenotes(raw, c, rest);
  }

  lemma {:induction false} GrammarDecodes(cs: seq<Char>)
    requires AllProper(cs)
    ensures Decode(SpelledAll(cs)) == Some(MeantAll(cs)) && Balanced(SpelledAll(cs))
  {
    if cs != [] {
      GrammarDecodes(cs[1..]);
      DecodeSpelled(cs[0], SpelledAll(cs[1..]));
      BalancedSpelled(cs[0], SpelledAll(cs[1..]));
    }
  }

  // ----- and nothing else is -----

  lemma PairSpelled(raw: Bytes, cp: nat)
    requires |raw| >= 12 && raw[0] == BACKSLASH && raw[1] == LOWER_U && raw[6..8] == [BACKSLASH, LOWER_U]
    ensures Spelled(Pair(raw[2..6], raw[8..12], cp)) == raw[..12]
  {
    assert raw[..2] == [BACKSLASH, LOWER_U];
    assert raw[..12] == raw[..2] + raw[2..6] + raw[6..8] + raw[8..12];
  }

  lemma HexProper(h: Bytes, cp: nat)
    requires SpellsHex(h, cp) && Scalar(cp)
    ensures Proper(Hex(h, cp))
  {}

  lemma PairProper(lead: Bytes, trail: Bytes, cp: nat)
    requires 0x10000 <= cp <= 0x10FFFF
    requires SpellsHex(lead, HighHalf(cp)) && SpellsHex(trail, LowHalf(cp))
    ensures Proper(Pair(lead, trail, cp))
  {}

  lemma HexChar(raw: Bytes, cp: nat) returns (c: Char)
    requires |raw| >= 6 && raw[0] == BACKSLASH && raw[1] == LOWER_U && SpellsHex(raw[2..6], cp) && Scalar(cp)
    ensures Proper(c) && Meant(c) == Encode(cp) && Spelled(c) == raw[..6]
  {
    c := Hex(raw[2..6], cp);
    HexProper(raw[2..6], cp);
    assert raw[..6] == [BACKSLASH, LOWER_U] + raw[2..6];
  }

  lemma PairChar(raw: Bytes, cp: nat) returns (c: Char)
    requires |raw| >= 12 && raw[0] == BACKSLASH && raw[1] == LOWER_U && raw[6..8] == [BACKSLASH, LOWER_U]
    requires Proper(Pair(raw[2..6], raw[8..12], cp))
    ensures Proper(c) && Meant(c) == Encode(cp) && Spelled(c) == raw[..12]
  {
    c := Pair(raw[2..6], raw[8..12], cp);
    PairSpelled(raw, cp);
  }

  lemma HexOf(raw: Bytes) returns (c: Char)
    requires |raw| >= 2 && raw[0] == BACKSLASH && raw[1] == LOWER_U && Utf16(raw).Good?
    ensures Proper(c) && Meant(c) == Encode(Utf16(raw).cp)
    ensures Spelled(c) == raw[..Utf16(raw).used]
  {
    var n, cp := Utf16(raw).used, Utf16(raw).cp;
    OnlyScalarsTranscode(raw);
    if cp < 0x10000 {
      c := HexChar(raw, cp);
    } else {
      PairProper(raw[2..6], raw[8..12], cp);
      c := PairChar(raw, cp);
    }
  }

  lemma CharOf(raw: Bytes) returns (c: Char, rest: Bytes)
    requires raw != [] && Balanced(raw) && Decode(raw).Some?
    ensures Proper(c) && raw == Spelled(c) + rest && |rest| < |raw| && Balanced(rest)
    ensures Decode(raw) == Prepend(Meant(c), Decode(rest))
  {
    if raw[0] == BACKSLASH && raw[1] == LOWER_U {
      TakesEscape(raw);
      c := HexOf(raw);
      rest := raw[Utf16(raw).used..];
    } else if raw[0] == BACKSLASH {
      TakesLetter(raw);
      c, rest := Short(raw[1], Unescape(raw[1]).value), raw[2..];
      EscapeTable(raw[1], c.b);
    } else {
      TakesPlain(raw);
      c, rest := Plain(raw[0]), raw[1..];
    }
  }

  /** Whatever is decoded from the content of a literal is spelled by the grammar. */
  lemma {:induction false} DecodedIsGrammar(raw: Bytes) returns (cs: seq<Char>)
    requires Balanced(raw) && Decode(raw).Some?
    ensures AllProper(cs) && SpelledAll(cs) == raw && MeantAll(cs) == Decode(raw).value
    decreases |raw|
  {
    cs := [];
    if raw != [] {
      var c, rest := CharOf(raw);
      var more := DecodedIsGrammar(rest);
      cs := [c] + more;
    }
  }
}
