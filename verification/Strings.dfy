/** String literals: finding the closing quote, decoding escapes, and writing escapes. */
module Strings {
  import opened Text
  import opened Utf8

  const LOWER_U: byte := 117

  // ----- skip_quotes -----

  datatype Scan = Scan(end: nat, closed: bool)

  /** The scan of skip_quotes from the first byte after the opening quote. */
  function SkipQuotes(t: Bytes, i: nat): (r: Scan)
    requires i <= |t|
    ensures i <= r.end <= |t|
    ensures !r.closed ==> Peek(t, r.end) == NUL
    ensures r.closed ==> i < r.end && t[r.end - 1] == QUOTE
    decreases |t| - i
  {
    if Peek(t, i) == QUOTE then Scan(i + 1, true)
    else if Peek(t, i) == NUL then Scan(i, false)
    else if Peek(t, i) == BACKSLASH then
      if Peek(t, i + 1) == NUL then Scan(i + 1, false) else SkipQuotes(t, i + 2)
    else SkipQuotes(t, i + 1)
  }

  /** Content of a literal: no bare quote, no NUL, and every backslash has a byte after it. */
  predicate Balanced(raw: Bytes) {
    || raw == []
    || (raw[0] == BACKSLASH && |raw| >= 2 && raw[1] != NUL && Balanced(raw[2..]))
    || (raw[0] != BACKSLASH && raw[0] != QUOTE && raw[0] != NUL && Balanced(raw[1..]))
  }

  /** skip_quotes closes at `e` exactly when balanced content and then a quote end there. */
  lemma {:induction false} SkipQuotesIsBalanced(t: Bytes, i: nat, e: nat)
    requires i < e <= |t|
    ensures SkipQuotes(t, i) == Scan(e, true) <==> t[e - 1] == QUOTE && Balanced(t[i..e - 1])
    decreases e - i
  {
    var raw := t[i..e - 1];
    if i + 1 < e && t[i] == BACKSLASH {
      if i + 2 < e {
        SkipQuotesIsBalanced(t, i + 2, e);
        assert raw[2..] == t[i + 2..e - 1];
      }
    } else if i + 1 < e {
      SkipQuotesIsBalanced(t, i + 1, e);
      assert raw[1..] == t[i + 1..e - 1];
    }
  }

  // ----- hexadecimal units -----

  predicate IsHex(b: byte) {
    IsDigit(b) || 65 <= b <= 70 || 97 <= b <= 102
  }

  function HexDigit(b: byte): (d: nat)
    requires IsHex(b)
    ensures d < 16
  {
    if IsDigit(b) then b - ZERO else if b <= 70 then b - 55 else b - 87
  }

  /** `is_utf16_hex`: each byte is read only when the ones before it are digits, so never past `end`. */
  predicate IsHex4(s: Bytes, k: nat, end: nat)
    requires k <= end < |s| && !IsHex(s[end])
  {
    IsHex(s[k]) && IsHex(s[k + 1]) && IsHex(s[k + 2]) && IsHex(s[k + 3])
  }

  predicate HasUnit(raw: Bytes, k: nat) {
    k + 4 <= |raw| && IsHex(raw[k]) && IsHex(raw[k + 1]) && IsHex(raw[k + 2]) && IsHex(raw[k + 3])
  }

  function Unit(raw: Bytes, k: nat): (u: nat)
    requires HasUnit(raw, k)
    ensures u < 0x10000
  {
    ((HexDigit(raw[k]) * 16 + HexDigit(raw[k + 1])) * 16 + HexDigit(raw[k + 2])) * 16 + HexDigit(raw[k + 3])
  }

  function HexLower(): Bytes {
    Spell("0123456789abcdef")
  }

  function HexUpper(): Bytes {
    Spell("0123456789ABCDEF")
  }

  /** A hexadecimal digit, in either case. */
  predicate SpellsDigit(b: byte, d: nat)
    requires d < 16
  {
    b == HexLower()[d] || b == HexUpper()[d]
  }

  /** Four hexadecimal digits, the most significant first. */
  predicate SpellsHex(h: Bytes, n: nat) {
    && n < 0x10000 && |h| == 4
    && SpellsDigit(h[0], n / 4096) && SpellsDigit(h[1], n / 256 % 16)
    && SpellsDigit(h[2], n / 16 % 16) && SpellsDigit(h[3], n % 16)
  }

  lemma DigitSpelled(b: byte, d: nat)
    requires d < 16
    ensures SpellsDigit(b, d) <==> IsHex(b) && HexDigit(b) == d
  {}

  /** Every spelling of a number is read as that number, and nothing else is. */
  lemma UnitIsSpelled(raw: Bytes, k: nat, n: nat)
    requires k + 4 <= |raw|
    ensures SpellsHex(raw[k..k + 4], n) <==> HasUnit(raw, k) && Unit(raw, k) == n
  {
    if n < 0x10000 {
      var a, b, c, d := n / 4096, n / 256 % 16, n / 16 % 16, n % 16;
      HexSplits(n);
      DigitSpelled(raw[k], a);
      DigitSpelled(raw[k + 1], b);
      DigitSpelled(raw[k + 2], c);
      DigitSpelled(raw[k + 3], d);
      if HasUnit(raw, k) {
        HexJoins(HexDigit(raw[k]), HexDigit(raw[k + 1]), HexDigit(raw[k + 2]), HexDigit(raw[k + 3]), Unit(raw, k));
      }
    }
  }

  lemma HexSplits(n: nat)
    requires n < 0x10000
    ensures n / 4096 < 16 && n == ((n / 4096 * 16 + n / 256 % 16) * 16 + n / 16 % 16) * 16 + n % 16
  {
    var p := n / 16;
    var q := p / 16;
    assert q == n / 256 && q / 16 == n / 4096;
    assert n == p * 16 + n % 16 && p == q * 16 + p % 16 && q == q / 16 * 16 + q % 16;
  }

  lemma HexJoins(a: nat, b: nat, c: nat, d: nat, n: nat)
    requires a < 16 && b < 16 && c < 16 && d < 16 && n == ((a * 16 + b) * 16 + c) * 16 + d
    ensures n / 4096 == a && n / 256 % 16 == b && n / 16 % 16 == c && n % 16 == d
  {
    assert n / 16 == (a * 16 + b) * 16 + c;
    assert n / 256 == a * 16 + b;
  }

  lemma UnitsAgree(s: Bytes, at: nat, end: nat, k: nat)
    requires at + k <= end < |s| && !IsHex(s[end])
    ensures IsHex4(s, at + k, end) <==> HasUnit(s[at..end], k)
    ensures HasUnit(s[at..end], k) ==> HasUnit(s, at + k) && Unit(s, at + k) == Unit(s[at..end], k)
  {}

  // ----- parse_utf_16 -----

  datatype Escape = Bad | Good(used: nat, cp: nat)

  /** A second escape, holding a trail surrogate, right after the first one. */
  function Trail(raw: Bytes): (t: Option<nat>)
    ensures t.Some? ==> |raw| >= 12 && 0xDC00 <= t.value <= 0xDFFF
  {
    if |raw| >= 12 && raw[6] == BACKSLASH && raw[7] == LOWER_U && HasUnit(raw, 8) && 0xDC00 <= Unit(raw, 8) <= 0xDFFF
    then Some(Unit(raw, 8)) else None
  }

  /** `(((lead - 0xD800) & 0x3FF) << 10 | ((trail - 0xDC00) & 0x3FF)) + 0x10000`. */
  function Combine(lead: nat, trail: nat): (cp: nat)
    ensures 0x10000 <= cp <= 0x10FFFF
  {
    (lead - 0xD800) % 1024 * 1024 + (trail - 0xDC00) % 1024 + 0x10000
  }

  /** What parse_utf_16 makes of content that starts with a backslash and a `u`. */
  function Utf16(raw: Bytes): (e: Escape)
    ensures e.Good? ==> 6 <= e.used <= |raw| && e.cp <= 0x10FFFF
  {
    if !HasUnit(raw, 2) then Bad
    else
      var u := Unit(raw, 2);
      if u < 0xD800 || u > 0xDFFF then Good(6, u)
      else if u > 0xDBFF then Bad
      else
        match Trail(raw)
        case None => Bad
        case Some(t) => Good(12, Combine(u, t))
  }

  /** The two surrogates of a supplementary code point: section 2.1 of RFC 2781. */
  function HighHalf(cp: nat): (u: nat)
    requires 0x10000 <= cp <= 0x10FFFF
    ensures 0xD800 <= u <= 0xDBFF
  {
    0xD800 + (cp - 0x10000) / 1024
  }

  function LowHalf(cp: nat): (u: nat)
    requires 0x10000 <= cp <= 0x10FFFF
    ensures 0xDC00 <= u <= 0xDFFF
  {
    0xDC00 + (cp - 0x10000) % 1024
  }

  /**
   * Section 2.2 of RFC 2781: behind its backslash and `u`, the text at the head of `raw` spells `cp`, by
   * itself or as a surrogate pair.
   */
  ghost predicate Denotes(raw: Bytes, n: nat, cp: nat) {
    && Scalar(cp) && |raw| >= n
    && if cp < 0x10000 then n == 6 && SpellsHex(raw[2..6], cp)
       else
         && n == 12 && raw[6..8] == [BACKSLASH, LOWER_U]
         && SpellsHex(raw[2..6], HighHalf(cp))
         && SpellsHex(raw[8..12], LowHalf(cp))
  }

  lemma CombineSplits(cp: nat)
    requires 0x10000 <= cp <= 0x10FFFF
    ensures Combine(HighHalf(cp), LowHalf(cp)) == cp
  {
    var q, r := (cp - 0x10000) / 1024, (cp - 0x10000) % 1024;
    assert q < 1024 && q % 1024 == q && r % 1024 == r;
  }

  lemma CombineJoins(lead: nat, trail: nat)
    requires 0xD800 <= lead <= 0xDBFF && 0xDC00 <= trail <= 0xDFFF
    ensures var cp := Combine(lead, trail);
            lead == HighHalf(cp) && trail == LowHalf(cp)
  {
    var q, r := lead - 0xD800, trail - 0xDC00;
    assert q % 1024 == q && r % 1024 == r && Combine(lead, trail) - 0x10000 == q * 1024 + r;
    assert (q * 1024 + r) / 1024 == q && (q * 1024 + r) % 1024 == r;
  }

  lemma PairOf(raw: Bytes, lead: nat, trail: nat)
    requires |raw| >= 12 && raw[6] == BACKSLASH && raw[7] == LOWER_U && HasUnit(raw, 2) && HasUnit(raw, 8)
    requires lead == Unit(raw, 2) && trail == Unit(raw, 8) && 0xD800 <= lead <= 0xDBFF && 0xDC00 <= trail <= 0xDFFF
    ensures Utf16(raw) == Good(12, Combine(lead, trail))
  {}

  lemma UnitsOf(raw: Bytes, n: nat, cp: nat)
    requires Denotes(raw, n, cp)
    ensures Utf16(raw) == Good(n, cp)
  {
    if cp < 0x10000 {
      UnitIsSpelled(raw, 2, cp);
    } else {
      var lead, trail := HighHalf(cp), LowHalf(cp);
      UnitIsSpelled(raw, 2, lead);
      UnitIsSpelled(raw, 8, trail);
      assert raw[6] == raw[6..8][0] && raw[7] == raw[6..8][1];
      PairOf(raw, lead, trail);
      CombineSplits(cp);
    }
  }

  /** An escape that stands for a scalar value decodes to bytes that recompute that value. */
  lemma Transcodes(raw: Bytes, n: nat, cp: nat)
    requires Denotes(raw, n, cp)
    ensures Utf16(raw) == Good(n, cp)
    ensures Verify(Encode(cp), 0) && CodePoint(Encode(cp), 0) == cp && WellFormed(Encode(cp))
  {
    UnitsOf(raw, n, cp);
    EncodeVerifies(cp);
    WellFormedEmpty();
    WellFormedCons(Encode(cp), []);
    assert Encode(cp) + [] == Encode(cp);
  }

  /** Nothing else decodes. */
  lemma OnlyScalarsTranscode(raw: Bytes)
    requires Utf16(raw).Good?
    ensures Denotes(raw, Utf16(raw).used, Utf16(raw).cp)
  {
    UnitIsSpelled(raw, 2, Unit(raw, 2));
    if Utf16(raw).used == 12 {
      PairDenotes(raw, Unit(raw, 2), Unit(raw, 8));
    }
  }

  lemma PairDenotes(raw: Bytes, lead: nat, trail: nat)
    requires |raw| >= 12 && raw[6] == BACKSLASH && raw[7] == LOWER_U && HasUnit(raw, 2) && HasUnit(raw, 8)
    requires lead == Unit(raw, 2) && trail == Unit(raw, 8) && 0xD800 <= lead <= 0xDBFF && 0xDC00 <= trail <= 0xDFFF
    ensures Denotes(raw, 12, Combine(lead, trail))
  {
    assert raw[6..8] == [BACKSLASH, LOWER_U];
    UnitIsSpelled(raw, 2, lead);
    UnitIsSpelled(raw, 8, trail);
    CombineJoins(lead, trail);
  }

  /** Writes the bytes of `cp` from `output[o]` on; `o'` is the last byte written. */
  method WriteUtf8(cp: nat, output: array<byte>, o: nat) returns (o': nat)
    requires cp <= 0x10FFFF && o + |Encode(cp)| <= output.Length
    modifies output
    ensures o' + 1 == o + |Encode(cp)|
    ensures output[..o' + 1] == old(output[..o]) + Encode(cp)
  {
    o' := o;
    if cp < 0x80 {
      output[o'] := cp;
    } else if cp < 0x800 {
      output[o'] := cp / 64 % 32 + 0xC0;
      o' := o' + 1;
      output[o'] := cp % 64 + 0x80;
    } else if cp < 0x10000 {
      assert cp / 4096 < 16 && cp / 4096 % 16 == cp / 4096;
      output[o'] := cp / 4096 % 16 + 0xE0;
      o' := o' + 1;
      output[o'] := cp / 64 % 64 + 0x80;
      o' := o' + 1;
      output[o'] := cp % 64 + 0x80;
    } else {
      assert cp / 262144 < 8 && cp / 262144 % 8 == cp / 262144;
      output[o'] := cp / 262144 % 8 + 0xF0;
      o' := o' + 1;
      output[o'] := cp / 4096 % 64 + 0x80;
      o' := o' + 1;
      output[o'] := cp / 64 % 64 + 0x80;
      o' := o' + 1;
      output[o'] := cp % 64 + 0x80;
    }
  }

  /** Reads the trail surrogate that must follow a lead one whose escape starts at `at`. */
  method ReadTrail(input: Bytes, len: nat, at: nat) returns (ok: bool, trail: nat, i': nat)
    requires at + 6 <= len < |input| && input[len] == QUOTE
    ensures ok == Trail(input[at..len]).Some?
    ensures ok ==> i' == at + 8 && Trail(input[at..len]) == Some(trail)
  {
    i', trail := at + 6, 0;
    if input[i'] != BACKSLASH {
      return false, trail, i';
    }
    i' := i' + 1;
    if input[i'] != LOWER_U {
      return false, trail, i';
    }
    i' := i' + 1;
    UnitsAgree(input, at, len, 8);
    if !IsHex4(input, i', len) {
      return false, trail, i';
    }
    trail := Unit(input, i');
    ok := 0xDC00 <= trail <= 0xDFFF;
  }

  /** The reading half of parse_utf_16, from the `u` at `i`; `i'` is the last byte read. */
  method ReadCodePoint(input: Bytes, len: nat, i: nat) returns (ok: bool, cp: nat, i': nat)
    requires len < |input| && input[len] == QUOTE
    requires 1 <= i < len && input[i - 1] == BACKSLASH && input[i] == LOWER_U
    ensures ok == Utf16(input[i - 1..len]).Good?
    ensures ok ==> i' + 2 > i && Utf16(input[i - 1..len]) == Good(i' + 2 - i, cp)
  {
    UnitsAgree(input, i - 1, len, 2);
    i', cp := i + 1, 0;
    ok := IsHex4(input, i', len);
    if !ok {
      return;
    }
    cp := Unit(input, i');
    if 0xD800 <= cp <= 0xDBFF {
      var trail;
      ok, trail, i' := ReadTrail(input, len, i - 1);
      if !ok {
        return;
      }
      cp := Combine(cp, trail);
    } else if 0xDC00 <= cp <= 0xDFFF {
      ok := false;
      return;
    }
    i' := i' + 3;
  }

  /**
   * Called with `input[i]` the `u`; on success `i'` is the last byte read and `o'` the last byte
   * written. `input[len]` is the closing quote, and no read goes past it.
   */
  method ParseUtf16(input: Bytes, len: nat, i: nat, output: array<byte>, o: nat)
    returns (ok: bool, i': nat, o': nat)
    requires len < |input| && input[len] == QUOTE
    requires 1 <= i < len && input[i - 1] == BACKSLASH && input[i] == LOWER_U
    requires o < i && output.Length == len + 1
    modifies output
    ensures ok == Utf16(input[i - 1..len]).Good?
    ensures ok ==>
              var e := Utf16(input[i - 1..len]);
              && i' + 2 == i + e.used && o' + 1 == o + |Encode(e.cp)|
              && output[..o' + 1] == old(output[..o]) + Encode(e.cp)
  {
    var cp;
    ok, cp, i' := ReadCodePoint(input, len, i);
    o' := o;
    if ok {
      o' := WriteUtf8(cp, output, o);
    }
  }

  // ----- process_string -----

  /** The byte a one-letter escape stands for. */
  function Unescape(b: byte): Option<byte> {
    if b == QUOTE || b == BACKSLASH || b == SLASH then Some(b)
    else if b == 98 then Some(BACKSPACE)
    else if b == 102 then Some(FORMFEED)
    else if b == 110 then Some(NEWLINE)
    else if b == 114 then Some(RETURN)
    else if b == 116 then Some(TAB)
    else None
  }

  /** The letters that may follow a backslash, and what they stand for. */
  function EscapeLetters(): Bytes {
    Spell("\"\\/bfnrt")
  }

  function EscapeMeanings(): Bytes {
    Spell("\"\\/\U{8}\U{C}\n\r\t")
  }

  /** The table of section 7 of RFC 8259: what each letter stands for, and no other letter stands for anything. */
  lemma EscapeTable(letter: byte, b: byte)
    ensures Unescape(letter) == Some(b) <==>
            exists k :: 0 <= k < 8 && EscapeLetters()[k] == letter && EscapeMeanings()[k] == b
  {
    var l, m := EscapeLetters(), EscapeMeanings();
    assert l[0] == 34 && l[1] == 92 && l[2] == 47 && l[3] == 98;
    assert l[4] == 102 && l[5] == 110 && l[6] == 114 && l[7] == 116;
    assert m[0] == 34 && m[1] == 92 && m[2] == 47 && m[3] == 8;
    assert m[4] == 12 && m[5] == 10 && m[6] == 13 && m[7] == 9;
  }

  function Prepend(a: Bytes, r: Option<Bytes>): Option<Bytes> {
    match r
    case None => None
    case Some(b) => Some(a + b)
  }

  /** The bytes process_string writes for the content between two quotes. */
  function Decode(raw: Bytes): (r: Option<Bytes>)
    ensures r.Some? ==> |r.value| <= |raw|
    decreases |raw|, 1
  {
    if raw == [] then Some([])
    else if raw[0] == BACKSLASH then DecodeEscape(raw)
    else if raw[0] < 0x20 then None
    else Prepend([raw[0]], Decode(raw[1..]))
  }

  /** Content that starts with a backslash. */
  function DecodeEscape(raw: Bytes): (r: Option<Bytes>)
    requires raw != []
    ensures r.Some? ==> |r.value| <= |raw|
    decreases |raw|, 0
  {
    if |raw| < 2 then None
    else if raw[1] == LOWER_U then
      match Utf16(raw)
      case Bad => None
      case Good(n, cp) => Prepend(Encode(cp), Decode(raw[n..]))
    else
      match Unescape(raw[1])
      case None => None
      case Some(b) => Prepend([b], Decode(raw[2..]))
  }

  /** Content whose first `n` bytes decode to `c`, so that the rest is still balanced. */
  ghost predicate Takes(raw: Bytes, n: nat, c: Bytes) {
    && 0 < n <= |raw| && 0 < |c| <= n
    && Balanced(raw[n..])
    && Decode(raw) == Prepend(c, Decode(raw[n..]))
  }

  lemma TakesEscape(raw: Bytes)
    requires Balanced(raw) && |raw| >= 2 && raw[0] == BACKSLASH && raw[1] == LOWER_U
    ensures Utf16(raw).Bad? ==> Decode(raw) == None
    ensures Utf16(raw).Good? ==> Takes(raw, Utf16(raw).used, Encode(Utf16(raw).cp))
  {
    BalancedAfterEscape(raw);
  }

  lemma TakesLetter(raw: Bytes)
    requires Balanced(raw) && |raw| >= 2 && raw[0] == BACKSLASH && raw[1] != LOWER_U
    ensures Unescape(raw[1]) == None ==> Decode(raw) == None
    ensures Unescape(raw[1]).Some? ==> Takes(raw, 2, [Unescape(raw[1]).value])
  {}

  lemma TakesPlain(raw: Bytes)
    requires Balanced(raw) && raw != [] && raw[0] != BACKSLASH
    ensures raw[0] < 0x20 ==> Decode(raw) == None
    ensures raw[0] >= 0x20 ==> Takes(raw, 1, [raw[0]])
  {}

  /** One round of the loop of process_string: one escape or one plain byte. */
  method ProcessOne(input: Bytes, len: nat, i: nat, output: array<byte>, o: nat)
    returns (ok: bool, i': nat, o': nat)
    requires i < len < |input| && input[len] == QUOTE && Balanced(input[i..len])
    requires o <= i && output.Length == len + 1
    modifies output
    ensures !ok ==> Decode(input[i..len]) == None
    ensures ok ==> i < i' <= len && o < o' <= output.Length && output[..o] == old(output[..o])
    ensures ok ==> Takes(input[i..len], i' - i, output[o..o'])
  {
    ghost var rest := input[i..len];
    ghost var c: Bytes;
    i', o' := i, o;
    if input[i'] == BACKSLASH {
      i' := i' + 1;
      if input[i'] == LOWER_U {
        TakesEscape(rest);
        ok, i', o' := ParseUtf16(input, len, i', output, o');
        if !ok {
          return;
        }
        c := Encode(Utf16(rest).cp);
        assert output[..o' + 1][o..] == c;
      } else {
        TakesLetter(rest);
        var b := Unescape(input[i']);
        if b == None {
          return false, i', o';
        }
        output[o'] := b.value;
        c := [b.value];
      }
    } else {
      TakesPlain(rest);
      if input[i'] < 0x20 {
        return false, i', o';
      }
      output[o'] := input[i'];
      c := [input[i']];
    }
    o' := o' + 1;
    i' := i' + 1;
    ok := true;
    assert output[o..o'] == c;
  }

  /**
   * Decodes the content in front of a closing quote. The buffer has room for the content and a
   * NUL; writing never overtakes reading, and a successful scan stops exactly at the quote.
   */
  method ProcessString(input: Bytes, len: nat) returns (r: Option<Bytes>)
    requires len < |input| && input[len] == QUOTE && Balanced(input[..len])
    ensures r == match Decode(input[..len]) case None => None case Some(d) => Some(CString(d))
  {
    ghost var raw := input[..len];
    var output := new byte[len + 1];
    var i, o := 0, 0;
    assert input[0..len] == raw && output[..0] == [];
    PrependEmpty(Decode(raw));
    ghost var done: Bytes := [];
    while input[i] != NUL && i < len
      invariant o <= i <= len && output[..o] == done
      invariant Balanced(input[i..len])
      invariant Decode(raw) == Prepend(done, Decode(input[i..len]))
      decreases len - i
    {
      var ok, i', o' := ProcessOne(input, len, i, output, o);
      if !ok {
        return None;
      }
      assert input[i..len][i' - i..] == input[i'..len];
      PrependTwice(done, output[o..o'], Decode(input[i'..len]));
      done := done + output[o..o'];
      i, o := i', o';
    }
    assert input[i..len] == [];
    PrependNothing(done);
    output[o] := NUL;
    return Some(CString(output[..o]));
  }

  lemma PrependNothing(a: Bytes)
    ensures Prepend(a, Decode([])) == Some(a)
  {
    assert a + [] == a;
  }

  lemma PrependEmpty(r: Option<Bytes>)
    ensures Prepend([], r) == r
  {
    if r.Some? {
      assert [] + r.value == r.value;
    }
  }

  lemma PrependTwice(a: Bytes, b: Bytes, r: Option<Bytes>)
    ensures Prepend(a, Prepend(b, r)) == Prepend(a + b, r)
  {
    if r.Some? {
      assert a + (b + r.value) == a + b + r.value;
    }
  }

  /** Dropping bytes that are neither quotes nor backslashes keeps content balanced. */
  lemma {:induction false} BalancedAfterPlain(raw: Bytes, n: nat)
    requires Balanced(raw) && n <= |raw|
    requires forall k :: 0 <= k < n ==> raw[k] != BACKSLASH
    ensures Balanced(raw[n..])
    decreases n
  {
    if n > 0 {
      BalancedAfterPlain(raw[1..], n - 1);
      assert raw[1..][n - 1..] == raw[n..];
    } else {
      assert raw[n..] == raw;
    }
  }

  /** A `\u` escape is cut where skip_quotes also cuts. */
  lemma BalancedAfterEscape(raw: Bytes)
    requires Balanced(raw) && |raw| >= 2 && raw[0] == BACKSLASH
    ensures Utf16(raw).Good? ==> Balanced(raw[Utf16(raw).used..])
  {
    if Utf16(raw).Good? {
      var tail := raw[2..];
      assert forall k :: 0 <= k < 4 ==> tail[k] == raw[k + 2];
      BalancedAfterPlain(tail, 4);
      assert tail[4..] == raw[6..];
      if Utf16(raw).used == 12 {
        var more := raw[6..][2..];
        assert forall k :: 0 <= k < 4 ==> more[k] == raw[k + 8];
        BalancedAfterPlain(more, 4);
        assert more[4..] == raw[12..];
      }
    }
  }

  // ----- valid UTF-8 in, valid UTF-8 out -----

  ghost predicate Ascii(s: Bytes) {
    forall k :: 0 <= k < |s| ==> s[k] < 0x80
  }

  lemma {:induction false} WellFormedAscii(a: Bytes, s: Bytes)
    requires Ascii(a)
    ensures WellFormed(a + s) <==> WellFormed(s)
  {
    if a == [] {
      assert a + s == s;
    } else {
      WellFormedAscii(a[1..], s);
      WellFormedCons([a[0]], a[1..] + s);
      assert a + s == [a[0]] + (a[1..] + s);
    }
  }

  lemma {:induction false} DecodeHigh(p: Bytes, s: Bytes)
    requires forall k :: 0 <= k < |p| ==> p[k] >= 0x80
    ensures Decode(p + s) == Prepend(p, Decode(s))
  {
    if p == [] {
      assert p + s == s;
      PrependEmpty(Decode(s));
    } else {
      DecodeHigh(p[1..], s);
      assert (p + s)[1..] == p[1..] + s;
      PrependTwice([p[0]], p[1..], Decode(s));
      assert [p[0]] + p[1..] == p;
    }
  }

  lemma EscapeIsAscii(raw: Bytes)
    requires |raw| >= 2 && raw[0] == BACKSLASH && raw[1] == LOWER_U && Utf16(raw).Good?
    ensures Ascii(raw[..Utf16(raw).used])
  {
    assert forall j :: 2 <= j < 6 ==> raw[j] < 0x80;
    if Utf16(raw).used == 12 {
      assert forall j :: 8 <= j < 12 ==> raw[j] < 0x80;
    }
  }

  /** Decoding one escape or one ASCII byte: `n` bytes of content become the character `c`. */
  lemma DecodeStep(raw: Bytes) returns (n: nat, c: Bytes)
    requires raw != [] && raw[0] < 0x80 && Decode(raw).Some?
    ensures 0 < n <= |raw| && Ascii(raw[..n]) && Utf8Char(c)
    ensures Decode(raw) == Prepend(c, Decode(raw[n..]))
  {
    if raw[0] == BACKSLASH && raw[1] == LOWER_U {
      n, c := Utf16(raw).used, Encode(Utf16(raw).cp);
      OnlyScalarsTranscode(raw);
      EncodeVerifies(Utf16(raw).cp);
      EscapeIsAscii(raw);
    } else {
      n := if raw[0] == BACKSLASH then 2 else 1;
      c := if raw[0] == BACKSLASH then [Unescape(raw[1]).value] else [raw[0]];
    }
  }

  /** The head of well-formed content decodes to one character and leaves well-formed content. */
  lemma DecodeChar(raw: Bytes) returns (n: nat, c: Bytes)
    requires raw != [] && WellFormed(raw) && Decode(raw).Some?
    ensures 0 < n <= |raw| && Utf8Char(c) && WellFormed(raw[n..])
    ensures Decode(raw) == Prepend(c, Decode(raw[n..]))
  {
    if raw[0] >= 0x80 {
      c := FirstChar(raw);
      n := |c|;
      assert raw == c + raw[n..];
      DecodeHigh(c, raw[n..]);
    } else {
      n, c := DecodeStep(raw);
      assert raw == raw[..n] + raw[n..];
      WellFormedAscii(raw[..n], raw[n..]);
    }
  }

  lemma {:induction false} DecodePreservesUtf8(raw: Bytes)
    requires WellFormed(raw) && Decode(raw).Some?
    ensures WellFormed(Decode(raw).value)
    decreases |raw|
  {
    if raw == [] {
    } else {
      var n, c := DecodeChar(raw);
      DecodePreservesUtf8(raw[n..]);
      WellFormedCons(c, Decode(raw[n..]).value);
    }
  }

  /** Cutting well-formed text at a NUL leaves well-formed text. */
  lemma {:induction false} CStringPreservesUtf8(s: Bytes)
    requires WellFormed(s)
    ensures WellFormed(CString(s))
    decreases |s|
  {
    if s == [] || s[0] == NUL {
      WellFormedEmpty();
    } else {
      var p := FirstChar(s);
      assert s == p + s[|p|..];
      CStringOver(p, s[|p|..]);
      CStringPreservesUtf8(s[|p|..]);
      WellFormedCons(p, CString(s[|p|..]));
    }
  }

  lemma CStringCons(b: byte, s: Bytes)
    requires b != NUL
    ensures CString([b] + s) == [b] + CString(s)
  {
    assert ([b] + s)[1..] == s;
  }

  lemma {:induction false} CStringOver(p: Bytes, s: Bytes)
    requires NUL !in p
    ensures CString(p + s) == p + CString(s)
  {
    if p == [] {
      assert p + s == s;
    } else {
      var more := p[1..];
      CStringOver(more, s);
      assert p == [p[0]] + more;
      Assoc([p[0]], more, s);
      CStringCons(p[0], more + s);
      Assoc([p[0]], more, CString(s));
    }
  }

  // ----- json_serialize_string -----

  /** The bytes written for one byte of a string. */
  function EscapeByte(b: byte): (r: Bytes)
    ensures 1 <= |r| <= 2
  {
    if b == QUOTE || b == BACKSLASH || b == SLASH then [BACKSLASH, b]
    else if b == BACKSPACE then [BACKSLASH, 98]
    else if b == FORMFEED then [BACKSLASH, 102]
    else if b == NEWLINE then [BACKSLASH, 110]
    else if b == RETURN then [BACKSLASH, 114]
    else if b == TAB then [BACKSLASH, 116]
    else [b]
  }

  /** The serialiser escapes exactly the bytes of the table, each with its own letter. */
  lemma EscapeByteTable(b: byte, letter: byte)
    ensures EscapeByte(b) == [BACKSLASH, letter] <==> Unescape(letter) == Some(b)
    ensures |EscapeByte(b)| == 1 ==> EscapeByte(b) == [b] && b !in EscapeMeanings()
  {
    EscapeTable(letter, b);
    EscapeTable(98, b);
  }

  function EscapeAll(s: Bytes): Bytes {
    if s == [] then [] else EscapeByte(s[0]) + EscapeAll(s[1..])
  }

  function Quote(s: Bytes): Bytes {
    [QUOTE] + EscapeAll(s) + [QUOTE]
  }

  /** A byte the serialiser writes in a form the parser takes back. */
  predicate CleanByte(b: byte) {
    b >= 0x20 || b == BACKSPACE || b == FORMFEED || b == NEWLINE || b == RETURN || b == TAB
  }

  predicate CleanString(s: Bytes) {
    forall k :: 0 <= k < |s| ==> CleanByte(s[k])
  }

  lemma DecodeEscapeByte(b: byte, rest: Bytes)
    requires b != NUL
    ensures Decode(EscapeByte(b) + rest) == if CleanByte(b) then Prepend([b], Decode(rest)) else None
    ensures Balanced(EscapeByte(b) + rest) <==> Balanced(rest)
  {
    var e := EscapeByte(b);
    assert (e + rest)[|e|..] == rest;
    assert (e + rest)[0] == e[0] && (|e| == 2 ==> (e + rest)[1] == e[1]);
  }

  /** Decoding what was escaped: the string itself, or a refusal when a byte was written raw. */
  lemma {:induction false} DecodeEscapeAll(s: Bytes)
    requires NUL !in s
    ensures Decode(EscapeAll(s)) == if CleanString(s) then Some(s) else None
    ensures Balanced(EscapeAll(s))
  {
    if s != [] {
      DecodeEscapeAll(s[1..]);
      DecodeEscapeByte(s[0], EscapeAll(s[1..]));
      assert CleanString(s) <==> CleanByte(s[0]) && CleanString(s[1..]);
      assert [s[0]] + s[1..] == s;
    }
  }
}
