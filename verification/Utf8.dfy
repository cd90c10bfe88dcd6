/** UTF-8 checking, against the octet table of section 4 of RFC 3629. */
module Utf8 {
  import opened Text

  // ----- the code: masks and shifts are written as division and remainder -----

  /** IS_CONT: `(b & 0xC0) == 0x80`. */
  predicate IsCont(b: byte) {
    b / 64 == 2
  }

  function SequenceLength(c: byte): (n: nat)
    ensures n <= 4
  {
    if c == 0xC0 || c == 0xC1 || c > 0xF4 || IsCont(c) then 0
    else if c / 128 == 0 then 1
    else if c / 32 == 6 then 2
    else if c / 16 == 14 then 3
    else if c / 8 == 30 then 4
    else 0
  }

  /** `(cp << 6) | (b & 0x3F)`. */
  function Append(cp: nat, b: byte): nat {
    cp * 64 + b % 64
  }

  /** The code point the verifier recomputes, or -1 when a continuation byte is missing. */
  function CodePoint(s: Bytes, i: nat): int
    requires i < |s|
  {
    var n := SequenceLength(s[i]);
    if n == 1 then s[i]
    else if n == 2 && IsCont(Peek(s, i + 1)) then
      Append(s[i] % 32, s[i + 1])
    else if n == 3 && IsCont(Peek(s, i + 1)) && IsCont(Peek(s, i + 2)) then
      Append(Append(s[i] % 16, s[i + 1]), s[i + 2])
    else if n == 4 && IsCont(Peek(s, i + 1)) && IsCont(Peek(s, i + 2)) && IsCont(Peek(s, i + 3)) then
      Append(Append(Append(s[i] % 8, s[i + 1]), s[i + 2]), s[i + 3])
    else -1
  }

  predicate Verify(s: Bytes, i: nat)
    requires i < |s|
  {
    var n := SequenceLength(s[i]);
    var cp := CodePoint(s, i);
    && cp != -1
    && !((cp < 0x80 && n > 1) || (cp < 0x800 && n > 2) || (cp < 0x10000 && n > 3))
    && cp <= 0x10FFFF
    && !(0xD800 <= cp <= 0xDFFF)
  }

  /** The loop of is_valid_utf8; a sequence never runs past the end because NUL is no continuation byte. */
  predicate Valid(s: Bytes, i: nat)
    requires i <= |s|
    decreases |s| - i
  {
    i == |s| || (Verify(s, i) && Valid(s, i + SequenceLength(s[i])))
  }

  method IsValidUtf8(s: Bytes) returns (ok: bool)
    ensures ok <==> WellFormed(s)
  {
    ValidIsWellFormed(s, 0);
    assert s[0..] == s;
    var i := 0;
    while i < |s|
      invariant i <= |s|
      invariant Valid(s, 0) <==> Valid(s, i)
    {
      if !Verify(s, i) {
        return false;
      }
      i := i + SequenceLength(s[i]);
    }
    return true;
  }

  // ----- the reference: the table of section 4 of RFC 3629 -----

  predicate Tail(b: byte) {
    0x80 <= b <= 0xBF
  }

  predicate Utf8Char(s: Bytes) {
    || (|s| == 1 && s[0] <= 0x7F)
    || (|s| == 2 && 0xC2 <= s[0] <= 0xDF && Tail(s[1]))
    || (|s| == 3 && Tail(s[2]) &&
        (|| (s[0] == 0xE0 && 0xA0 <= s[1] <= 0xBF)
         || (0xE1 <= s[0] <= 0xEC && Tail(s[1]))
         || (s[0] == 0xED && 0x80 <= s[1] <= 0x9F)
         || (0xEE <= s[0] <= 0xEF && Tail(s[1]))))
    || (|s| == 4 && Tail(s[2]) && Tail(s[3]) &&
        (|| (s[0] == 0xF0 && 0x90 <= s[1] <= 0xBF)
         || (0xF1 <= s[0] <= 0xF3 && Tail(s[1]))
         || (s[0] == 0xF4 && 0x80 <= s[1] <= 0x8F)))
  }

  ghost predicate AllChars(parts: seq<Bytes>) {
    forall p <- parts :: Utf8Char(p)
  }

  /** A concatenation of characters of the table. */
  ghost predicate WellFormed(s: Bytes) {
    exists parts: seq<Bytes> :: AllChars(parts) && Concat(parts) == s
  }

  /** Encoding of a code point, from section 3 of RFC 3629. */
  function Encode(cp: nat): (s: Bytes)
    requires cp <= 0x10FFFF
    ensures 1 <= |s| <= 4
  {
    if cp < 0x80 then [cp]
    else if cp < 0x800 then [0xC0 + cp / 64, 0x80 + cp % 64]
    else if cp < 0x10000 then [0xE0 + cp / 4096, 0x80 + cp / 64 % 64, 0x80 + cp % 64]
    else [0xF0 + cp / 262144, 0x80 + cp / 4096 % 64, 0x80 + cp / 64 % 64, 0x80 + cp % 64]
  }

  ghost predicate Scalar(cp: int) {
    0 <= cp <= 0x10FFFF && !(0xD800 <= cp <= 0xDFFF)
  }

  // ----- one sequence -----

  /** The verifier accepts at `i` exactly when a character of the table stands there. */
  lemma VerifyIsTable(s: Bytes, i: nat)
    requires i < |s|
    ensures Verify(s, i) <==>
            var n := SequenceLength(s[i]); 0 < n && i + n <= |s| && Utf8Char(s[i..i + n])
  {
    var n := SequenceLength(s[i]);
    if 0 < n && i + n <= |s| {
      var c := s[i..i + n];
      assert c[0] == s[i];
      if n == 2 { VerifyTwo(s, i); }
      if n == 3 { VerifyThree(s, i); }
      if n == 4 { VerifyFour(s, i); }
    }
  }

  lemma VerifyTwo(s: Bytes, i: nat)
    requires i + 2 <= |s| && SequenceLength(s[i]) == 2
    ensures Verify(s, i) <==> Utf8Char(s[i..i + 2])
  {
    var c := s[i..i + 2];
    assert c[0] == s[i] && c[1] == s[i + 1];
  }

  lemma VerifyThree(s: Bytes, i: nat)
    requires i + 3 <= |s| && SequenceLength(s[i]) == 3
    ensures Verify(s, i) <==> Utf8Char(s[i..i + 3])
  {
    var c := s[i..i + 3];
    assert c[0] == s[i] && c[1] == s[i + 1] && c[2] == s[i + 2];
  }

  lemma VerifyFour(s: Bytes, i: nat)
    requires i + 4 <= |s| && SequenceLength(s[i]) == 4
    ensures Verify(s, i) <==> Utf8Char(s[i..i + 4])
  {
    var c := s[i..i + 4];
    assert c[0] == s[i] && c[1] == s[i + 1] && c[2] == s[i + 2] && c[3] == s[i + 3];
  }

  lemma CharLength(p: Bytes)
    requires Utf8Char(p)
    ensures |p| == SequenceLength(p[0])
  {}

  /** Every scalar value encodes to a character of the table, which recomputes it. */
  lemma EncodeVerifies(cp: nat)
    requires Scalar(cp)
    ensures Utf8Char(Encode(cp))
    ensures Verify(Encode(cp), 0) && CodePoint(Encode(cp), 0) == cp
    ensures SequenceLength(Encode(cp)[0]) == |Encode(cp)|
  {
    if cp < 0x80 {
    } else if cp < 0x800 {
      EncodeTwo(cp);
    } else if cp < 0x10000 {
      EncodeThree(cp);
    } else {
      EncodeFour(cp);
    }
    VerifyIsTable(Encode(cp), 0);
    assert Encode(cp)[0..|Encode(cp)|] == Encode(cp);
  }

  lemma EncodeTwo(cp: nat)
    requires 0x80 <= cp < 0x800
    ensures Utf8Char(Encode(cp)) && CodePoint(Encode(cp), 0) == cp
    ensures SequenceLength(Encode(cp)[0]) == 2
  {}

  lemma EncodeThree(cp: nat)
    requires Scalar(cp) && 0x800 <= cp < 0x10000
    ensures Utf8Char(Encode(cp)) && CodePoint(Encode(cp), 0) == cp
    ensures SequenceLength(Encode(cp)[0]) == 3
  {
    var a, b, c := cp / 4096, cp / 64 % 64, cp % 64;
    assert cp == (a * 64 + b) * 64 + c;
    var s := Encode(cp);
    assert s == [0xE0 + a, 0x80 + b, 0x80 + c];
    assert s[0] / 16 == 14 && s[0] % 16 == a && SequenceLength(s[0]) == 3;
    assert s[1] % 64 == b && s[2] % 64 == c;
  }

  lemma SixBitParts(cp: nat)
    ensures cp == ((cp / 262144 * 64 + cp / 4096 % 64) * 64 + cp / 64 % 64) * 64 + cp % 64
  {
    var q := cp / 64;
    var r := q / 64;
    assert r == cp / 4096 && r / 64 == cp / 262144;
    assert r == r / 64 * 64 + r % 64;
  }

  lemma EncodeFour(cp: nat)
    requires 0x10000 <= cp <= 0x10FFFF
    ensures Utf8Char(Encode(cp)) && CodePoint(Encode(cp), 0) == cp
    ensures SequenceLength(Encode(cp)[0]) == 4
  {
    var a, b, c, d := cp / 262144, cp / 4096 % 64, cp / 64 % 64, cp % 64;
    SixBitParts(cp);
    var s := Encode(cp);
    assert s == [0xF0 + a, 0x80 + b, 0x80 + c, 0x80 + d];
    assert s[0] / 8 == 30 && s[0] % 8 == a && SequenceLength(s[0]) == 4;
    assert s[1] % 64 == b && s[2] % 64 == c && s[3] % 64 == d;
  }

  // ----- the whole string -----

  lemma {:induction false} ValidIsWellFormed(s: Bytes, i: nat)
    requires i <= |s|
    ensures Valid(s, i) <==> WellFormed(s[i..])
    decreases |s| - i
  {
    if i == |s| {
      assert AllChars([]) && Concat([]) == s[i..];
    } else {
      var n := SequenceLength(s[i]);
      VerifyIsTable(s, i);
      if Verify(s, i) {
        ValidIsWellFormed(s, i + n);
        assert s[i..] == s[i..i + n] + s[i + n..];
        WellFormedCons(s[i..i + n], s[i + n..]);
      } else if WellFormed(s[i..]) {
        WellFormedVerifies(s, i);
        assert false;
      }
    }
  }

  /** The first character of a non-empty well-formed string. */
  lemma FirstChar(s: Bytes) returns (p: Bytes)
    requires s != [] && WellFormed(s)
    ensures Utf8Char(p) && p <= s && WellFormed(s[|p|..])
  {
    var parts: seq<Bytes> :| AllChars(parts) && Concat(parts) == s;
    p := parts[0];
    assert Utf8Char(p);
    assert s[|p|..] == Concat(parts[1..]) && AllChars(parts[1..]);
  }

  lemma WellFormedVerifies(s: Bytes, i: nat)
    requires i < |s| && WellFormed(s[i..])
    ensures Verify(s, i)
  {
    var p := FirstChar(s[i..]);
    CharLength(p);
    VerifyIsTable(s, i);
    assert s[i..i + |p|] == s[i..][..|p|] == p;
  }

  lemma WellFormedCons(p: Bytes, s: Bytes)
    requires Utf8Char(p)
    ensures WellFormed(p + s) <==> WellFormed(s)
  {
    if WellFormed(s) {
      var parts: seq<Bytes> :| AllChars(parts) && Concat(parts) == s;
      var all := [p] + parts;
      assert all[0] == p && all[1..] == parts;
      assert AllChars(all) && Concat(all) == p + s;
    }
    if WellFormed(p + s) {
      var q := FirstChar(p + s);
      CharLength(p);
      CharLength(q);
      assert q[0] == (p + s)[0] == p[0];
      assert (p + s)[|q|..] == s;
    }
  }

  lemma WellFormedEmpty()
    ensures WellFormed([])
  {
    assert AllChars([]) && Concat([]) == [];
  }

  /** One string of bytes comes before another. */
  ghost predicate Before(a: Bytes, b: Bytes, k: nat) {
    k < |a| && k < |b| && a[..k] == b[..k] && a[k] < b[k]
  }

  /** Numbers are ordered by their quotient, and then by their remainder. */
  lemma Base64(a: nat, b: nat)
    requires a < b
    ensures a / 64 < b / 64 || (a / 64 == b / 64 && a % 64 < b % 64)
  {}

  lemma TwoOrder(a: nat, b: nat) returns (k: nat)
    requires 0x80 <= a < b < 0x800
    ensures Before(Encode(a), Encode(b), k)
  {
    Base64(a, b);
    k := if a / 64 < b / 64 then 0 else 1;
  }

  lemma ThreeOrder(a: nat, b: nat) returns (k: nat)
    requires 0x800 <= a < b < 0x10000
    ensures Before(Encode(a), Encode(b), k)
  {
    Base64(a, b);
    assert a / 4096 == a / 64 / 64 && b / 4096 == b / 64 / 64;
    if a / 64 < b / 64 {
      Base64(a / 64, b / 64);
    }
    k := if a / 4096 < b / 4096 then 0 else if a / 64 < b / 64 then 1 else 2;
  }

  lemma FourOrder(a: nat, b: nat) returns (k: nat)
    requires 0x10000 <= a < b <= 0x10FFFF
    ensures Before(Encode(a), Encode(b), k)
  {
    Base64(a, b);
    assert a / 4096 == a / 64 / 64 && b / 4096 == b / 64 / 64;
    assert a / 262144 == a / 4096 / 64 && b / 262144 == b / 4096 / 64;
    if a / 64 < b / 64 {
      Base64(a / 64, b / 64);
    }
    if a / 4096 < b / 4096 {
      Base64(a / 4096, b / 4096);
    }
    k := if a / 262144 < b / 262144 then 0 else if a / 4096 < b / 4096 then 1 else if a / 64 < b / 64 then 2 else 3;
  }

  /** A code point of a longer encoding has the greater first byte. */
  lemma LeadOrder(a: nat, b: nat)
    requires a < b <= 0x10FFFF && |Encode(a)| != |Encode(b)|
    ensures Encode(a)[0] < Encode(b)[0]
  {}

  /** The order of the encodings is the order of the code points: section 1 of RFC 3629. */
  lemma EncodeOrder(a: nat, b: nat) returns (k: nat)
    requires a < b <= 0x10FFFF
    ensures Before(Encode(a), Encode(b), k)
  {
    if |Encode(a)| != |Encode(b)| {
      LeadOrder(a, b);
      k := 0;
    } else if a < 0x80 {
      k := 0;
    } else if a < 0x800 {
      k := TwoOrder(a, b);
    } else if a < 0x10000 {
      k := ThreeOrder(a, b);
    } else {
      k := FourOrder(a, b);
    }
  }
}
