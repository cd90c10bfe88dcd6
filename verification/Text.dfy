/** C text: the bytes in front of a terminating NUL, and how a program reads them. */
module Text {

  type byte = b: int | 0 <= b < 256

  type Bytes = seq<byte>

  datatype Option<+T> = None | Some(value: T)

  const NUL: byte := 0
  const BACKSPACE: byte := 8
  const TAB: byte := 9
  const NEWLINE: byte := 10
  const FORMFEED: byte := 12
  const RETURN: byte := 13
  const SPACE: byte := 32
  const QUOTE: byte := 34
  const STAR: byte := 42
  const COMMA: byte := 44
  const MINUS: byte := 45
  const SLASH: byte := 47
  const ZERO: byte := 48
  const COLON: byte := 58
  const LBRACKET: byte := 91
  const BACKSLASH: byte := 92
  const RBRACKET: byte := 93
  const LBRACE: byte := 123
  const RBRACE: byte := 125

  /** The bytes of a literal. */
  function Spell(s: string): (r: Bytes)
    ensures |r| == |s|
  {
    seq(|s|, k requires 0 <= k < |s| => s[k] as int % 256)
  }

  /** What a read of `s[i]` sees. A read past the terminator is a verification error. */
  function Peek(s: Bytes, i: nat): byte
    requires i <= |s|
  {
    if i < |s| then s[i] else NUL
  }

  /** The bytes a `char *` result denotes: everything before the first NUL. */
  function CString(s: Bytes): (r: Bytes)
    ensures NUL !in r && |r| <= |s| && r == s[..|r|]
    ensures NUL !in s ==> r == s
  {
    if s == [] || s[0] == NUL then [] else [s[0]] + CString(s[1..])
  }

  function Concat(parts: seq<Bytes>): Bytes {
    if parts == [] then [] else parts[0] + Concat(parts[1..])
  }

  /** `isspace` in the C locale. */
  predicate IsSpace(b: byte) {
    b == SPACE || 9 <= b <= 13
  }

  predicate IsDigit(b: byte) {
    ZERO <= b <= 57
  }

  /** Blank, tab, line feed, vertical tab, form feed and carriage return, and nothing else. */
  lemma SpacesSpelled(b: byte)
    ensures IsSpace(b) <==> b in Spell(" \t\n\U{B}\U{C}\r")
  {
    var s := Spell(" \t\n\U{B}\U{C}\r");
    assert s[0] == 32 && s[1] == 9 && s[2] == 10 && s[3] == 11 && s[4] == 12 && s[5] == 13;
  }

  /** `pat` stands in `s` at position `i`. */
  ghost predicate StandsAt(s: Bytes, i: nat, pat: Bytes) {
    i + |pat| <= |s| && s[i..i + |pat|] == pat
  }

  lemma Assoc<T>(a: seq<T>, b: seq<T>, c: seq<T>)
    ensures a + b + c == a + (b + c)
  {}

  lemma StandsAtConcat(s: Bytes, i: nat, a: Bytes, b: Bytes)
    ensures StandsAt(s, i, a + b) <==> StandsAt(s, i, a) && StandsAt(s, i + |a|, b)
  {
    if i + |a| + |b| <= |s| {
      var w := s[i..i + |a| + |b|];
      assert w[..|a|] == s[i..i + |a|] && w[|a|..] == s[i + |a|..i + |a| + |b|];
      assert (a + b)[..|a|] == a && (a + b)[|a|..] == b;
      assert w == w[..|a|] + w[|a|..];
    }
  }

  lemma StandsAtInside(s: Bytes, i: nat, a: Bytes, k: nat, b: Bytes)
    requires StandsAt(s, i, a) && k + |b| <= |a|
    ensures StandsAt(s, i + k, b) <==> StandsAt(a, k, b)
  {
    forall m | k <= m < k + |b| ensures s[i + m] == a[m] {
      assert s[i..i + |a|][m] == a[m];
    }
    assert s[i + k..i + k + |b|] == a[k..k + |b|];
  }

  lemma PrefixHead(s: Bytes, i: nat, pat: Bytes)
    requires pat != []
    ensures StandsAt(s, i, pat) ==> s[i] == pat[0]
  {
    if StandsAt(s, i, pat) {
      assert s[i] == s[i..i + |pat|][0];
    }
  }

  lemma TakeNext<T>(s: seq<T>, k: nat)
    requires k < |s|
    ensures s[..k] + [s[k]] == s[..k + 1]
  {}

  /** `strncmp(pat, s + i, strlen(pat)) == 0`. */
  predicate HasPrefix(s: Bytes, i: nat, pat: Bytes)
    requires i <= |s|
    ensures HasPrefix(s, i, pat) <==> StandsAt(s, i, pat)
  {
    i + |pat| <= |s| && s[i..i + |pat|] == pat
  }

  /** Where SKIP_WHITESPACES stops. */
  function SkipSpace(s: Bytes, i: nat): (r: nat)
    requires i <= |s|
    ensures i <= r <= |s| && !IsSpace(Peek(s, r))
    ensures forall k :: i <= k < r ==> IsSpace(s[k])
    decreases |s| - i
  {
    if IsSpace(Peek(s, i)) then SkipSpace(s, i + 1) else i
  }

  lemma {:induction false} SkipSpaceOver(s: Bytes, i: nat, j: nat)
    requires i <= j <= |s|
    requires forall k :: i <= k < j ==> IsSpace(s[k])
    ensures SkipSpace(s, i) == SkipSpace(s, j)
    decreases j - i
  {
    if i < j {
      SkipSpaceOver(s, i + 1, j);
    }
  }
}
