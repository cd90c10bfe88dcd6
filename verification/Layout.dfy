/** Serialised text as a sequence of tokens with white space anywhere between them. */
module Layout {
  import opened Text
  import opened Decimal
  import opened Strings
  import opened Values
  import opened Parser

  // ----- tokens -----

  function Tokens(v: Value): seq<Bytes>
    decreases v, 1
  {
    match v
    case Null => [NULL_TOKEN]
    case Bool(b) => [if b then TRUE_TOKEN else FALSE_TOKEN]
    case Num(n) => [PrintInt(n)]
    case Str(s) => [Quote(s)]
    case Arr(items, _) => [[LBRACKET]] + ItemTokens(items, 0) + [[RBRACKET]]
    case Obj(members, _) => [[LBRACE]] + MemberTokens(members, 0) + [[RBRACE]]
  }

  function CommaTokens(last: bool): seq<Bytes> {
    if last then [] else [[COMMA]]
  }

  function ItemTokens(items: seq<Value>, k: nat): seq<Bytes>
    requires k <= |items|
    decreases items, 0, |items| - k
  {
    if k == |items| then []
    else Tokens(items[k]) + CommaTokens(k == |items| - 1) + ItemTokens(items, k + 1)
  }

  function MemberTokens(members: seq<Member>, k: nat): seq<Bytes>
    requires k <= |members|
    decreases members, 0, |members| - k
  {
    if k == |members| then []
    else
      [Quote(members[k].name), [COLON]] + Tokens(members[k].value) + CommaTokens(k == |members| - 1)
      + MemberTokens(members, k + 1)
  }

  /** Where the tokens end when they stand at `i`, each after any amount of white space. */
  function After(t: Bytes, i: nat, toks: seq<Bytes>): (e: Option<nat>)
    requires i <= |t|
    ensures e.Some? ==> i <= e.value <= |t|
    decreases |toks|
  {
    if toks == [] then Some(i)
    else
      var p := SkipSpace(t, i);
      if HasPrefix(t, p, toks[0]) then After(t, p + |toks[0]|, toks[1..]) else None
  }

  lemma AfterCons(t: Bytes, i: nat, tok: Bytes, rest: seq<Bytes>, toks: seq<Bytes>)
    requires i <= |t| && toks == [tok] + rest
    ensures After(t, i, toks) ==
            if HasPrefix(t, SkipSpace(t, i), tok) then After(t, SkipSpace(t, i) + |tok|, rest) else None
  {
    assert toks[1..] == rest;
  }

  lemma {:induction false} AfterConcat(t: Bytes, i: nat, a: seq<Bytes>, b: seq<Bytes>)
    requires i <= |t|
    ensures After(t, i, a + b) == match After(t, i, a) case None => None case Some(m) => After(t, m, b)
    decreases |a|
  {
    if a == [] {
      assert a + b == b;
    } else {
      var tok, more := a[0], a[1..];
      AfterCons(t, i, tok, more, a);
      assert a + b == [tok] + (more + b);
      AfterCons(t, i, tok, more + b, a + b);
      if HasPrefix(t, SkipSpace(t, i), tok) {
        AfterConcat(t, SkipSpace(t, i) + |tok|, more, b);
      }
    }
  }

  /** Splits a layout at a token boundary. */
  lemma AfterSplit(t: Bytes, i: nat, a: seq<Bytes>, b: seq<Bytes>, e: nat) returns (m: nat)
    requires i <= |t| && After(t, i, a + b) == Some(e)
    ensures i <= m <= e <= |t| && After(t, i, a) == Some(m) && After(t, m, b) == Some(e)
  {
    AfterConcat(t, i, a, b);
    m := After(t, i, a).value;
  }

  lemma AfterOne(t: Bytes, i: nat, tok: Bytes, e: nat)
    requires i <= |t|
    ensures After(t, i, [tok]) == Some(e) <==>
            StandsAt(t, SkipSpace(t, i), tok) && e == SkipSpace(t, i) + |tok|
  {}

  /** A one-byte token is what the parser peeks at after skipping white space. */
  lemma AfterMark(t: Bytes, i: nat, b: byte, e: nat)
    requires i <= |t| && After(t, i, [[b]]) == Some(e)
    ensures SkipSpace(t, i) < |t| && Peek(t, SkipSpace(t, i)) == b && e == SkipSpace(t, i) + 1
  {
    AfterOne(t, i, [b], e);
  }

  lemma AfterSkip(t: Bytes, i: nat, toks: seq<Bytes>)
    requires i <= |t| && toks != []
    ensures After(t, SkipSpace(t, i), toks) == After(t, i, toks)
  {
    SkipSpaceOver(t, i, SkipSpace(t, i));
  }
}
