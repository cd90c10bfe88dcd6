/** Requests and replies are self-delimiting: what was encoded is decoded again, whatever follows it. */
module Framing {
  import opened Text
  import opened Decimal
  import opened Resp

  lemma {:induction false} NoFeedBefore(s: Bytes)
    ensures forall k :: 0 <= k < EndOfLine(s) ==> s[k] != NEWLINE
  {
    if s != [] && s[0] != NEWLINE {
      NoFeedBefore(s[1..]);
      forall k | 0 < k < EndOfLine(s) ensures s[k] != NEWLINE {
        assert s[k] == s[1..][k - 1];
      }
    }
  }

  lemma EndOfLineAt(s: Bytes, n: nat)
    requires n < |s| && s[n] == NEWLINE
    requires forall k :: 0 <= k < n ==> s[k] != NEWLINE
    ensures EndOfLine(s) == n
  {
    NoFeedBefore(s);
    assert !(EndOfLine(s) < n);
  }

  lemma TrimLine(s: Bytes)
    requires OneLine(s)
    ensures TrimEnd(s + CRLF) == s
  {
    var t := s + [RETURN];
    assert (s + CRLF)[..|s| + 1] == t;
    assert t[..|s|] == s;
    assert TrimEnd(t) == TrimEnd(s);
    if s != [] {
      assert s[|s| - 1] in s;
    }
    assert TrimEnd(s) == s;
  }

  lemma LineRead(line: Bytes, rest: Bytes)
    requires OneLine(line)
    ensures ReadLine(line + CRLF + rest) == Got(line, rest)
  {
    var s := line + CRLF + rest;
    var n := |line| + 1;
    assert s[n] == NEWLINE;
    forall k | 0 <= k < n ensures s[k] != NEWLINE {
      if k < |line| {
        assert s[k] == line[k];
        assert line[k] in line;
      }
    }
    EndOfLineAt(s, n);
    assert s[..n + 1] == line + CRLF;
    assert s[n + 1..] == rest;
    TrimLine(line);
  }

  lemma DigitsOneLine(s: Bytes)
    requires AllDigits(s)
    ensures OneLine(s)
  {}

  lemma LexDigits(s: Bytes)
    requires s != [] && AllDigits(s)
    ensures LexInt(s) == Some(DigitsValue(s)) && LexInt([MINUS] + s) == Some(-DigitsValue(s))
  {
    assert IsDigit(s[0]);
    assert ([MINUS] + s)[1..] == s;
  }

  lemma LexIntPrinted(n: int)
    ensures LexInt(PrintInt(n)) == Some(n)
  {
    var digits := PrintNat(if n < 0 then -n else n);
    PrintNatDigits(if n < 0 then -n else n);
    LexDigits(digits);
  }

  lemma PrintedOneLine(n: int)
    ensures OneLine(PrintInt(n))
  {
    if n < 0 {
      PrintNatDigits(-n);
      DigitsOneLine(PrintNat(-n));
    } else {
      PrintNatDigits(n);
      DigitsOneLine(PrintNat(n));
    }
  }

  lemma NumberRead(prefix: byte, n: int, rest: Bytes)
    requires prefix != RETURN && prefix != NEWLINE
    ensures ReadNumber([prefix] + PrintInt(n) + CRLF + rest, prefix) == Got(n, rest)
  {
    var line := [prefix] + PrintInt(n);
    PrintedOneLine(n);
    assert OneLine(line);
    LineRead(line, rest);
    assert line[1..] == PrintInt(n);
    LexIntPrinted(n);
  }

  lemma BulkRead(arg: Bytes, rest: Bytes)
    ensures ReadBulk(EncodeBulk(arg) + rest) == Got(arg, rest)
  {
    var tail := arg + CRLF + rest;
    NumberRead(DOLLAR, |arg|, tail);
    var head := [DOLLAR] + PrintNat(|arg|) + CRLF;
    Assoc(head, arg, CRLF);
    Assoc(head, arg + CRLF, rest);
    assert tail[..|arg|] == arg;
    assert tail[|arg| + 2..] == rest;
  }

  lemma OptionRead(v: Option<Bytes>, rest: Bytes)
    ensures ReadBulk(EncodeOption(v) + rest) == Got(OrMissing(v), rest)
  {
    match v
    case Some(s) => BulkRead(s, rest);
    case None =>
      NumberRead(DOLLAR, -1, rest);
      assert PrintInt(-1) == [MINUS, 49];
      assert [DOLLAR] + PrintInt(-1) == [DOLLAR, MINUS, 49];
  }

  lemma {:induction false} OptionsRead(vs: seq<Option<Bytes>>, rest: Bytes)
    ensures ReadBulks(EncodeOptions(vs) + rest, |vs|) == Got(AllOrMissing(vs), rest)
  {
    if vs == [] {
      assert EncodeOptions(vs) + rest == rest;
    } else {
      var tail := EncodeOptions(vs[1..]) + rest;
      Assoc(EncodeOption(vs[0]), EncodeOptions(vs[1..]), rest);
      OptionRead(vs[0], tail);
      OptionsRead(vs[1..], rest);
    }
  }

  function Somes(args: seq<Bytes>): (vs: seq<Option<Bytes>>)
    ensures |vs| == |args|
  {
    if args == [] then [] else [Some(args[0])] + Somes(args[1..])
  }

  lemma {:induction false} SomesEncode(args: seq<Bytes>)
    ensures EncodeOptions(Somes(args)) == EncodeBulks(args)
  {
    if args != [] {
      SomesEncode(args[1..]);
      assert Somes(args)[1..] == Somes(args[1..]);
      assert Somes(args)[0] == Some(args[0]);
    }
  }

  lemma {:induction false} SomesView(args: seq<Bytes>)
    ensures AllOrMissing(Somes(args)) == args
  {
    if args != [] {
      SomesView(args[1..]);
      assert Somes(args)[1..] == Somes(args[1..]);
      assert Somes(args)[0] == Some(args[0]);
    }
  }

  lemma ArrayRead(vs: seq<Option<Bytes>>, rest: Bytes)
    ensures ReadMulti([STAR] + PrintNat(|vs|) + CRLF + EncodeOptions(vs) + rest) == Got(AllOrMissing(vs), rest)
  {
    var head := [STAR] + PrintNat(|vs|) + CRLF;
    Assoc(head, EncodeOptions(vs), rest);
    NumberRead(STAR, |vs|, EncodeOptions(vs) + rest);
    OptionsRead(vs, rest);
  }

  /** A command is self-delimiting for arbitrary binary arguments. */
  lemma CommandRead(args: seq<Bytes>, rest: Bytes)
    ensures ReadMulti(EncodeCommand(args) + rest) == Got(args, rest)
  {
    SomesEncode(args);
    SomesView(args);
    ArrayRead(Somes(args), rest);
  }

  /** What a stream of commands decodes to: as many as are complete, and the bytes left over. */
  function DecodeCommands(s: Bytes): (seq<seq<Bytes>>, Bytes)
    decreases |s|
  {
    match ReadMulti(s)
    case Thrown => ([], s)
    case Got(args, rest) =>
      var (more, left) := DecodeCommands(rest);
      ([args] + more, left)
  }

  /** Any concatenation of encoded commands is decoded into the argument lists, in order. */
  lemma {:induction false} CommandsRead(cmds: seq<seq<Bytes>>)
    ensures DecodeCommands(EncodeCommands(cmds)) == (cmds, [])
  {
    if cmds == [] {
      assert ReadMulti([]) == Thrown;
    } else {
      CommandRead(cmds[0], EncodeCommands(cmds[1..]));
      CommandsRead(cmds[1..]);
      assert [cmds[0]] + cmds[1..] == cmds;
    }
  }

  // ----- a decoded prefix stays decoded when more bytes arrive -----

  lemma SliceStable(a: Bytes, i: nat, j: nat, x: Bytes)
    requires i <= j <= |a|
    ensures (a + x)[..i] == a[..i] && (a + x)[j..] == a[j..] + x
  {
    var l, r := (a + x)[j..], a[j..] + x;
    assert |l| == |r|;
    forall k | 0 <= k < |l| ensures l[k] == r[k] {
      assert l[k] == (a + x)[j + k];
    }
  }

  lemma LineStable(a: Bytes, x: Bytes)
    ensures ReadLine(a).Got? ==> ReadLine(a + x) == Got(ReadLine(a).value, ReadLine(a).rest + x)
  {
    var i := EndOfLine(a);
    if i < |a| {
      NoFeedBefore(a);
      assert (a + x)[i] == NEWLINE;
      forall k | 0 <= k < i ensures (a + x)[k] != NEWLINE {
        assert (a + x)[k] == a[k];
      }
      EndOfLineAt(a + x, i);
      SliceStable(a, i + 1, i + 1, x);
    }
  }

  lemma NumberStable(a: Bytes, prefix: byte, x: Bytes)
    ensures ReadNumber(a, prefix).Got? ==>
              ReadNumber(a + x, prefix) == Got(ReadNumber(a, prefix).value, ReadNumber(a, prefix).rest + x)
  {
    LineStable(a, x);
  }

  lemma BulkStable(a: Bytes, x: Bytes, v: Bytes, rest: Bytes)
    requires ReadBulk(a) == Got(v, rest)
    ensures ReadBulk(a + x) == Got(v, rest + x)
  {
    NumberStable(a, DOLLAR, x);
    match ReadNumber(a, DOLLAR)
    case Thrown =>
    case Got(n, tail) =>
      if 0 <= n && n + 2 <= |tail| {
        SliceStable(tail, n, n + 2, x);
      }
  }

  /** Values read one after another by any reader. */
  ghost predicate Chain(read: Bytes -> Decoded<Bytes>, s: Bytes, vs: seq<Bytes>, rest: Bytes)
    decreases |vs|
  {
    if vs == [] then s == rest
    else read(s).Got? && read(s).value == vs[0] && Chain(read, read(s).rest, vs[1..], rest)
  }

  ghost predicate KeepsReading(read: Bytes -> Decoded<Bytes>, x: Bytes) {
    forall s :: read(s).Got? ==> read(s + x) == Got(read(s).value, read(s).rest + x)
  }

  lemma {:induction false} ChainStable(read: Bytes -> Decoded<Bytes>, s: Bytes, vs: seq<Bytes>, rest: Bytes, x: Bytes)
    requires KeepsReading(read, x) && Chain(read, s, vs, rest)
    ensures Chain(read, s + x, vs, rest + x)
    decreases |vs|
  {
    if vs != [] {
      ChainStable(read, read(s).rest, vs[1..], rest, x);
    }
  }

  lemma {:induction false} BulksAreChain(s: Bytes, n: nat, vs: seq<Bytes>, rest: Bytes)
    ensures ReadBulks(s, n) == Got(vs, rest) <==> |vs| == n && Chain(ReadBulk, s, vs, rest)
    decreases n
  {
    if n > 0 && ReadBulk(s).Got? && vs != [] {
      BulksAreChain(ReadBulk(s).rest, n - 1, vs[1..], rest);
      assert vs == [vs[0]] + vs[1..];
    }
  }

  lemma {:induction false} ChainSnoc(read: Bytes -> Decoded<Bytes>, s: Bytes, vs: seq<Bytes>, mid: Bytes, v: Bytes,
                                     rest: Bytes)
    requires Chain(read, s, vs, mid) && read(mid) == Got(v, rest)
    ensures Chain(read, s, vs + [v], rest)
    decreases |vs|
  {
    if vs != [] {
      ChainSnoc(read, read(s).rest, vs[1..], mid, v, rest);
      assert (vs + [v])[1..] == vs[1..] + [v];
    }
  }

  lemma {:induction false} ChainGoesOn(read: Bytes -> Decoded<Bytes>, s: Bytes, a: seq<Bytes>, mid: Bytes,
                                       b: seq<Bytes>, rest: Bytes)
    requires Chain(read, s, a, mid) && Chain(read, s, b, rest) && |a| < |b|
    ensures read(mid).Got?
    decreases |a|
  {
    if a != [] {
      ChainGoesOn(read, read(s).rest, a[1..], mid, b[1..], rest);
    }
  }

  /** A value that cannot be read, before the last one, breaks off the whole list. */
  lemma ChainBreaks(s: Bytes, n: nat, vs: seq<Bytes>, mid: Bytes)
    requires Chain(ReadBulk, s, vs, mid) && |vs| < n
    ensures ReadBulk(mid) == Thrown ==> ReadBulks(s, n) == Thrown
  {
    match ReadBulks(s, n)
    case Thrown =>
    case Got(all, rest) =>
      BulksAreChain(s, n, all, rest);
      ChainGoesOn(ReadBulk, s, vs, mid, all, rest);
  }

  lemma BulksStable(a: Bytes, n: nat, x: Bytes, vs: seq<Bytes>, rest: Bytes)
    requires ReadBulks(a, n) == Got(vs, rest)
    ensures ReadBulks(a + x, n) == Got(vs, rest + x)
  {
    forall s | ReadBulk(s).Got? ensures ReadBulk(s + x) == Got(ReadBulk(s).value, ReadBulk(s).rest + x) {
      BulkStable(s, x, ReadBulk(s).value, ReadBulk(s).rest);
    }
    BulksAreChain(a, n, vs, rest);
    ChainStable(ReadBulk, a, vs, rest, x);
    BulksAreChain(a + x, n, vs, rest + x);
  }

  lemma MultiStable(a: Bytes, x: Bytes)
    ensures ReadMulti(a).Got? ==> ReadMulti(a + x) == Got(ReadMulti(a).value, ReadMulti(a).rest + x)
  {
    NumberStable(a, STAR, x);
    match ReadMulti(a)
    case Thrown =>
    case Got(vs, rest) =>
      BulksStable(ReadNumber(a, STAR).rest, ReadNumber(a, STAR).value, x, vs, rest);
  }

  /** Cutting the stream anywhere changes nothing: the bytes left over are decoded with what arrives next. */
  lemma {:induction false} DecodeInPieces(a: Bytes, b: Bytes)
    ensures DecodeCommands(a + b) ==
            (DecodeCommands(a).0 + DecodeCommands(DecodeCommands(a).1 + b).0, DecodeCommands(DecodeCommands(a).1 + b).1)
    decreases |a|
  {
    MultiStable(a, b);
    match ReadMulti(a)
    case Thrown =>
      assert [] + DecodeCommands(a + b).0 == DecodeCommands(a + b).0;
    case Got(args, rest) =>
      DecodeInPieces(rest, b);
      Assoc([args], DecodeCommands(rest).0, DecodeCommands(DecodeCommands(rest).1 + b).0);
  }

  // ----- replies -----

  lemma StatusRead(s: Bytes, rest: Bytes)
    requires OneLine(s)
    ensures ReadReply([PLUS] + s + CRLF + rest) == Got(StatusData(s), rest)
  {
    var line := [PLUS] + s;
    LineRead(line, rest);
    assert line[1..] == s;
  }

  lemma ErrorRead(s: Bytes, rest: Bytes)
    requires OneLine(s) && |s| >= 4
    ensures ReadReply([MINUS] + s + CRLF + rest) == Got(ErrorData(s[4..]), rest)
  {
    var line := [MINUS] + s;
    LineRead(line, rest);
    assert line[5..] == s[4..];
  }

  lemma IntRead(n: int, rest: Bytes)
    ensures ReadReply([COLON] + PrintInt(n) + CRLF + rest) == Got(IntData(ToInt32(n)), rest)
  {
    NumberRead(COLON, n, rest);
  }

  /** A reply of 32 bits arrives as it was sent. */
  lemma IntArrives(n: int, rest: Bytes)
    requires -0x8000_0000 <= n <= 0x7FFF_FFFF
    ensures ReadReply(Spell(":") + PrintInt(n) + Spell("\r\n") + rest) == Got(IntData(n), rest)
  {
    assert Spell(":") == [COLON] && Spell("\r\n") == CRLF;
    IntRead(n, rest);
    ToInt32Wraps(n, n);
  }

  lemma BulkReplyRead(v: Option<Bytes>, rest: Bytes)
    ensures ReadReply(EncodeOption(v) + rest) == Got(BulkData(OrMissing(v)), rest)
  {
    OptionRead(v, rest);
    assert (EncodeOption(v) + rest)[0] == DOLLAR;
  }

  lemma MultiByPrefix(s: Bytes, vs: seq<Bytes>, rest: Bytes)
    requires s != [] && s[0] == STAR && ReadMulti(s) == Got(vs, rest)
    ensures ReadReply(s) == Got(MultiData(vs), rest)
  {}

  lemma MultiReplyRead(vs: seq<Option<Bytes>>, rest: Bytes)
    ensures ReadReply([STAR] + PrintNat(|vs|) + CRLF + EncodeOptions(vs) + rest) ==
            Got(MultiData(AllOrMissing(vs)), rest)
  {
    var s := [STAR] + PrintNat(|vs|) + CRLF + EncodeOptions(vs) + rest;
    ArrayRead(vs, rest);
    MultiByPrefix(s, AllOrMissing(vs), rest);
  }

  /** Every well-formed reply is read back as the client's view of it, and exactly its bytes are consumed. */
  lemma ReplyRead(r: Reply, rest: Bytes)
    requires WellFormed(r)
    ensures ReadReply(EncodeReply(r) + rest) == Got(ClientView(r), rest)
  {
    match r
    case Status(s) => StatusRead(s, rest);
    case Error(s) => ErrorRead(s, rest);
    case Number(n) => IntRead(n, rest);
    case Bulk(v) => BulkReplyRead(v, rest);
    case Multi(vs) => MultiReplyRead(vs, rest);
  }

  lemma OtherPrefix(s: Bytes, prefix: byte)
    requires s != [] && s[0] != prefix
    ensures ReadNumber(s, prefix) == Thrown
  {
    match ReadLine(s)
    case Thrown =>
    case Got(line, _) => if line != [] { assert line[0] == s[0]; }
  }

  /** An error line with no room for the code the client cuts off makes `substr` throw. */
  lemma ShortErrorThrows(s: Bytes, rest: Bytes)
    requires OneLine(s)
    ensures ReadReply(EncodeReply(Error(s)) + rest).Thrown? <==> |s| < 4
  {
    var line := [MINUS] + s;
    LineRead(line, rest);
    if |s| >= 4 {
      ErrorRead(s, rest);
    }
  }

  // ----- the texts themselves -----

  lemma MarksSpelled()
    ensures [STAR, DOLLAR, COLON, PLUS, MINUS] == Spell("*$:+-") && CRLF == Spell("\r\n")
    ensures MISSING_VALUE == Spell("**nonexistent-key**")
  {}

  lemma BulkTexts()
    ensures EncodeBulk(Spell("GET")) == Spell("$3\r\nGET\r\n") && EncodeBulk(Spell("a")) == Spell("$1\r\na\r\n")
  {
    assert Spell("GET") == [71, 69, 84] && Spell("a") == [97];
    assert EncodeBulk([71, 69, 84]) == [36, 51, 13, 10, 71, 69, 84, 13, 10];
    assert EncodeBulk([97]) == [36, 49, 13, 10, 97, 13, 10];
  }

  /** The request for the value of `a`, byte for byte. */
  lemma RequestText()
    ensures EncodeCommand([Spell("GET"), Spell("a")]) ==
            Spell("*2\r\n") + (Spell("$3\r\nGET\r\n") + Spell("$1\r\na\r\n"))
  {
    var args := [Spell("GET"), Spell("a")];
    assert args[1..] == [Spell("a")];
    BulkTexts();
    OneBulk(Spell("a"));
    assert [STAR] + PrintNat(2) + CRLF == Spell("*2\r\n");
  }

  lemma OneBulk(arg: Bytes)
    ensures EncodeBulks([arg]) == EncodeBulk(arg)
  {
    assert EncodeBulks([arg]) == EncodeBulk(arg) + [];
  }

  lemma StatusText(s: Bytes, rest: Bytes)
    requires OneLine(s)
    ensures ReadReply(Spell("+") + s + Spell("\r\n") + rest) == Got(StatusData(s), rest)
  {
    assert Spell("+") == [PLUS] && Spell("\r\n") == CRLF;
    StatusRead(s, rest);
  }

  /** The client cuts off the sign and a code of three letters and a blank. */
  lemma ErrorText(s: Bytes, rest: Bytes)
    requires OneLine(s)
    ensures ReadReply(Spell("-ERR ") + s + Spell("\r\n") + rest) == Got(ErrorData(s), rest)
  {
    var code := Spell("ERR ");
    assert Spell("-ERR ") == [MINUS] + code && Spell("\r\n") == CRLF;
    Assoc([MINUS], code, s);
    assert (code + s)[4..] == s;
    ErrorRead(code + s, rest);
  }

  lemma NilText(rest: Bytes)
    ensures ReadReply(Spell("$-1\r\n") + rest) == Got(BulkData(Spell("**nonexistent-key**")), rest)
  {
    MarksSpelled();
    assert EncodeOption(None) == Spell("$-1\r\n");
    BulkReplyRead(None, rest);
  }

  /** A count below zero is an exception for a list, and so is a length below -1 for a string. */
  lemma NegativeCounts(n: int, rest: Bytes)
    requires n < 0
    ensures ReadMulti([STAR] + PrintInt(n) + CRLF + rest) == Thrown
    ensures n < -1 ==> ReadBulk([DOLLAR] + PrintInt(n) + CRLF + rest) == Thrown
  {
    NumberRead(STAR, n, rest);
    NumberRead(DOLLAR, n, rest);
  }
}
