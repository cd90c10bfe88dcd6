/** The Redis protocol: requests as makecmd writes them, and replies as the client decodes them. */
module Resp {
  import opened Text
  import opened Decimal

  const CRLF: Bytes := [RETURN, NEWLINE]
  const PLUS: byte := 43
  const DOLLAR: byte := 36

  /** "**nonexistent-key**". */
  const MISSING_VALUE: Bytes :=
    [42, 42, 110, 111, 110, 101, 120, 105, 115, 116, 101, 110, 116, 45, 107, 101, 121, 42, 42]

  // ----- requests -----

  function EncodeBulk(arg: Bytes): Bytes {
    [DOLLAR] + PrintNat(|arg|) + CRLF + arg + CRLF
  }

  function EncodeBulks(args: seq<Bytes>): Bytes {
    if args == [] then [] else EncodeBulk(args[0]) + EncodeBulks(args[1..])
  }

  /** The byte form of a command: its arguments as an array of bulk strings. */
  function EncodeCommand(args: seq<Bytes>): Bytes {
    [STAR] + PrintNat(|args|) + CRLF + EncodeBulks(args)
  }

  function EncodeCommands(cmds: seq<seq<Bytes>>): Bytes {
    if cmds == [] then [] else EncodeCommand(cmds[0]) + EncodeCommands(cmds[1..])
  }

  class MakeCmd {
    var lines: seq<Bytes>

    constructor (name: Bytes)
      ensures lines == [name]
    {
      lines := [name];
    }

    /** operator<< for one string. */
    method Append(datum: Bytes)
      modifies this
      ensures lines == old(lines) + [datum]
    {
      lines := lines + [datum];
    }

    /** operator<< for a vector of strings. */
    method AppendAll(data: seq<Bytes>)
      modifies this
      ensures lines == old(lines) + data
    {
      lines := lines + data;
    }

    /** operator std::string. */
    method ToBytes() returns (s: Bytes)
      ensures s == EncodeCommand(lines)
    {
      var n := |lines|;
      s := [STAR] + PrintNat(n) + CRLF;
      assert lines[0..] == lines;
      for i := 0 to n
        invariant s + EncodeBulks(lines[i..]) == EncodeCommand(lines)
      {
        var param := lines[i];
        assert lines[i..][1..] == lines[i + 1..];
        BulksCons(s, lines, i);
        s := s + [DOLLAR] + PrintNat(|param|) + CRLF;
        s := s + param + CRLF;
      }
      assert s + EncodeBulks(lines[n..]) == s;
    }
  }

  lemma BulksCons(s: Bytes, lines: seq<Bytes>, i: nat)
    requires i < |lines|
    ensures s + EncodeBulks(lines[i..]) ==
            s + [DOLLAR] + PrintNat(|lines[i]|) + CRLF + lines[i] + CRLF + EncodeBulks(lines[i + 1..])
  {
    var a, b := [DOLLAR], PrintNat(|lines[i]|);
    assert lines[i..][1..] == lines[i + 1..];
    Assoc(s, EncodeBulk(lines[i]), EncodeBulks(lines[i + 1..]));
    Assoc(s, a, b);
    Assoc(s, a + b, CRLF);
    Assoc(s, a + b + CRLF, lines[i]);
    Assoc(s, a + b + CRLF + lines[i], CRLF);
  }

  // ----- what the client makes of a byte stream, however it is delivered -----

  /** A decoded value and the bytes behind it, or the exception that ends the call. */
  datatype Decoded<T> = Thrown | Got(value: T, rest: Bytes)

  /** Index of the first line feed, or the length. */
  function EndOfLine(s: Bytes): (i: nat)
    ensures i <= |s|
    ensures i < |s| ==> s[i] == NEWLINE
  {
    if s == [] || s[0] == NEWLINE then 0 else 1 + EndOfLine(s[1..])
  }

  /** rtrim with CR and LF. */
  function TrimEnd(s: Bytes): (r: Bytes)
    ensures |r| <= |s| && r == s[..|r|]
  {
    if s != [] && (s[|s| - 1] == RETURN || s[|s| - 1] == NEWLINE) then TrimEnd(s[..|s| - 1]) else s
  }

  /** What is trimmed are carriage returns and line feeds, and all of them. */
  lemma {:induction false} TrimEndExactly(s: Bytes)
    ensures forall k :: |TrimEnd(s)| <= k < |s| ==> s[k] == RETURN || s[k] == NEWLINE
    ensures TrimEnd(s) != [] ==> TrimEnd(s)[|TrimEnd(s)| - 1] != RETURN && TrimEnd(s)[|TrimEnd(s)| - 1] != NEWLINE
  {
    if s != [] && (s[|s| - 1] == RETURN || s[|s| - 1] == NEWLINE) {
      TrimEndExactly(s[..|s| - 1]);
    }
  }

  /** read_line: without a line feed the connection is closed before the line ends. */
  function ReadLine(s: Bytes): Decoded<Bytes> {
    var i := EndOfLine(s);
    if i == |s| then Thrown else Got(TrimEnd(s[..i + 1]), s[i + 1..])
  }

  /** `lexical_cast` to an integer. */
  function LexInt(s: Bytes): Option<int> {
    var digits := if s != [] && (s[0] == MINUS || s[0] == PLUS) then s[1..] else s;
    if digits == [] || !AllDigits(digits) then None
    else if s[0] == MINUS then Some(-DigitsValue(digits)) else Some(DigitsValue(digits))
  }

  /** An integer is digits, with a sign in front of them or without. */
  lemma LexIntExactly(s: Bytes)
    ensures LexInt(s).Some? <==>
            exists d :: d != [] && AllDigits(d) && (s == d || s == Spell("-") + d || s == Spell("+") + d)
  {
    assert Spell("-") == [MINUS] && Spell("+") == [PLUS];
    if LexInt(s).Some? {
      var d := if s[0] == MINUS || s[0] == PLUS then s[1..] else s;
      assert d != [] && AllDigits(d) && (s == d || s == Spell("-") + d || s == Spell("+") + d);
    }
    if d :| d != [] && AllDigits(d) && (s == d || s == Spell("-") + d || s == Spell("+") + d) {
      assert s != d ==> s[1..] == d;
      assert IsDigit(d[0]);
    }
  }

  /** A line of a prefix and an integer. */
  function ReadNumber(s: Bytes, prefix: byte): Decoded<int> {
    match ReadLine(s)
    case Thrown => Thrown
    case Got(line, rest) =>
      if line == [] || line[0] != prefix then Thrown
      else
        match LexInt(line[1..])
        case None => Thrown
        case Some(n) => Got(n, rest)
  }

  /** recv_bulk_reply_. */
  function ReadBulk(s: Bytes): (r: Decoded<Bytes>)
    ensures r.Got? ==> |r.rest| < |s|
  {
    match ReadNumber(s, DOLLAR)
    case Thrown => Thrown
    case Got(length, rest) =>
      if length == -1 then Got(MISSING_VALUE, rest)
      else if length + 2 <= 0 || |rest| < length + 2 then Thrown
      else Got(rest[..length], rest[length + 2..])
  }

  function ReadBulks(s: Bytes, n: nat): (r: Decoded<seq<Bytes>>)
    ensures r.Got? ==> |r.rest| <= |s| && |r.value| == n
    decreases n
  {
    if n == 0 then Got([], s)
    else
      match ReadBulk(s)
      case Thrown => Thrown
      case Got(v, rest) =>
        match ReadBulks(rest, n - 1)
        case Thrown => Thrown
        case Got(vs, rest') => Got([v] + vs, rest')
  }

  /** recv_multi_bulk_reply_ into a vector; a negative count throws. */
  function ReadMulti(s: Bytes): (r: Decoded<seq<Bytes>>)
    ensures r.Got? ==> |r.rest| < |s|
  {
    match ReadNumber(s, STAR)
    case Thrown => Thrown
    case Got(n, rest) => if n < 0 then Thrown else ReadBulks(rest, n)
  }

  // ----- replies -----

  datatype ReplyData =
    | StatusData(s: Bytes)
    | ErrorData(s: Bytes)
    | IntData(n: int)
    | BulkData(s: Bytes)
    | MultiData(vs: seq<Bytes>)

  /** The reply is kept in an `int`. */
  function ToInt32(n: int): int {
    (n + 0x8000_0000) % 0x1_0000_0000 - 0x8000_0000
  }

  /** An `int` holds a number as it is if it has 32 bits, and otherwise up to a multiple of 2^32. */
  lemma ToInt32Wraps(n: int, m: int)
    ensures ToInt32(n) == m <==> -0x8000_0000 <= m <= 0x7FFF_FFFF && (m - n) % 0x1_0000_0000 == 0
  {
    var q := (n + 0x8000_0000) / 0x1_0000_0000;
    assert ToInt32(n) == n - q * 0x1_0000_0000;
  }

  /** recv_generic_reply_: the first byte tells the kind. */
  function ReadReply(s: Bytes): Decoded<ReplyData> {
    if s == [] then Thrown
    else if s[0] == PLUS then
      (match ReadLine(s) case Thrown => Thrown
       case Got(line, rest) => if line == [] then Thrown else Got(StatusData(line[1..]), rest))
    else if s[0] == MINUS then
      (match ReadLine(s) case Thrown => Thrown
       case Got(line, rest) => if |line| < 5 then Thrown else Got(ErrorData(line[5..]), rest))
    else if s[0] == COLON then
      (match ReadNumber(s, COLON) case Thrown => Thrown case Got(n, rest) => Got(IntData(ToInt32(n)), rest))
    else if s[0] == DOLLAR then
      (match ReadBulk(s) case Thrown => Thrown case Got(v, rest) => Got(BulkData(v), rest))
    else if s[0] == STAR then
      (match ReadMulti(s) case Thrown => Thrown case Got(vs, rest) => Got(MultiData(vs), rest))
    else Thrown
  }

  /** A reply as a server gives it; a bulk string may be nil. */
  datatype Reply =
    | Status(s: Bytes)
    | Error(s: Bytes)
    | Number(n: int)
    | Bulk(v: Option<Bytes>)
    | Multi(vs: seq<Option<Bytes>>)

  function EncodeOption(v: Option<Bytes>): Bytes {
    match v
    case None => [DOLLAR, MINUS, 49] + CRLF
    case Some(s) => EncodeBulk(s)
  }

  function EncodeOptions(vs: seq<Option<Bytes>>): Bytes {
    if vs == [] then [] else EncodeOption(vs[0]) + EncodeOptions(vs[1..])
  }

  function EncodeReply(r: Reply): Bytes {
    match r
    case Status(s) => [PLUS] + s + CRLF
    case Error(s) => [MINUS] + s + CRLF
    case Number(n) => [COLON] + PrintInt(n) + CRLF
    case Bulk(v) => EncodeOption(v)
    case Multi(vs) => [STAR] + PrintNat(|vs|) + CRLF + EncodeOptions(vs)
  }

  /** No line feed inside and no carriage return to trim. */
  predicate OneLine(s: Bytes) {
    RETURN !in s && NEWLINE !in s
  }

  /** One line, and for an error room for the code that the client cuts off. */
  predicate WellFormed(r: Reply) {
    match r
    case Status(s) => OneLine(s)
    case Error(s) => OneLine(s) && |s| >= 4
    case _ => true
  }

  function OrMissing(v: Option<Bytes>): Bytes {
    if v == None then MISSING_VALUE else v.value
  }

  function AllOrMissing(vs: seq<Option<Bytes>>): (r: seq<Bytes>)
    ensures |r| == |vs|
  {
    if vs == [] then [] else [OrMissing(vs[0])] + AllOrMissing(vs[1..])
  }

  /** What the client stores for a reply. */
  function ClientView(r: Reply): ReplyData {
    match r
    case Status(s) => StatusData(s)
    case Error(s) => ErrorData(if |s| >= 4 then s[4..] else [])
    case Number(n) => IntData(ToInt32(n))
    case Bulk(v) => BulkData(OrMissing(v))
    case Multi(vs) => MultiData(AllOrMissing(vs))
  }
}
