/**
 * A blocking socket that hands over a byte stream in pieces of any size, and the loops that read
 * and write through it. Every contract is about the stream alone: no schedule shows in a result.
 */
module Wire {
  import opened Text
  import opened Decimal
  import opened Resp
  import opened Framing

  function Min(a: int, b: int): int {
    if a < b then a else b
  }

  /** The call returned what the decoder gives, and left the rest unread; or threw when it says so. */
  ghost predicate Agrees<T>(d: Decoded<T>, r: Option<T>, left: Bytes) {
    match d
    case Thrown => r == None
    case Got(value, rest) => r == Some(value) && left == rest
  }

  /** After a call that may have met an error of the connection, which it passes on as an exception. */
  ghost predicate Received<T>(failed: bool, d: Decoded<T>, r: Option<T>, left: Bytes) {
    if failed then r == None else Agrees(d, r, left)
  }

  // ----- further line replies -----

  /** recv_single_line_reply_; a line that starts with "-ERR " is one of those that do not start with a plus. */
  function ReadStatus(s: Bytes): Decoded<Bytes> {
    match ReadLine(s)
    case Thrown => Thrown
    case Got(line, rest) => if line == [] || line[0] != PLUS then Thrown else Got(line[1..], rest)
  }

  function Elements(vs: seq<Bytes>): set<Bytes> {
    set v | v in vs
  }

  /** recv_multi_bulk_reply_ into a set: a count below -1 is returned as it is and reads nothing. */
  function ReadSet(s: Bytes, out: set<Bytes>): Decoded<(int, set<Bytes>)> {
    match ReadNumber(s, STAR)
    case Thrown => Thrown
    case Got(n, rest) =>
      if n == -1 then Thrown
      else if n < 0 then Got((n, out), rest)
      else
        match ReadBulks(rest, n)
        case Thrown => Thrown
        case Got(vs, rest') => Got((n, out + Elements(vs)), rest')
  }

  /** A count of -1 is an exception for a set; a smaller one is returned as it is, and nothing is read. */
  lemma NegativeSetCount(n: int, out: set<Bytes>, rest: Bytes)
    requires n < 0
    ensures ReadSet([STAR] + PrintInt(n) + CRLF + rest, out) == if n == -1 then Thrown else Got((n, out), rest)
  {
    NumberRead(STAR, n, rest);
  }

  datatype ReplyType = StatusCodeReply | ErrorReply | IntReply | BulkReply | MultiBulkReply

  function TypeOf(prefix: byte): Option<ReplyType> {
    if prefix == PLUS then Some(StatusCodeReply)
    else if prefix == MINUS then Some(ErrorReply)
    else if prefix == COLON then Some(IntReply)
    else if prefix == DOLLAR then Some(BulkReply)
    else if prefix == STAR then Some(MultiBulkReply)
    else None
  }

  const BUFFER_SIZE := 64
  const MAX_SIZE := 2048

  /** What one system call meets: a signal, an error, or up to `n` bytes. */
  datatype Outcome = Interrupt | Failure | Chunk(n: nat)

  /** Signals do not go on forever. */
  ghost predicate Settles(plan: nat -> Outcome) {
    forall k: nat :: SettlesFrom(plan, k)
  }

  ghost predicate SettlesFrom(plan: nat -> Outcome, k: nat) {
    exists j: nat :: j >= k && !plan(j).Interrupt?
  }

  ghost predicate NoFailure(plan: nat -> Outcome) {
    forall k: nat :: !plan(k).Failure?
  }

  /**
   * The receiving end. `plan` is the adversary: it chooses what each system call meets. A consuming
   * call right after a peek gets all it asks for when it asks for no more than was seen.
   */
  class Socket {
    var incoming: Bytes
    var peeked: nat
    var calls: nat
    var failed: bool
    const plan: nat -> Outcome

    /** A failure is one of the plan's. */
    ghost predicate Valid()
      reads this
    {
      Settles(plan) && (failed ==> !NoFailure(plan))
    }

    constructor (stream: Bytes, plan: nat -> Outcome)
      requires Settles(plan)
      ensures Valid() && !failed && incoming == stream && this.plan == plan
    {
      incoming, peeked, calls, failed, this.plan := stream, 0, 0, false, plan;
    }

    /** One `recv` or `read`: -1 for a signal or an error, 0 at the end of the stream. */
    method Take(n: nat, peek: bool) returns (got: int, chunk: Bytes)
      requires n > 0
      modifies this`incoming, this`peeked, this`calls
      ensures calls == old(calls) + 1
      ensures !plan(old(calls)).Chunk? ==>
              got == -1 && chunk == [] && incoming == old(incoming) && peeked == old(peeked)
      ensures plan(old(calls)).Chunk? ==> got == |chunk| <= |old(incoming)| && chunk == old(incoming)[..|chunk|]
      ensures plan(old(calls)).Chunk? ==> (got == 0 <==> old(incoming) == []) && got <= n
      ensures plan(old(calls)).Chunk? && peek ==> incoming == old(incoming) && peeked == |chunk|
      ensures plan(old(calls)).Chunk? && !peek ==> incoming == old(incoming)[|chunk|..]
      ensures plan(old(calls)).Chunk? && !peek && n <= old(peeked) <= |old(incoming)| ==> got == n
    {
      var outcome := plan(calls);
      calls := calls + 1;
      if !outcome.Chunk? {
        return -1, [];
      }
      var room := Min(n, |incoming|);
      var k := if outcome.n < 1 then Min(1, room) else Min(outcome.n, room);
      if !peek && n <= peeked <= |incoming| {
        k := n;
      }
      got, chunk := k, incoming[..k];
      peeked := if peek then k else 0;
      incoming := if peek then incoming else incoming[k..];
    }

    /** recv_or_throw; None is the exception for a closed connection or an error. */
    method Recv(n: nat, peek: bool) returns (chunk: Option<Bytes>)
      requires n > 0 && Valid() && !failed
      modifies this
      ensures Valid()
      ensures chunk == None <==> failed || old(incoming) == []
      ensures chunk == None ==> incoming == old(incoming)
      ensures chunk.Some? ==> 1 <= |chunk.value| <= n && |chunk.value| <= |old(incoming)|
      ensures chunk.Some? ==> chunk.value == old(incoming)[..|chunk.value|]
      ensures chunk.Some? && peek ==> incoming == old(incoming) && peeked == |chunk.value|
      ensures chunk.Some? && !peek ==> incoming == old(incoming)[|chunk.value|..]
      ensures chunk.Some? && !peek && n <= old(peeked) <= |old(incoming)| ==> |chunk.value| == n
    {
      assert SettlesFrom(plan, calls);
      ghost var last: nat :| last >= calls && !plan(last).Interrupt?;
      var got, bytes := Take(n, peek);
      while got < 0 && plan(calls - 1).Interrupt?
        invariant old(calls) < calls <= last + 1
        invariant !plan(calls - 1).Chunk? ==> got == -1 && incoming == old(incoming) && peeked == old(peeked)
        invariant plan(calls - 1).Chunk? ==> TookFrom(old(incoming), incoming, got, bytes, n, peek)
        invariant plan(calls - 1).Chunk? && peek ==> peeked == |bytes|
        invariant plan(calls - 1).Chunk? && !peek && n <= old(peeked) <= |old(incoming)| ==> got == n
        invariant Valid() && !failed
        decreases last + 1 - calls
      {
        got, bytes := Take(n, peek);
      }
      if got == 0 {
        return None;
      }
      if got == -1 {
        failed := true;
        return None;
      }
      chunk := Some(bytes);
    }

    /** read_line. The count that should stop it after MAX_SIZE bytes is never advanced. */
    method ReadLine() returns (r: Option<Bytes>)
      requires Valid() && !failed
      modifies this
      ensures Valid() && Received(failed, Resp.ReadLine(old(incoming)), r, incoming)
    {
      ghost var stream := incoming;
      ghost var n := EndOfLine(stream);
      var oss: Bytes := [];
      var totalBytesRead, foundDelimiter := 0, false;
      while totalBytesRead < MAX_SIZE && !foundDelimiter
        invariant Valid() && !failed && totalBytesRead == 0
        invariant oss + incoming == stream
        invariant foundDelimiter ==> n < |stream| && |oss| == n + 1
        invariant !foundDelimiter ==> |oss| <= n
        decreases |incoming|, !foundDelimiter
      {
        var seen := Recv(BUFFER_SIZE, true);
        if seen == None {
          return None;
        }
        var buffer := seen.value;
        LineEndInChunk(stream, oss, buffer, incoming);
        var eol := EndOfLine(buffer);
        var toRead := if eol < |buffer| then eol + 1 else |buffer|;
        var taken := Recv(toRead, false);
        if taken == None {
          return None;
        }
        MoveOver(oss, stream, buffer, toRead, incoming);
        oss := oss + buffer[..toRead];
        foundDelimiter := eol < |buffer|;
      }
      assert stream[..n + 1] == oss && stream[n + 1..] == incoming;
      r := Some(TrimEnd(oss));
    }

    /** read_n. */
    method ReadN(n: int) returns (r: Option<Bytes>)
      requires Valid() && !failed
      modifies this
      ensures Valid() && (failed ==> r == None)
      ensures !failed ==> (r == None <==> n < 0 || |old(incoming)| < n)
      ensures r.Some? ==> r.value == old(incoming)[..n] && incoming == old(incoming)[n..]
    {
      if n < 0 {
        return None;
      }
      var buffer: Bytes := [];
      while |buffer| != n
        invariant Valid() && !failed
        invariant |buffer| <= n && buffer + incoming == old(incoming)
        decreases n - |buffer|
      {
        var chunk := Recv(n - |buffer|, false);
        if chunk == None {
          return None;
        }
        buffer := buffer + chunk.value;
      }
      r := Some(buffer);
    }

    /** anetRead: -1 exactly when the last call met a signal or an error, else short only at the end of the stream. */
    method AnetRead(count: nat) returns (n: int, buf: Bytes)
      modifies this`incoming, this`peeked, this`calls
      ensures old(incoming) == buf + incoming && |buf| <= count
      ensures n == -1 <==> old(calls) < calls && !plan(calls - 1).Chunk?
      ensures n != -1 ==> n == |buf| == Min(count, |old(incoming)|)
    {
      buf := [];
      while |buf| != count
        invariant |buf| <= count && buf + incoming == old(incoming) && old(calls) <= calls
        invariant old(calls) < calls ==> plan(calls - 1).Chunk?
        decreases count - |buf|
      {
        var nread, chunk := Take(count - |buf|, false);
        if nread == 0 {
          return |buf|, buf;
        }
        if nread == -1 {
          return -1, buf;
        }
        buf := buf + chunk;
      }
      n := |buf|;
    }

    /** recv_bulk_reply_ with a prefix, and recv_int_reply_ with a colon. */
    method RecvNumber(prefix: byte) returns (r: Option<int>)
      requires Valid() && !failed
      modifies this
      ensures Valid() && Received(failed, ReadNumber(old(incoming), prefix), r, incoming)
    {
      var line := ReadLine();
      if line == None || line.value == [] || line.value[0] != prefix {
        return None;
      }
      r := LexInt(line.value[1..]);
    }

    method RecvStatus() returns (r: Option<Bytes>)
      requires Valid() && !failed
      modifies this
      ensures Valid() && Received(failed, ReadStatus(old(incoming)), r, incoming)
    {
      var line := ReadLine();
      if line == None || line.value == [] || line.value[0] != PLUS {
        return None;
      }
      r := Some(line.value[1..]);
    }

    method RecvBulk() returns (r: Option<Bytes>)
      requires Valid() && !failed
      modifies this
      ensures Valid() && Received(failed, ReadBulk(old(incoming)), r, incoming)
    {
      var length := RecvNumber(DOLLAR);
      if length == None {
        return None;
      }
      if length.value == -1 {
        return Some(MISSING_VALUE);
      }
      var realLength := length.value + 2;
      ghost var rest := incoming;
      var data := ReadN(realLength);
      if data == None || data.value == [] {
        return None;
      }
      assert data.value[..|data.value| - 2] == rest[..length.value];
      r := Some(data.value[..|data.value| - 2]);
    }

    method RecvBulks(n: nat) returns (r: Option<seq<Bytes>>)
      requires Valid() && !failed
      modifies this
      ensures Valid() && Received(failed, ReadBulks(old(incoming), n), r, incoming)
    {
      ghost var stream := incoming;
      var out: seq<Bytes> := [];
      for i := 0 to n
        invariant Valid() && !failed && |out| == i
        invariant Chain(ReadBulk, stream, out, incoming)
      {
        ghost var before := incoming;
        var v := RecvBulk();
        if v == None {
          ChainBreaks(stream, n, out, before);
          return None;
        }
        ChainSnoc(ReadBulk, stream, out, before, v.value, incoming);
        out := out + [v.value];
      }
      BulksAreChain(stream, n, out, incoming);
      r := Some(out);
    }

    method RecvMulti() returns (r: Option<seq<Bytes>>)
      requires Valid() && !failed
      modifies this
      ensures Valid() && Received(failed, ReadMulti(old(incoming)), r, incoming)
    {
      var length := RecvNumber(STAR);
      if length == None || length.value < 0 {
        return None;
      }
      r := RecvBulks(length.value);
    }

    method RecvSet(out: set<Bytes>) returns (r: Option<(int, set<Bytes>)>)
      requires Valid() && !failed
      modifies this
      ensures Valid() && Received(failed, ReadSet(old(incoming), out), r, incoming)
    {
      var length := RecvNumber(STAR);
      if length == None || length.value == -1 {
        return None;
      }
      if length.value < 0 {
        return Some((length.value, out));
      }
      var vs := RecvBulks(length.value);
      if vs == None {
        return None;
      }
      r := Some((length.value, out + Elements(vs.value)));
    }

    method NextReplyType() returns (r: Option<ReplyType>)
      requires Valid() && !failed
      modifies this
      ensures Valid() && incoming == old(incoming)
      ensures r == if failed || incoming == [] then None else TypeOf(incoming[0])
    {
      var c := Recv(1, true);
      if c == None {
        return None;
      }
      r := TypeOf(c.value[0]);
    }

    /** recv_generic_reply_. */
    method RecvGenericReply() returns (r: Option<ReplyData>)
      requires Valid() && !failed
      modifies this
      ensures Valid() && Received(failed, ReadReply(old(incoming)), r, incoming)
    {
      r := None;
      var kind := NextReplyType();
      match kind
      case None =>
      case Some(StatusCodeReply) =>
        var line := ReadLine();
        if line.Some? && line.value != [] {
          r := Some(StatusData(line.value[1..]));
        }
      case Some(ErrorReply) =>
        var line := ReadLine();
        if line.Some? && |line.value| >= 5 {
          r := Some(ErrorData(line.value[5..]));
        }
      case Some(IntReply) =>
        var n := RecvNumber(COLON);
        if n.Some? {
          r := Some(IntData(ToInt32(n.value)));
        }
      case Some(BulkReply) =>
        var v := RecvBulk();
        if v.Some? {
          r := Some(BulkData(v.value));
        }
      case Some(MultiBulkReply) =>
        var vs := RecvMulti();
        if vs.Some? {
          r := Some(MultiData(vs.value));
        }
    }
  }

  /** Where the line ends, seen from a chunk behind the bytes already read. */
  lemma NoFeedYet(stream: Bytes, read: nat, chunk: Bytes, e: nat)
    requires read + |chunk| <= |stream| && chunk == stream[read..read + |chunk|] && e <= |chunk|
    requires (forall k :: 0 <= k < read ==> stream[k] != NEWLINE) && (forall k :: 0 <= k < e ==> chunk[k] != NEWLINE)
    ensures forall k :: 0 <= k < read + e ==> stream[k] != NEWLINE
  {
    forall k | 0 <= k < read + e ensures stream[k] != NEWLINE {
      if k >= read {
        assert stream[k] == chunk[k - read];
      }
    }
  }

  lemma NoFeedUpTo(s: Bytes, n: nat)
    requires n <= |s| && forall k :: 0 <= k < n ==> s[k] != NEWLINE
    ensures n <= EndOfLine(s)
  {
    var i := EndOfLine(s);
    assert i < |s| ==> s[i] == NEWLINE;
  }

  lemma LineEndInChunk(stream: Bytes, read: Bytes, chunk: Bytes, left: Bytes)
    requires stream == read + left && |read| <= EndOfLine(stream)
    requires |chunk| <= |left| && chunk == left[..|chunk|]
    ensures EndOfLine(chunk) < |chunk| ==> EndOfLine(stream) == |read| + EndOfLine(chunk) < |stream|
    ensures EndOfLine(chunk) == |chunk| ==> |read| + |chunk| <= EndOfLine(stream)
  {
    var e := EndOfLine(chunk);
    NoFeedBefore(stream);
    NoFeedBefore(chunk);
    NoFeedYet(stream, |read|, chunk, e);
    NoFeedUpTo(stream, |read| + e);
    if e < |chunk| {
      assert stream[|read| + e] == chunk[e];
      EndOfLineAt(stream, |read| + e);
    }
  }

  /** What one successful call took from the stream. */
  ghost predicate TookFrom(stream: Bytes, left: Bytes, got: int, chunk: Bytes, n: nat, peek: bool) {
    && got == |chunk| <= |stream| && chunk == stream[..|chunk|] && got <= n
    && (got == 0 <==> stream == [])
    && left == if peek then stream else stream[|chunk|..]
  }

  lemma MoveOver(read: Bytes, stream: Bytes, chunk: Bytes, n: nat, left: Bytes)
    requires |read| <= |stream| && read == stream[..|read|] && n <= |chunk| <= |stream| - |read|
    requires chunk == stream[|read|..][..|chunk|] && left == stream[|read|..][n..]
    ensures read + chunk[..n] + left == stream
  {
    assert chunk[..n] == stream[|read|..][..n];
    assert stream == read + stream[|read|..];
    assert stream[|read|..] == chunk[..n] + left;
  }

  /** For every schedule without a failure, a reply is decoded from the stream as if it had arrived in one piece. */
  method DecodeReply(stream: Bytes, plan: nat -> Outcome) returns (r: Option<ReplyData>, left: Bytes)
    requires Settles(plan)
    ensures NoFailure(plan) ==> Agrees(ReadReply(stream), r, left)
    ensures r.Some? ==> Agrees(ReadReply(stream), r, left)
  {
    var socket := new Socket(stream, plan);
    r := socket.RecvGenericReply();
    left := socket.incoming;
  }

  // ----- writing -----

  ghost predicate AlwaysProgress(plan: nat -> int) {
    forall k: nat :: plan(k) > 0
  }

  /** How many bytes the write loop delivers from call `k` on, and what it returns on top of `done`. */
  function Written(plan: nat -> int, k: nat, left: nat, done: nat): (r: (nat, int))
    ensures r.0 <= left && (r.1 == done + r.0 || r.1 == -1)
    decreases left
  {
    if left == 0 || plan(k) == 0 then (0, done)
    else if plan(k) < 0 then (0, -1)
    else
      var w := Min(plan(k), left);
      var (more, result) := Written(plan, k + 1, left - w, done + w);
      (w + more, result)
  }

  function OnTop(n: nat, r: (nat, int)): (nat, int) {
    (n + r.0, r.1)
  }

  /** One call of `write` that returns `w`, in the middle of the loop. */
  lemma WrittenStep(plan: nat -> int, k: nat, left: nat, done: nat, w: int)
    requires left > 0 && w == if plan(k) < 0 then -1 else Min(plan(k), left)
    ensures var all := OnTop(done, Written(plan, k, left, done));
            if w == 0 then all == (done, done)
            else if w == -1 then all == (done, -1)
            else 0 < w <= left && all == OnTop(done + w, Written(plan, k + 1, left - w, done + w))
  {}

  lemma TakeMore(start: Bytes, buf: Bytes, i: nat, n: nat)
    requires i + n <= |buf|
    ensures start + buf[..i] + buf[i..][..n] == start + buf[..i + n]
  {
    assert buf[..i + n] == buf[..i] + buf[i..][..n];
    Assoc(start, buf[..i], buf[i..][..n]);
  }

  /** The sending end: `plan` is what each `write` returns, at most the bytes offered. */
  class Outlet {
    var delivered: Bytes
    var calls: nat
    const plan: nat -> int

    constructor (plan: nat -> int)
      ensures delivered == [] && calls == 0 && this.plan == plan
    {
      delivered, calls, this.plan := [], 0, plan;
    }

    method Write(buf: Bytes) returns (n: int)
      modifies this
      ensures calls == old(calls) + 1
      ensures n == if plan(old(calls)) < 0 then -1 else Min(plan(old(calls)), |buf|)
      ensures delivered == old(delivered) + if n < 0 then [] else buf[..n]
    {
      n := if plan(calls) < 0 then -1 else Min(plan(calls), |buf|);
      delivered := delivered + if n < 0 then [] else buf[..n];
      calls := calls + 1;
    }

    /** anetWrite. */
    method AnetWrite(buf: Bytes) returns (result: int)
      modifies this
      ensures result == Written(plan, old(calls), |buf|, 0).1
      ensures delivered == old(delivered) + buf[..Written(plan, old(calls), |buf|, 0).0]
    {
      ghost var start, first := delivered, calls;
      ghost var left := |buf|;
      var totlen := 0;
      while totlen != |buf|
        invariant totlen <= |buf| && delivered == start + buf[..totlen]
        invariant left == |buf| - totlen
        invariant OnTop(totlen, Written(plan, calls, left, totlen)) == Written(plan, first, |buf|, 0)
        decreases |buf| - totlen
      {
        ghost var k := calls;
        var nwritten := Write(buf[totlen..]);
        WrittenStep(plan, k, left, totlen, nwritten);
        if nwritten == 0 {
          return totlen;
        }
        if nwritten == -1 {
          return -1;
        }
        TakeMore(start, buf, totlen, nwritten);
        left := left - nwritten;
        totlen := totlen + nwritten;
      }
      result := totlen;
    }
  }

  /** Under positive writes of any size the whole buffer is delivered. */
  lemma {:induction false} ProgressDelivers(plan: nat -> int, k: nat, left: nat, done: nat)
    requires AlwaysProgress(plan)
    ensures Written(plan, k, left, done) == (left, done + left)
    decreases left
  {
    if left > 0 {
      var w := Min(plan(k), left);
      ProgressDelivers(plan, k + 1, left - w, done + w);
    }
  }

  /** The full count is returned exactly when everything was delivered. */
  lemma {:induction false} FullCount(plan: nat -> int, k: nat, left: nat, done: nat)
    ensures Written(plan, k, left, done).1 == done + left <==> Written(plan, k, left, done).0 == left
    decreases left
  {
    if left > 0 && plan(k) > 0 {
      var w := Min(plan(k), left);
      FullCount(plan, k + 1, left - w, done + w);
    }
  }

  /** Some call before the last byte fails, and none before it writes nothing. */
  predicate FailsEarly(plan: nat -> int, k: nat, left: nat)
    decreases left
  {
    left > 0 && (plan(k) < 0 || (plan(k) > 0 && FailsEarly(plan, k + 1, left - Min(plan(k), left))))
  }

  /** -1 is returned exactly when a failing write comes before a write of nothing and before the end of the message. */
  lemma {:induction false} FailsExactly(plan: nat -> int, k: nat, left: nat, done: nat)
    ensures Written(plan, k, left, done).1 == -1 <==> FailsEarly(plan, k, left)
    decreases left
  {
    if left > 0 && plan(k) > 0 {
      var w := Min(plan(k), left);
      FailsExactly(plan, k + 1, left - w, done + w);
    }
  }

  /** Some call before the last byte writes nothing, and none before it fails. */
  predicate HaltsEarly(plan: nat -> int, k: nat, left: nat)
    decreases left
  {
    left > 0 && (plan(k) == 0 || (plan(k) > 0 && HaltsEarly(plan, k + 1, left - Min(plan(k), left))))
  }

  /**
   * `send_` only looks for -1, so it returns normally without having delivered its message: exactly
   * when a write of nothing comes before a failing one and before the end of the message.
   */
  lemma {:induction false} LosesSilently(plan: nat -> int, k: nat, left: nat, done: nat)
    ensures Written(plan, k, left, done).1 != -1 && Written(plan, k, left, done).0 < left <==> HaltsEarly(plan, k, left)
    decreases left
  {
    if left > 0 && plan(k) > 0 {
      var w := Min(plan(k), left);
      LosesSilently(plan, k + 1, left - w, done + w);
    }
  }

  lemma SilentLoss(plan: nat -> int, msg: Bytes)
    requires plan(0) == 0 && msg != []
    ensures Written(plan, 0, |msg|, 0).1 != -1 && Written(plan, 0, |msg|, 0).0 < |msg|
  {
    LosesSilently(plan, 0, |msg|, 0);
  }

  /**
   * Commands written through partial writes of any positive size and received in pieces of any size
   * come out as the argument lists that went in, in order.
   */
  method Transfer(cmds: seq<seq<Bytes>>, writes: nat -> int, arrivals: nat -> Outcome) returns (got: seq<seq<Bytes>>)
    requires AlwaysProgress(writes) && Settles(arrivals) && NoFailure(arrivals)
    ensures got == cmds
  {
    var text := EncodeCommands(cmds);
    var outlet := new Outlet(writes);
    ProgressDelivers(writes, 0, |text|, 0);
    var n := outlet.AnetWrite(text);
    assert [] + text[..|text|] == text;
    var socket := new Socket(outlet.delivered, arrivals);
    got := [];
    assert cmds[0..] == cmds;
    for i := 0 to |cmds|
      invariant socket.incoming == EncodeCommands(cmds[i..])
      invariant fresh(socket) && socket.Valid() && !socket.failed && got == cmds[..i]
    {
      assert cmds[i..][1..] == cmds[i + 1..];
      CommandRead(cmds[i], EncodeCommands(cmds[i + 1..]));
      var args := socket.RecvMulti();
      TakeNext(cmds, i);
      got := got + [args.value];
    }
  }
}
