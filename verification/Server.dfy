/**
 * A server as the client sees it: a FIFO state machine over a store. It decodes whatever bytes have
 * arrived, answers each complete command in turn, and keeps an unfinished command for later.
 */
module Server {
  import opened Text
  import opened Decimal
  import opened Resp
  import opened Framing
  import opened Wire

  type Command = seq<Bytes>

  datatype Item = Str(s: Bytes) | Members(vs: set<Bytes>) | Else(content: Bytes)

  type Store = map<Bytes, Item>

  const MULTI: Bytes := [77, 85, 76, 84, 73]
  const EXEC: Bytes := [69, 88, 69, 67]
  const MGET: Bytes := [77, 71, 69, 84]
  const MSET: Bytes := [77, 83, 69, 84]
  const EXPIRE: Bytes := [69, 88, 80, 73, 82, 69]
  const SINTER: Bytes := [83, 73, 78, 84, 69, 82]
  const SUNION: Bytes := [83, 85, 78, 73, 79, 78]
  const OK: Bytes := [79, 75]
  const QUEUED: Bytes := [81, 85, 69, 85, 69, 68]

  lemma NamesSpelled()
    ensures MULTI == Spell("MULTI") && EXEC == Spell("EXEC") && MGET == Spell("MGET") && MSET == Spell("MSET")
    ensures EXPIRE == Spell("EXPIRE") && SINTER == Spell("SINTER") && SUNION == Spell("SUNION")
    ensures OK == Spell("OK") && QUEUED == Spell("QUEUED")
  {}

  /**
   * What is left open about servers: every further command, the order in which sets are listed, which
   * commands are refused when they are queued, and the text of a refusal.
   */
  datatype Env = Env(
    other: (Store, Command) -> (Store, Reply), listing: set<Bytes> -> seq<Bytes>,
    accepts: Command -> bool, refusal: Command -> Bytes)
  {
    ghost predicate Good() {
      && (forall store, cmd :: WellFormed(other(store, cmd).1))
      && (forall vs :: Elements(listing(vs)) == vs && |listing(vs)| == |vs|)
      && (forall cmd :: WellFormed(Error(refusal(cmd))))
    }
  }

  // ----- commands -----

  function ValueAt(store: Store, key: Bytes): Option<Bytes> {
    if key in store && store[key].Str? then Some(store[key].s) else None
  }

  function ValuesAt(store: Store, keys: seq<Bytes>): (vs: seq<Option<Bytes>>)
    ensures |vs| == |keys|
  {
    if keys == [] then [] else [ValueAt(store, keys[0])] + ValuesAt(store, keys[1..])
  }

  /** A list of alternating keys and values, stored from the front. */
  function SetAll(store: Store, args: seq<Bytes>): Store
    requires |args| % 2 == 0
    decreases |args|
  {
    if args == [] then store else SetAll(store[args[0] := Str(args[1])], args[2..])
  }

  predicate NamesSets(store: Store, keys: seq<Bytes>) {
    forall k :: k in keys && k in store ==> store[k].Members?
  }

  function MembersAt(store: Store, key: Bytes): set<Bytes> {
    if key in store && store[key].Members? then store[key].vs else {}
  }

  /** What a key holds for GET and for the set commands: nothing, a string, a set, or neither. */
  lemma HeldAs(store: Store, key: Bytes)
    ensures key !in store ==> ValueAt(store, key) == None && MembersAt(store, key) == {} && NamesSets(store, [key])
    ensures forall s :: key in store && store[key] == Str(s) ==>
                          ValueAt(store, key) == Some(s) && !NamesSets(store, [key])
    ensures forall vs :: key in store && store[key] == Members(vs) ==>
                           MembersAt(store, key) == vs && ValueAt(store, key) == None && NamesSets(store, [key])
  {
    assert key in [key];
  }

  function Union(store: Store, keys: seq<Bytes>): set<Bytes> {
    if keys == [] then {} else MembersAt(store, keys[0]) + Union(store, keys[1..])
  }

  function Intersection(store: Store, keys: seq<Bytes>): set<Bytes>
    requires keys != []
  {
    if |keys| == 1 then MembersAt(store, keys[0])
    else MembersAt(store, keys[0]) * Intersection(store, keys[1..])
  }

  /** A set is listed; a key of another type makes the command fail. */
  function SetAnswer(env: Env, cmd: Command, ok: bool, vs: set<Bytes>): Reply {
    if ok then Multi(Somes(env.listing(vs))) else Error(env.refusal(cmd))
  }

  function Execute(env: Env, store: Store, cmd: Command): (Store, Reply) {
    if |cmd| < 2 then env.other(store, cmd)
    else if cmd[0] == MGET then (store, Multi(ValuesAt(store, cmd[1..])))
    else if cmd[0] == MSET && |cmd| % 2 == 1 then (SetAll(store, cmd[1..]), Status(OK))
    else if cmd[0] == SINTER then
      (store, SetAnswer(env, cmd, NamesSets(store, cmd[1..]), Intersection(store, cmd[1..])))
    else if cmd[0] == SUNION then
      (store, SetAnswer(env, cmd, NamesSets(store, cmd[1..]), Union(store, cmd[1..])))
    else env.other(store, cmd)
  }

  // ----- one server -----

  /** The store, and the commands queued since MULTI. */
  datatype Db = Db(store: Store, queue: Option<seq<Command>>)

  /** The answer to any command but the EXEC that ends a transaction. */
  function Answer(env: Env, db: Db, cmd: Command): (Db, Reply) {
    if db.queue.Some? then
      if env.accepts(cmd) then (db.(queue := Some(db.queue.value + [cmd])), Status(QUEUED))
      else (db, Error(env.refusal(cmd)))
    else if cmd == [MULTI] then (db.(queue := Some([])), Status(OK))
    else
      var (store, r) := Execute(env, db.store, cmd);
      (Db(store, None), r)
  }

  /** Commands answered one after another. */
  function RunAll(env: Env, db: Db, cmds: seq<Command>): (r: (Db, seq<Reply>))
    ensures |r.1| == |cmds|
    decreases |cmds|
  {
    if cmds == [] then (db, [])
    else
      var (next, r) := Answer(env, db, cmds[0]);
      var (last, rs) := RunAll(env, next, cmds[1..]);
      (last, [r] + rs)
  }

  /** Running commands is running some of them and then the others. */
  lemma {:induction false} RunConcat(env: Env, db: Db, a: seq<Command>, b: seq<Command>)
    ensures var (mid, rs) := RunAll(env, db, a);
            var (last, more) := RunAll(env, mid, b);
            RunAll(env, db, a + b) == (last, rs + more)
    decreases |a|
  {
    if a == [] {
      assert a + b == b;
      assert [] + RunAll(env, db, b).1 == RunAll(env, db, b).1;
    } else {
      var (next, r) := Answer(env, db, a[0]);
      assert (a + b)[1..] == a[1..] + b;
      RunConcat(env, next, a[1..], b);
      var (mid, rs) := RunAll(env, next, a[1..]);
      Assoc([r], rs, RunAll(env, mid, b).1);
    }
  }

  function EncodeReplies(rs: seq<Reply>): Bytes {
    if rs == [] then [] else EncodeReply(rs[0]) + EncodeReplies(rs[1..])
  }

  function ArrayHeader(n: nat): Bytes {
    [STAR] + PrintNat(n) + CRLF
  }

  /** What a command does to the server and the bytes it sends back. */
  function Serve(env: Env, db: Db, cmd: Command): (Db, Bytes) {
    if db.queue.Some? && cmd == [EXEC] then
      var (last, rs) := RunAll(env, Db(db.store, None), db.queue.value);
      (last, ArrayHeader(|rs|) + EncodeReplies(rs))
    else
      var (next, r) := Answer(env, db, cmd);
      (next, EncodeReply(r))
  }

  // ----- one connection -----

  /** A server, the bytes it has not decoded yet, and the bytes the client has not read yet. */
  datatype Link = Link(db: Db, pending: Bytes, unread: Bytes)

  /** Serves every complete command among the pending bytes. */
  function Drain(env: Env, l: Link): Link
    decreases |l.pending|
  {
    match ReadMulti(l.pending)
    case Thrown => l
    case Got(cmd, rest) =>
      var (db, out) := Serve(env, l.db, cmd);
      Drain(env, Link(db, rest, l.unread + out))
  }

  function Feed(env: Env, l: Link, bytes: Bytes): Link {
    Drain(env, l.(pending := l.pending + bytes))
  }

  lemma {:induction false} DrainThenMore(env: Env, l: Link, more: Bytes)
    ensures Drain(env, l.(pending := l.pending + more)) == Feed(env, Drain(env, l), more)
    decreases |l.pending|
  {
    MultiStable(l.pending, more);
    match ReadMulti(l.pending)
    case Thrown =>
    case Got(cmd, rest) =>
      var (db, out) := Serve(env, l.db, cmd);
      DrainThenMore(env, Link(db, rest, l.unread + out), more);
  }

  /** In how many pieces a message arrives makes no difference to the server. */
  lemma FeedInPieces(env: Env, l: Link, a: Bytes, b: Bytes)
    ensures Feed(env, Feed(env, l, a), b) == Feed(env, l, a + b)
  {
    DrainThenMore(env, l.(pending := l.pending + a), b);
    Assoc(l.pending, a, b);
  }

  /** A whole command in front is served, and the rest after it. */
  lemma DrainCommand(env: Env, l: Link, cmd: Command, rest: Bytes)
    requires l.pending == EncodeCommand(cmd) + rest
    ensures Drain(env, l) == Drain(env, Link(Serve(env, l.db, cmd).0, rest, l.unread + Serve(env, l.db, cmd).1))
  {
    CommandRead(cmd, rest);
  }

  lemma DrainNothing(env: Env, l: Link)
    requires l.pending == []
    ensures Drain(env, l) == l
  {
    assert ReadMulti([]) == Thrown;
  }

  predicate NoExec(cmds: seq<Command>) {
    forall k :: 0 <= k < |cmds| ==> cmds[k] != [EXEC]
  }

  /** A batch of commands is answered in order: first in, first out. */
  lemma {:induction false} DrainBatch(env: Env, db: Db, cmds: seq<Command>, tail: Bytes, unread: Bytes)
    requires NoExec(cmds)
    ensures Drain(env, Link(db, EncodeCommands(cmds) + tail, unread)) ==
            Drain(env, Link(RunAll(env, db, cmds).0, tail, unread + EncodeReplies(RunAll(env, db, cmds).1)))
    decreases cmds
  {
    if cmds == [] {
      assert EncodeCommands(cmds) + tail == tail;
      assert unread + EncodeReplies([]) == unread;
    } else {
      var (next, r) := Answer(env, db, cmds[0]);
      var rs := RunAll(env, next, cmds[1..]).1;
      Assoc(EncodeCommand(cmds[0]), EncodeCommands(cmds[1..]), tail);
      DrainCommand(env, Link(db, EncodeCommands(cmds) + tail, unread), cmds[0], EncodeCommands(cmds[1..]) + tail);
      DrainBatch(env, next, cmds[1..], tail, unread + EncodeReply(r));
      RepliesCons(unread, r, rs);
    }
  }

  lemma RepliesCons(unread: Bytes, r: Reply, rs: seq<Reply>)
    ensures unread + EncodeReplies([r] + rs) == unread + EncodeReply(r) + EncodeReplies(rs)
  {
    assert ([r] + rs)[1..] == rs;
    Assoc(unread, EncodeReply(r), EncodeReplies(rs));
  }

  /** What a batch leaves on an idle connection: the replies, in order, and nothing else. */
  function Served(env: Env, db: Db, cmds: seq<Command>): Link {
    Link(RunAll(env, db, cmds).0, [], EncodeReplies(RunAll(env, db, cmds).1))
  }

  lemma FeedBatch(env: Env, db: Db, cmds: seq<Command>)
    requires NoExec(cmds)
    ensures Feed(env, Link(db, [], []), EncodeCommands(cmds)) == Served(env, db, cmds)
  {
    var text := EncodeCommands(cmds);
    assert [] + text == text && text + [] == text;
    var replies := EncodeReplies(RunAll(env, db, cmds).1);
    assert [] + replies == replies;
    DrainBatch(env, db, cmds, [], []);
    DrainNothing(env, Served(env, db, cmds));
  }

  lemma AnswerWellFormed(env: Env, db: Db, cmd: Command)
    requires env.Good()
    ensures WellFormed(Answer(env, db, cmd).1)
  {
    if db.queue == None && cmd != [MULTI] {
      ExecuteWellFormed(env, db.store, cmd);
    }
  }

  lemma ExecuteWellFormed(env: Env, store: Store, cmd: Command)
    requires env.Good()
    ensures WellFormed(Execute(env, store, cmd).1)
  {}

  /** The first reply is read as the answer to the first command, and leaves the replies to the others. */
  lemma NextReply(env: Env, db: Db, cmds: seq<Command>)
    requires env.Good() && cmds != []
    ensures var (next, r) := Answer(env, db, cmds[0]);
            var rest := Served(env, next, cmds[1..]);
            ReadReply(Served(env, db, cmds).unread) == Got(ClientView(r), rest.unread)
            && Served(env, db, cmds) == rest.(unread := Served(env, db, cmds).unread)
  {
    var (next, r) := Answer(env, db, cmds[0]);
    AnswerWellFormed(env, db, cmds[0]);
    var rs := RunAll(env, next, cmds[1..]).1;
    assert ([r] + rs)[1..] == rs;
    ReplyRead(r, EncodeReplies(rs));
  }
}
