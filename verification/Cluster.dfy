/** The client over several connections: sending, receiving, pipelined commands and sharded operations. */
module Cluster {
  import opened Text
  import opened Resp
  import opened Framing
  import opened Wire
  import opened Server
  import opened Batches
  import opened Sharding

  /** Only what is unread on one connection has changed. */
  ghost predicate OnlyRead(before: Links, after: Links, s: int) {
    s in before && s in after && after == before[s := before[s].(unread := after[s].unread)]
  }

  /** No server is between MULTI and EXEC. */
  ghost predicate Ready(dbs: Dbs) {
    forall s :: s in dbs ==> dbs[s].queue == None
  }

  /** What one command leaves on an idle connection. */
  function Asked(env: Env, db: Db, cmd: Command): Link {
    Link(Answer(env, db, cmd).0, [], EncodeReply(Answer(env, db, cmd).1))
  }

  lemma RepliesOne(r: Reply)
    ensures EncodeReplies([r]) == EncodeReply(r)
  {
    var none: seq<Reply> := [];
    assert [r][1..] == none;
    assert EncodeReplies(none) == [];
    assert EncodeReply(r) + [] == EncodeReply(r);
  }

  lemma ServedOne(env: Env, db: Db, cmd: Command)
    ensures Served(env, db, [cmd]) == Asked(env, db, cmd)
  {
    var (next, r) := Answer(env, db, cmd);
    assert [cmd][1..] == [];
    assert RunAll(env, next, []) == (next, []);
    var none: seq<Reply> := [];
    assert [r] + none == [r];
    assert RunAll(env, db, [cmd]) == (next, [r]);
    RepliesOne(r);
  }

  lemma EncodeOne(cmd: Command)
    ensures EncodeCommands([cmd]) == EncodeCommand(cmd)
  {
    assert [cmd][1..] == [];
    assert EncodeCommand(cmd) + [] == EncodeCommand(cmd);
  }

  /** One command has gone to each socket of a group. */
  ghost predicate AskedOf(c: Config, links: Links, dbs: Dbs, name: Bytes, group: map<int, seq<Bytes>>) {
    Covers(c, links) && Covers(c, dbs)
    && forall s :: s in c.sockets ==>
         links[s] == if s in group then Asked(c.env, dbs[s], [name] + group[s]) else Link(dbs[s], [], [])
  }

  /** Replies collected from all but the sockets in `todo`. */
  ghost predicate Waiting(c: Config, links: Links, sent: Links, after: Dbs, todo: set<int>) {
    Covers(c, links) && Covers(c, sent) && Covers(c, after)
    && forall s :: s in c.sockets ==> links[s] == if s in todo then sent[s] else Link(after[s], [], [])
  }

  lemma WaitingNext(c: Config, links: Links, next: Links, sent: Links, after: Dbs, todo: set<int>, s: int)
    requires Waiting(c, links, sent, after, todo) && s in todo && s in c.sockets
    requires OnlyRead(links, next, s) && next[s].unread == []
    requires sent[s].db == after[s] && sent[s].pending == []
    ensures Waiting(c, next, sent, after, todo - {s})
  {}

  /** An OK and the replies `rs` if the socket was used; nothing, and nothing to wait for, otherwise. */
  ghost predicate Expected(link: Link, after: Db, rs: seq<Reply>, used: bool) {
    && link == Link(after, [], if used then EncodeReply(Status(OK)) + EncodeReplies(rs) else [])
    && (forall k :: 0 <= k < |rs| ==> WellFormed(rs[k]))
    && (!used ==> rs == [])
  }

  class Client {
    const config: Config
    var links: Links
    var calls: nat
    /** The adversaries: how each receiving and each sending call is cut into pieces. */
    const arrivals: nat -> (nat -> Outcome)
    const writes: nat -> (nat -> int)

    constructor (config: Config, links: Links, arrivals: nat -> (nat -> Outcome), writes: nat -> (nat -> int))
      ensures this.config == config && this.links == links && this.arrivals == arrivals && this.writes == writes
    {
      this.config, this.links, this.arrivals, this.writes, calls := config, links, arrivals, writes, 0;
    }

    /** Connections are up: writes never come to a halt, and receiving meets signals but no errors. */
    ghost predicate Up() {
      && config.Good()
      && (forall k: nat :: AlwaysProgress(writes(k)))
      && (forall k: nat :: Settles(arrivals(k)) && NoFailure(arrivals(k)))
    }

    ghost predicate Valid()
      reads this
    {
      Up() && Covers(config, links)
    }

    // ----- one socket -----

    /** send_: false is the exception for a failed write. */
    method Send(s: int, msg: Bytes) returns (ok: bool)
      requires Valid()
      modifies this
      ensures Valid()
      ensures ok <==> s in config.sockets
      ensures links == if ok then old(links)[s := Feed(config.env, old(links)[s], msg)] else old(links)
    {
      if s !in links {
        return false;
      }
      var outlet := new Outlet(writes(calls));
      ProgressDelivers(writes(calls), 0, |msg|, 0);
      var n := outlet.AnetWrite(msg);
      assert [] + msg[..|msg|] == msg;
      calls := calls + 1;
      links := links[s := Feed(config.env, links[s], outlet.delivered)];
      ok := n != -1;
    }

    /** A receiving socket over what is unread on a connection. */
    method Open(s: int) returns (socket: Socket)
      requires Valid() && s in config.sockets
      modifies this`calls
      ensures Valid() && fresh(socket) && socket.incoming == links[s].unread
      ensures socket.Valid() && !socket.failed && NoFailure(socket.plan)
    {
      socket := new Socket(links[s].unread, arrivals(calls));
      calls := calls + 1;
    }

    method RecvGenericReply(s: int) returns (r: Option<ReplyData>)
      requires Valid() && s in config.sockets
      modifies this
      ensures Valid() && OnlyRead(old(links), links, s)
      ensures Agrees(ReadReply(old(links)[s].unread), r, links[s].unread)
    {
      var socket := Open(s);
      r := socket.RecvGenericReply();
      links := links[s := links[s].(unread := socket.incoming)];
    }

    method RecvLine(s: int) returns (r: Option<Bytes>)
      requires Valid() && s in config.sockets
      modifies this
      ensures Valid() && OnlyRead(old(links), links, s)
      ensures Agrees(ReadLine(old(links)[s].unread), r, links[s].unread)
    {
      var socket := Open(s);
      r := socket.ReadLine();
      links := links[s := links[s].(unread := socket.incoming)];
    }

    method RecvStatus(s: int) returns (r: Option<Bytes>)
      requires Valid() && s in config.sockets
      modifies this
      ensures Valid() && OnlyRead(old(links), links, s)
      ensures Agrees(ReadStatus(old(links)[s].unread), r, links[s].unread)
    {
      var socket := Open(s);
      r := socket.RecvStatus();
      links := links[s := links[s].(unread := socket.incoming)];
    }

    method RecvInt(s: int) returns (r: Option<int>)
      requires Valid() && s in config.sockets
      modifies this
      ensures Valid() && OnlyRead(old(links), links, s)
      ensures Agrees(ReadNumber(old(links)[s].unread, COLON), r, links[s].unread)
    {
      var socket := Open(s);
      r := socket.RecvNumber(COLON);
      links := links[s := links[s].(unread := socket.incoming)];
    }

    method RecvMulti(s: int) returns (r: Option<seq<Bytes>>)
      requires Valid() && s in config.sockets
      modifies this
      ensures Valid() && OnlyRead(old(links), links, s)
      ensures Agrees(ReadMulti(old(links)[s].unread), r, links[s].unread)
    {
      var socket := Open(s);
      r := socket.RecvMulti();
      links := links[s := links[s].(unread := socket.incoming)];
    }

    method RecvSet(s: int, out: set<Bytes>) returns (r: Option<(int, set<Bytes>)>)
      requires Valid() && s in config.sockets
      modifies this
      ensures Valid() && OnlyRead(old(links), links, s)
      ensures Agrees(ReadSet(old(links)[s].unread, out), r, links[s].unread)
    {
      var socket := Open(s);
      r := socket.RecvSet(out);
      links := links[s := links[s].(unread := socket.incoming)];
    }

    // ----- all sockets -----

    /** Sends every text, in any order of the sockets. */
    method SendAll(texts: map<int, Bytes>, ghost dbs: Dbs, ghost share: map<int, seq<Command>>)
      requires Valid() && Idle(config, links, dbs) && Texts(config, texts, share)
      modifies this
      ensures Valid() && Holding(config, links, dbs, share)
    {
      var todo := texts.Keys;
      while todo != {}
        invariant todo <= texts.Keys && Valid()
        invariant forall s :: s in config.sockets ==>
                    links[s] ==
                    if s in todo then Link(dbs[s], [], []) else Served(config.env, dbs[s], ShareOf(share, s))
        decreases |todo|
      {
        Inhabited(todo);
        var s :| s in todo;
        FeedBatch(config.env, dbs[s], share[s]);
        var ok := Send(s, texts[s]);
        todo := todo - {s};
      }
    }

    // ----- pipelined commands -----

    /** exec for one command. */
    method ExecOne(req: Request, ghost dbs: Dbs) returns (reply: Option<ReplyData>)
      requires Valid() && Idle(config, links, dbs) && req.args != [EXEC]
      modifies this
      ensures Valid()
      ensures var s := config.Route(req.key);
              var (db, r) := Answer(config.env, dbs[s], req.args);
              reply == Some(ClientView(r)) && Idle(config, links, dbs[s := db])
    {
      var s := config.Route(req.key);
      EncodeOne(req.args);
      FeedBatch(config.env, dbs[s], [req.args]);
      ServedOne(config.env, dbs[s], req.args);
      AnswerWellFormed(config.env, dbs[s], req.args);
      ghost var r := Answer(config.env, dbs[s], req.args).1;
      assert EncodeReply(r) + [] == EncodeReply(r);
      ReplyRead(r, []);
      var ok := Send(s, EncodeCommand(req.args));
      reply := RecvGenericReply(s);
    }

    /** The first loop of exec: the requests of each socket in one text. */
    method Group(reqs: seq<Request>) returns (group: map<int, Bytes>)
      requires config.Good()
      ensures Grouped(config, group, reqs)
    {
      group := map[];
      for i := 0 to |reqs|
        invariant Grouped(config, group, reqs[..i])
      {
        var s := config.Route(reqs[i].key);
        GroupedNext(config, group, reqs[..i], reqs[i]);
        TakeNext(reqs, i);
        group := group[s := TextAt(group, s) + EncodeCommand(reqs[i].args)];
      }
      assert reqs[..|reqs|] == reqs;
    }

    method CollectNext(s: int, ghost dbs: Dbs, ghost reqs: seq<Request>) returns (r: Option<ReplyData>)
      requires Valid() && reqs != [] && Outstanding(config, links, dbs, reqs)
      requires s == config.Route(reqs[0].key)
      modifies this
      ensures Valid()
      ensures r == Some(ClientView(Answer(config.env, dbs[s], reqs[0].args).1))
      ensures Outstanding(config, links, dbs[s := Answer(config.env, dbs[s], reqs[0].args).0], reqs[1..])
    {
      MineHead(config, dbs, reqs);
      ghost var before := links;
      r := RecvGenericReply(s);
      OutstandingNext(config, before, dbs, reqs, links);
    }

    /** The last loop of exec: one reply for each command, in the order of the commands. */
    method Collect(reqs: seq<Request>, ghost dbs: Dbs) returns (replies: Option<seq<ReplyData>>)
      requires Valid() && Outstanding(config, links, dbs, reqs)
      modifies this
      ensures Valid()
      ensures replies == Some(Views(Sequential(config, dbs, reqs).1))
      ensures Idle(config, links, Sequential(config, dbs, reqs).0)
    {
      ghost var now := dbs;
      var out: seq<ReplyData> := [];
      for i := 0 to |reqs|
        invariant Valid() && Outstanding(config, links, now, reqs[i..])
        invariant Sequential(config, dbs, reqs).0 == Sequential(config, now, reqs[i..]).0
        invariant Views(Sequential(config, dbs, reqs).1) == out + Views(Sequential(config, now, reqs[i..]).1)
      {
        var s := config.Route(reqs[i].key);
        SequentialNext(config, now, reqs, i, out);
        assert reqs[i..][1..] == reqs[i + 1..];
        var r := CollectNext(s, now, reqs[i..]);
        out := out + [r.value];
        now := now[s := Answer(config.env, now[s], reqs[i].args).0];
      }
      OutstandingDone(config, links, now);
      assert out + [] == out;
      replies := Some(out);
    }

    /**
     * exec for a vector of commands. Each command gets exactly the reply a server would have given had
     * they been sent one at a time, and no byte is left unread.
     */
    method Exec(reqs: seq<Request>, ghost dbs: Dbs) returns (replies: Option<seq<ReplyData>>)
      requires Valid() && Idle(config, links, dbs) && WithoutExec(reqs)
      modifies this
      ensures Valid()
      ensures replies == Some(Views(Sequential(config, dbs, reqs).1))
      ensures Idle(config, links, Sequential(config, dbs, reqs).0)
    {
      var group := Group(reqs);
      SharesText(config, group, reqs);
      SendAll(group, dbs, Shares(config, group, reqs));
      SharesHeld(config, group, reqs, links, dbs);
      replies := Collect(reqs, dbs);
    }

    /** The first loop of exec_transaction: the common socket, -1 for no command, None if they differ. */
    method TransactionSocket(reqs: seq<Request>) returns (r: Option<(int, Bytes)>)
      requires config.Good()
      ensures r == None <==> exists k :: 0 <= k < |reqs| && config.Route(reqs[k].key) != config.Route(reqs[0].key)
      ensures r.Some? ==> r.value.0 == if reqs == [] then -1 else config.Route(reqs[0].key)
      ensures r.Some? ==> r.value.1 == TransactionText(ArgsOf(reqs))
    {
      var socket := -1;
      var text := EncodeCommand([MULTI]);
      ghost var all := EncodeCommand([MULTI]) + EncodeCommands(ArgsOf(reqs));
      assert reqs[0..] == reqs;
      for i := 0 to |reqs|
        invariant socket == if i == 0 then -1 else config.Route(reqs[0].key)
        invariant forall k :: 0 <= k < i ==> config.Route(reqs[k].key) == socket
        invariant text + EncodeCommands(ArgsOf(reqs[i..])) == all
      {
        var s := config.Route(reqs[i].key);
        if socket == -1 {
          socket := s;
        } else if socket != s {
          return None;
        }
        assert reqs[i..][1..] == reqs[i + 1..];
        Assoc(text, EncodeCommand(reqs[i].args), EncodeCommands(ArgsOf(reqs[i + 1..])));
        text := text + EncodeCommand(reqs[i].args);
      }
      assert text + [] == text;
      r := Some((socket, text + EncodeCommand([EXEC])));
    }

    /** One QUEUED for each command; any other answer raises an exception. */
    method PassQueued(s: int, n: nat, ghost rs: seq<Reply>, ghost tail: Bytes) returns (ok: bool)
      requires Valid() && s in config.sockets && links[s].unread == EncodeReplies(rs) + tail
      requires |rs| == n && forall k :: 0 <= k < |rs| ==> WellFormed(rs[k])
      modifies this
      ensures Valid() && OnlyRead(old(links), links, s)
      ensures ok <==> AllQueued(rs)
      ensures ok ==> links[s].unread == tail
    {
      assert rs[0..] == rs;
      for i := 0 to n
        invariant Valid() && OnlyRead(old(links), links, s)
        invariant links[s].unread == EncodeReplies(rs[i..]) + tail && AllQueued(rs[..i])
      {
        QueuedNext(rs, i, tail);
        var resp := RecvStatus(s);
        if resp != Some(QUEUED) {
          return false;
        }
      }
      assert rs[..n] == rs && [] + tail == tail;
      ok := true;
    }

    /** recv_ok_reply_. */
    method RecvOk(s: int, ghost rest: Bytes) returns (ok: bool)
      requires Valid() && s in config.sockets && links[s].unread == EncodeReply(Status(OK)) + rest
      modifies this
      ensures ok && Valid() && OnlyRead(old(links), links, s) && links[s].unread == rest
    {
      StatusLineRead(OK, rest);
      var status := RecvStatus(s);
      ok := status == Some(OK);
    }

    /** The line of the array that EXEC answers with. */
    method RecvHeader(s: int, ghost n: nat, ghost rest: Bytes) returns (ok: bool)
      requires Valid() && s in config.sockets && links[s].unread == ArrayHeader(n) + rest
      modifies this
      ensures ok && Valid() && OnlyRead(old(links), links, s) && links[s].unread == rest
    {
      HeaderRead(n, rest);
      var line := RecvLine(s);
      ok := line.Some? && line.value != [] && line.value[0] == STAR;
    }

    /** The answers before the replies themselves: OK, QUEUED for each command, and the array header. */
    method PassPreamble(s: int, n: nat, ghost rs: seq<Reply>, ghost m: nat, ghost replies: Bytes) returns (ok: bool)
      requires Valid() && s in config.sockets
      requires links[s].unread == EncodeReply(Status(OK)) + (EncodeReplies(rs) + (ArrayHeader(m) + replies))
      requires |rs| == n && forall k :: 0 <= k < |rs| ==> WellFormed(rs[k])
      modifies this
      ensures Valid() && OnlyRead(old(links), links, s)
      ensures ok <==> AllQueued(rs)
      ensures ok ==> links[s].unread == replies
    {
      ghost var tail := ArrayHeader(m) + replies;
      var started := RecvOk(s, EncodeReplies(rs) + tail);
      if !started {
        return false;
      }
      ok := PassQueued(s, n, rs, tail);
      if ok {
        ok := RecvHeader(s, m, replies);
      }
    }

    /**
     * exec_transaction. Commands that go to different servers, or no command at all, raise an exception
     * before anything is sent, and so does a command that the server refuses to queue after that;
     * otherwise the replies are those of the commands run one after another.
     */
    method ExecTransaction(reqs: seq<Request>, ghost dbs: Dbs) returns (replies: Option<seq<ReplyData>>)
      requires Valid() && Idle(config, links, dbs) && Ready(dbs) && WithoutExec(reqs)
      modifies this
      ensures Valid()
      ensures !OneServer(config, reqs) ==> replies == None && links == old(links)
      ensures OneServer(config, reqs) && AllAccepted(config.env, ArgsOf(reqs)) ==>
                && replies == Some(Views(Sequential(config, dbs, reqs).1))
                && Idle(config, links, Sequential(config, dbs, reqs).0)
      ensures OneServer(config, reqs) && !AllAccepted(config.env, ArgsOf(reqs)) ==> replies == None
    {
      var target := TransactionSocket(reqs);
      if target == None {
        return None;
      }
      var (s, text) := target.value;
      ghost var cmds := ArgsOf(reqs);
      if reqs != [] {
        TransactionSent(config, links, dbs, reqs, s);
      }
      var sent := Send(s, text);
      if !sent {
        return None;
      }
      ghost var queue := Accepted(config.env, cmds);
      QueueRepliesWellFormed(config.env, cmds);
      QueuedIsAccepted(config.env, cmds);
      ghost var owed := EncodeReplies(RunAll(config.env, dbs[s], queue).1);
      var ok := PassPreamble(s, |reqs|, QueueReplies(config.env, cmds), |queue|, owed);
      if !ok {
        return None;
      }
      TransactionHeld(config, links, dbs, reqs, s);
      replies := Collect(reqs, dbs);
    }

    // ----- sharded operations -----

    /** Collects the answer of one of the sockets still waited for. */
    method NextStatus(s: int, ghost sent: Links, ghost after: Dbs, ghost todo: set<int>, ghost status: Bytes)
      returns (r: Option<Bytes>)
      requires Valid() && Waiting(config, links, sent, after, todo) && s in todo && s in config.sockets
      requires ReadStatus(sent[s].unread) == Got(status, []) && sent[s].db == after[s] && sent[s].pending == []
      modifies this
      ensures Valid() && Waiting(config, links, sent, after, todo - {s}) && r == Some(status)
    {
      ghost var before := links;
      r := RecvStatus(s);
      WaitingNext(config, before, links, sent, after, todo, s);
    }

    method NextMulti(s: int, ghost sent: Links, ghost after: Dbs, ghost todo: set<int>, ghost vs: seq<Bytes>)
      returns (r: Option<seq<Bytes>>)
      requires Valid() && Waiting(config, links, sent, after, todo) && s in todo && s in config.sockets
      requires ReadMulti(sent[s].unread) == Got(vs, []) && sent[s].db == after[s] && sent[s].pending == []
      modifies this
      ensures Valid() && Waiting(config, links, sent, after, todo - {s}) && r == Some(vs)
    {
      ghost var before := links;
      r := RecvMulti(s);
      WaitingNext(config, before, links, sent, after, todo, s);
    }

    method NextSet(s: int, out: set<Bytes>, ghost sent: Links, ghost after: Dbs, ghost todo: set<int>, ghost fine: bool,
                   ghost n: int, ghost got: set<Bytes>)
      returns (r: Option<(int, set<Bytes>)>)
      requires Valid() && Waiting(config, links, sent, after, todo) && s in todo && s in config.sockets
      requires ReadSet(sent[s].unread, out) == if fine then Got((n, got), []) else Thrown
      requires sent[s].db == after[s] && sent[s].pending == []
      modifies this
      ensures Valid()
      ensures fine ==> Waiting(config, links, sent, after, todo - {s}) && r == Some((n, got))
      ensures !fine ==> r == None
    {
      ghost var before := links;
      r := RecvSet(s, out);
      if r.Some? {
        WaitingNext(config, before, links, sent, after, todo, s);
      }
    }

    /** Sends one command to each socket of a group. */
    method SendGroup(name: Bytes, group: map<int, seq<Bytes>>, ghost dbs: Dbs)
      requires Valid() && Idle(config, links, dbs)
      requires forall s :: s in group ==> s in config.sockets && group[s] != []
      modifies this
      ensures Valid()
      ensures AskedOf(config, links, dbs, name, group)
    {
      var texts := map s | s in group :: EncodeCommand([name] + group[s]);
      ghost var share := map s | s in group :: [[name] + group[s]];
      forall s | s in group ensures EncodeCommands(share[s]) == texts[s] && NoExec(share[s]) {
        EncodeOne([name] + group[s]);
      }
      SendAll(texts, dbs, share);
      forall s | s in group ensures links[s] == Asked(config.env, dbs[s], [name] + group[s]) {
        ServedOne(config.env, dbs[s], [name] + group[s]);
      }
    }

    /** The keys of each server. */
    method GroupKeys(keys: seq<Bytes>) returns (group: map<int, seq<Bytes>>)
      requires config.Good()
      ensures KeyGroups(config, group, keys, |keys|)
    {
      group := map[];
      for i := 0 to |keys|
        invariant KeyGroups(config, group, keys, i)
      {
        var s := config.Route(keys[i]);
        KeyGroupsNext(config, group, keys, i);
        group := group[s := WordsIn(group, s) + [keys[i]]];
      }
    }

    /** The first loop of mget: the keys of each server, and where they stand. */
    method GroupPositions(keys: seq<Bytes>) returns (group: map<int, seq<Bytes>>, indices: map<int, seq<nat>>)
      requires config.Good()
      ensures KeyGroups(config, group, keys, |keys|) && IndexGroups(config, group, indices, keys, |keys|)
    {
      group, indices := map[], map[];
      for i := 0 to |keys|
        invariant KeyGroups(config, group, keys, i) && IndexGroups(config, group, indices, keys, i)
      {
        var s := config.Route(keys[i]);
        KeyGroupsNext(config, group, keys, i);
        IndexGroupsNext(config, group, indices, keys, i, s, WordsIn(group, s) + [keys[i]]);
        group := group[s := WordsIn(group, s) + [keys[i]]];
        indices := indices[s := PositionsIn(indices, s) + [i]];
      }
    }

    /** mget: each position gets what its own server holds for its key, and no byte is left unread. */
    method Mget(keys: seq<Bytes>, ghost dbs: Dbs) returns (out: Option<seq<Bytes>>)
      requires Valid() && Idle(config, links, dbs) && Ready(dbs)
      modifies this
      ensures Valid() && Idle(config, links, dbs)
      ensures out.Some? && |out.value| == |keys|
      ensures forall i :: 0 <= i < |keys| ==> out.value[i] == HeldAt(config, dbs, keys[i])
    {
      var group, indices := GroupPositions(keys);
      SendGroup(MGET, group, dbs);
      out := CollectValues(keys, group, indices, dbs);
      AllHeld(config, dbs, keys, group, out.value);
    }

    method NextValues(s: int, values: seq<Bytes>, indices: seq<nat>, keys: seq<Bytes>, ghost sent: Links,
                      ghost dbs: Dbs, ghost todo: set<int>, ghost done: set<int>)
      returns (out: Option<seq<Bytes>>)
      requires Valid() && Waiting(config, links, sent, dbs, todo) && s in todo && s in config.sockets
      requires |values| == |keys| && indices == IndicesAt(config, keys, |keys|, s)
      requires sent[s].db == dbs[s] && sent[s].pending == [] && HeldIn(config, dbs, keys, values, done)
      requires ReadMulti(sent[s].unread) ==
                Got(AllOrMissing(ValuesAt(dbs[s].store, KeysAt(config, keys, |keys|, s))), [])
      modifies this
      ensures Valid() && Waiting(config, links, sent, dbs, todo - {s})
      ensures out.Some? && |out.value| == |keys| && HeldIn(config, dbs, keys, out.value, done + {s})
    {
      var cur := NextMulti(s, sent, dbs, todo, AllOrMissing(ValuesAt(dbs[s].store, KeysAt(config, keys, |keys|, s))));
      if cur == None {
        return None;
      }
      var r := Scatter(config, values, indices, cur.value, keys, s, dbs, done);
      out := Some(r);
    }

    method CollectValues(keys: seq<Bytes>, group: map<int, seq<Bytes>>, indices: map<int, seq<nat>>, ghost dbs: Dbs)
      returns (out: Option<seq<Bytes>>)
      requires Valid() && Covers(config, dbs) && Ready(dbs)
      requires KeyGroups(config, group, keys, |keys|) && IndexGroups(config, group, indices, keys, |keys|)
      requires AskedOf(config, links, dbs, MGET, group)
      modifies this
      ensures Valid() && Idle(config, links, dbs)
      ensures out.Some? && |out.value| == |keys| && HeldIn(config, dbs, keys, out.value, group.Keys)
    {
      ghost var sent, done := links, {};
      var values := seq(|keys|, _ => []);
      var todo := group.Keys;
      while todo != {}
        invariant done + todo == group.Keys && Valid() && |values| == |keys|
        invariant Waiting(config, links, sent, dbs, todo)
        invariant HeldIn(config, dbs, keys, values, done)
        decreases |todo|
      {
        Inhabited(todo);
        var s :| s in todo;
        MgetSent(config, sent, dbs, keys, group, s);
        out := NextValues(s, values, indices[s], keys, sent, dbs, todo, done);
        if out == None {
          return;
        }
        values := out.value;
        done, todo := done + {s}, todo - {s};
      }
      out := Some(values);
    }

    /** The words of each server's MSET. */
    method GroupPairs(pairs: seq<Pair>) returns (group: map<int, seq<Bytes>>)
      requires config.Good()
      ensures PairGroups(config, group, pairs, |pairs|)
    {
      group := map[];
      for i := 0 to |pairs|
        invariant PairGroups(config, group, pairs, i)
      {
        var s := config.Route(pairs[i].0);
        PairGroupsNext(config, group, pairs, i);
        group := group[s := WordsIn(group, s) + [pairs[i].0, pairs[i].1]];
      }
    }

    /** mset: the servers together hold what one store would hold after setting the pairs in order. */
    method Mset(pairs: seq<Pair>, ghost dbs: Dbs) returns (ok: bool)
      requires Valid() && Idle(config, links, dbs) && Ready(dbs)
      modifies this
      ensures ok && Valid() && Idle(config, links, AfterSets(config, dbs, pairs))
      ensures forall logical :: Represents(config, dbs, logical) ==>
                Represents(config, AfterSets(config, dbs, pairs), SetEach(logical, pairs, |pairs|))
    {
      var group := GroupPairs(pairs);
      SendGroup(MSET, group, dbs);
      ghost var sent := links;
      ghost var after := AfterSets(config, dbs, pairs);
      var todo := group.Keys;
      while todo != {}
        invariant todo <= group.Keys && Valid()
        invariant Waiting(config, links, sent, after, todo)
        decreases |todo|
      {
        Inhabited(todo);
        var s :| s in todo;
        MsetAnswer(config.env, dbs[s], group[s]);
        var reply := NextStatus(s, sent, after, todo, OK);
        if reply != Some(OK) {
          return false;
        }
        todo := todo - {s};
      }
      forall logical | Represents(config, dbs, logical)
        ensures Represents(config, after, SetEach(logical, pairs, |pairs|))
      {
        AfterSetsRepresents(config, dbs, pairs, logical);
      }
      ok := true;
    }

    /** recv_int_ok_reply_, once for each EXPIRE. */
    method RecvOnes(s: int, count: nat, ghost rs: seq<Reply>) returns (ok: bool)
      requires Valid() && s in config.sockets && |rs| == count && links[s].unread == EncodeReplies(rs)
      requires forall k :: 0 <= k < |rs| ==> WellFormed(rs[k])
      modifies this
      ensures Valid() && OnlyRead(old(links), links, s)
      ensures ok <==> AllOnes(rs)
      ensures ok ==> links[s].unread == []
    {
      assert rs[0..] == rs;
      for i := 0 to count
        invariant Valid() && OnlyRead(old(links), links, s)
        invariant links[s].unread == EncodeReplies(rs[i..]) && AllOnes(rs[..i])
      {
        OnesNext(rs, i);
        var n := RecvInt(s);
        if n != Some(1) {
          return false;
        }
      }
      assert rs[..count] == rs;
      ok := true;
    }

    /** The OK and the integers of one socket. */
    method NextExpiry(s: int, count: nat, ghost sent: Links, ghost after: Dbs, ghost todo: set<int>,
                      ghost rs: seq<Reply>)
      returns (ok: bool)
      requires Valid() && Waiting(config, links, sent, after, todo) && s in todo && s in config.sockets
      requires sent[s] == Link(after[s], [], EncodeReply(Status(OK)) + EncodeReplies(rs)) && |rs| == count
      requires forall k :: 0 <= k < |rs| ==> WellFormed(rs[k])
      modifies this
      ensures Valid()
      ensures ok <==> AllOnes(rs)
      ensures ok ==> Waiting(config, links, sent, after, todo - {s})
    {
      ghost var before := links;
      var first := RecvOk(s, EncodeReplies(rs));
      if !first {
        return false;
      }
      ok := RecvOnes(s, count, rs);
      if ok {
        WaitingNext(config, before, links, sent, after, todo, s);
      }
    }

    /** The first loop of msetex: each server's MSET words, its EXPIRE commands as one text, and their number. */
    method GroupExpiring(pairs: seq<Pair>, seconds: int)
      returns (group: map<int, seq<Bytes>>, expires: map<int, Bytes>, counts: map<int, nat>)
      requires config.Good()
      ensures PairGroups(config, group, pairs, |pairs|)
      ensures ExpireGroups(config, group, expires, counts, pairs, |pairs|, seconds)
    {
      group, expires, counts := map[], map[], map[];
      for i := 0 to |pairs|
        invariant PairGroups(config, group, pairs, i)
        invariant ExpireGroups(config, group, expires, counts, pairs, i, seconds)
      {
        var s := config.Route(pairs[i].0);
        var words := WordsIn(group, s) + [pairs[i].0, pairs[i].1];
        PairGroupsNext(config, group, pairs, i);
        ExpireGroupsNext(config, group, expires, counts, pairs, i, seconds, s, words);
        group := group[s := words];
        expires := expires[s := TextAt(expires, s) + EncodeCommand(ExpireOf(pairs[i].0, seconds))];
        counts := counts[s := CountAt(counts, s) + 1];
      }
    }

    /**
     * msetex. Whatever the servers answer to EXPIRE, the call returns normally exactly if every answer is
     * the integer 1, and then no byte is left unread.
     */
    method Msetex(pairs: seq<Pair>, seconds: int, ghost dbs: Dbs) returns (ok: bool)
      requires Valid() && Idle(config, links, dbs) && Ready(dbs)
      modifies this
      ensures Valid()
      ensures ok <==> forall s :: s in config.sockets ==> AllOnes(ExpireReplies(config, dbs, pairs, seconds, s))
      ensures ok ==> Idle(config, links, AfterExpires(config, dbs, pairs, seconds))
    {
      var group, expires, counts := GroupExpiring(pairs, seconds);
      var texts := map s | s in group :: EncodeCommand([MSET] + group[s]) + expires[s];
      ghost var share := map s | s in group :: [[MSET] + group[s]] + ExpiresAt(config, pairs, |pairs|, s, seconds);
      forall s | s in group ensures texts[s] == EncodeCommands(share[s]) && NoExec(share[s]) {
        ExpiryText(config, group, expires, counts, pairs, seconds, s);
      }
      SendAll(texts, dbs, share);
      ghost var rs := map s | s in config.sockets :: ExpireReplies(config, dbs, pairs, seconds, s);
      ghost var after := AfterExpires(config, dbs, pairs, seconds);
      forall s | s in config.sockets ensures Expected(links[s], after[s], rs[s], s in group) {
        ExpirySentAt(config, dbs, group, pairs, seconds, s);
      }
      ok := CollectOnes(counts, after, rs);
    }

    /** The last loop of msetex. */
    method CollectOnes(counts: map<int, nat>, ghost after: Dbs, ghost rs: map<int, seq<Reply>>) returns (ok: bool)
      requires Valid() && Covers(config, after) && Covers(config, rs)
      requires forall s :: s in counts ==> s in config.sockets && counts[s] == |rs[s]|
      requires forall s :: s in config.sockets ==> Expected(links[s], after[s], rs[s], s in counts)
      modifies this
      ensures Valid()
      ensures ok <==> forall s :: s in config.sockets ==> AllOnes(rs[s])
      ensures ok ==> Idle(config, links, after)
    {
      ghost var sent := links;
      var todo := counts.Keys;
      while todo != {}
        invariant todo <= counts.Keys && Valid() && Waiting(config, links, sent, after, todo)
        invariant forall s :: s in config.sockets && s !in todo ==> AllOnes(rs[s])
        decreases |todo|
      {
        Inhabited(todo);
        var s :| s in todo;
        ok := NextExpiry(s, counts[s], sent, after, todo, rs[s]);
        if !ok {
          return;
        }
        todo := todo - {s};
      }
      ok := true;
    }

    /**
     * sinter: the intersection of all the named sets, wherever they live, or an exception exactly if a
     * key holds something else.
     */
    method Sinter(keys: seq<Bytes>, out: set<Bytes>, ghost dbs: Dbs) returns (r: Option<(int, set<Bytes>)>)
      requires Valid() && Idle(config, links, dbs) && Ready(dbs)
      modifies this
      ensures Valid()
      ensures r.Some? <==> AllNameSets(config, dbs, keys)
      ensures r.Some? ==> Idle(config, links, dbs) && r.value.0 == |r.value.1|
      ensures r.Some? && keys == [] ==> r.value.1 == out
      ensures r.Some? && keys != [] ==>
                forall v :: v in r.value.1 <==> forall key :: key in keys ==> v in SetOf(config, dbs, key)
    {
      var group := GroupKeys(keys);
      SendGroup(SINTER, group, dbs);
      AllGrouped(config, group, keys);
      SetsByServer(config, dbs, keys, group.Keys);
      r := CollectIntersection(keys, group, out, dbs);
      if r.Some? {
        AllMet(config, dbs, keys, group, out, r.value.1);
      }
    }

    /** The answer of one server to SINTER. */
    method NextMeet(s: int, ghost keys: seq<Bytes>, ghost group: map<int, seq<Bytes>>, ghost sent: Links,
                    ghost dbs: Dbs, ghost todo: set<int>)
      returns (cur: Option<set<Bytes>>)
      requires Valid() && Waiting(config, links, sent, dbs, todo) && s in todo && s in group && Ready(dbs)
      requires KeyGroups(config, group, keys, |keys|) && AskedOf(config, sent, dbs, SINTER, group)
      modifies this
      ensures Valid() && s in config.sockets && KeysAt(config, keys, |keys|, s) != []
      ensures cur.Some? <==> SetsAt(config, dbs, keys, s)
      ensures cur.Some? ==> Waiting(config, links, sent, dbs, todo - {s})
      ensures cur.Some? ==> cur.value == Intersection(dbs[s].store, KeysAt(config, keys, |keys|, s))
    {
      SinterSent(config, sent, dbs, keys, group, s);
      ghost var meet := Intersection(dbs[s].store, group[s]);
      var r := NextSet(s, {}, sent, dbs, todo, SetsAt(config, dbs, keys, s), |meet|, meet);
      cur := if r == None then None else Some(r.value.1);
    }

    method CollectIntersection(keys: seq<Bytes>, group: map<int, seq<Bytes>>, out: set<Bytes>, ghost dbs: Dbs)
      returns (r: Option<(int, set<Bytes>)>)
      requires Valid() && Covers(config, dbs) && Ready(dbs)
      requires KeyGroups(config, group, keys, |keys|) && AskedOf(config, links, dbs, SINTER, group)
      modifies this
      ensures Valid()
      ensures r.Some? <==> SetsOn(config, dbs, keys, group.Keys)
      ensures r.Some? ==> Idle(config, links, dbs) && r.value.0 == |r.value.1|
      ensures r.Some? ==> exists i: nat :: Narrowed(config, dbs, keys, group.Keys, i, out, r.value.1)
    {
      ghost var sent, done := links, {};
      var result: set<Bytes>, i: nat := out, 0;
      var todo := group.Keys;
      while todo != {}
        invariant done + todo == group.Keys && Valid()
        invariant Waiting(config, links, sent, dbs, todo)
        invariant Narrowed(config, dbs, keys, done, i, out, result)
        decreases |todo|
      {
        Inhabited(todo);
        var s :| s in todo;
        var cur := NextMeet(s, keys, group, sent, dbs, todo);
        if cur == None {
          SetsMissed(config, dbs, keys, group.Keys, s);
          return None;
        }
        NarrowedNext(config, dbs, keys, done, s, i, out, result, cur.value);
        result := Narrow(i, result, cur.value);
        i := i + 1;
        done, todo := done + {s}, todo - {s};
      }
      r := Some((|result|, result));
    }

    /** get_socket for several keys: their common socket, or -1. */
    method GetSocket(keys: seq<Bytes>) returns (r: int)
      requires config.Good() && keys != []
      ensures r == if forall k :: 0 <= k < |keys| ==> config.Route(keys[k]) == config.Route(keys[0])
                   then config.Route(keys[0]) else -1
    {
      if |config.sockets| == 1 {
        return config.sockets[0];
      }
      r := -1;
      for i := 0 to |keys|
        invariant r == if i == 0 then -1 else config.Route(keys[0])
        invariant forall k :: 0 <= k < i ==> config.Route(keys[k]) == config.Route(keys[0])
      {
        var cur := config.Route(keys[i]);
        if i > 0 && r != cur {
          return -1;
        }
        r := cur;
      }
    }

    /**
     * sunion: adds to `out` the union of all the named sets, wherever they live, or raises an exception
     * exactly if a key holds something else.
     */
    method Sunion(keys: seq<Bytes>, out: set<Bytes>, ghost dbs: Dbs) returns (r: Option<(int, set<Bytes>)>)
      requires Valid() && Idle(config, links, dbs) && Ready(dbs) && keys != []
      modifies this
      ensures Valid()
      ensures r.Some? <==> AllNameSets(config, dbs, keys)
      ensures r.Some? ==> Idle(config, links, dbs) && (out == {} ==> r.value.0 == |r.value.1|)
      ensures r.Some? ==>
                forall v :: v in r.value.1 <==> v in out || exists key :: key in keys && v in SetOf(config, dbs, key)
    {
      var socket := GetSocket(keys);
      ghost var group: map<int, seq<Bytes>>;
      if socket == -1 {
        var perSocket := GroupKeys(keys);
        group := perSocket;
        SendGroup(SUNION, perSocket, dbs);
        r := CollectUnion(keys, perSocket, out, dbs);
      } else {
        group := map[socket := keys];
        OneGroup(config, keys, socket);
        r := UnionOn(keys, socket, out, dbs);
      }
      AllGrouped(config, group, keys);
      SetsByServer(config, dbs, keys, group.Keys);
      if r.Some? {
        AllJoined(config, dbs, keys, group, out, r.value.1);
      }
    }

    /** All keys on one socket: the reply goes straight into `out`, and its count is the result. */
    method UnionOn(keys: seq<Bytes>, socket: int, out: set<Bytes>, ghost dbs: Dbs)
      returns (r: Option<(int, set<Bytes>)>)
      requires Valid() && Idle(config, links, dbs) && Ready(dbs) && keys != []
      requires socket in config.sockets && KeyGroups(config, map[socket := keys], keys, |keys|)
      modifies this
      ensures Valid()
      ensures r.Some? <==> SetsOn(config, dbs, keys, {socket})
      ensures r.Some? ==> Idle(config, links, dbs) && (out == {} ==> r.value.0 == |r.value.1|)
      ensures r.Some? ==> Joins(config, dbs, keys, {socket}, out, r.value.1)
    {
      var group := map[socket := keys];
      assert KeysAt(config, keys, |keys|, socket) == WordsIn(group, socket);
      SendGroup(SUNION, group, dbs);
      SunionAnswer(config.env, dbs[socket], keys, out);
      ghost var join := Union(dbs[socket].store, keys);
      JoinsFirst(config, dbs, keys, socket, out, join);
      r := NextSet(socket, out, links, dbs, {socket}, SetsAt(config, dbs, keys, socket), |join|, out + join);
    }

    /** The answer of one server to SUNION, added to what there is. */
    method NextJoin(s: int, out: set<Bytes>, ghost keys: seq<Bytes>, ghost group: map<int, seq<Bytes>>,
                    ghost sent: Links, ghost dbs: Dbs, ghost todo: set<int>)
      returns (cur: Option<set<Bytes>>)
      requires Valid() && Waiting(config, links, sent, dbs, todo) && s in todo && s in group && Ready(dbs)
      requires KeyGroups(config, group, keys, |keys|) && AskedOf(config, sent, dbs, SUNION, group)
      modifies this
      ensures Valid() && s in config.sockets
      ensures cur.Some? <==> SetsAt(config, dbs, keys, s)
      ensures cur.Some? ==> Waiting(config, links, sent, dbs, todo - {s})
      ensures cur.Some? ==> cur.value == out + Union(dbs[s].store, KeysAt(config, keys, |keys|, s))
    {
      SunionSent(config, sent, dbs, keys, group, s, out);
      ghost var join := Union(dbs[s].store, group[s]);
      var r := NextSet(s, out, sent, dbs, todo, SetsAt(config, dbs, keys, s), |join|, out + join);
      cur := if r == None then None else Some(r.value.1);
    }

    method CollectUnion(keys: seq<Bytes>, group: map<int, seq<Bytes>>, out: set<Bytes>, ghost dbs: Dbs)
      returns (r: Option<(int, set<Bytes>)>)
      requires Valid() && Covers(config, dbs) && Ready(dbs)
      requires KeyGroups(config, group, keys, |keys|) && AskedOf(config, links, dbs, SUNION, group)
      modifies this
      ensures Valid()
      ensures r.Some? <==> SetsOn(config, dbs, keys, group.Keys)
      ensures r.Some? ==> Idle(config, links, dbs) && r.value.0 == |r.value.1|
      ensures r.Some? ==> Joins(config, dbs, keys, group.Keys, out, r.value.1)
    {
      ghost var sent, done := links, {};
      var result := out;
      var todo := group.Keys;
      while todo != {}
        invariant done + todo == group.Keys && Valid()
        invariant Waiting(config, links, sent, dbs, todo)
        invariant Joined(config, dbs, keys, done, out, result)
        decreases |todo|
      {
        Inhabited(todo);
        var s :| s in todo;
        var cur := NextJoin(s, result, keys, group, sent, dbs, todo);
        if cur == None {
          SetsMissed(config, dbs, keys, group.Keys, s);
          return None;
        }
        JoinedNext(config, dbs, keys, done, s, out, result, cur.value);
        result := cur.value;
        done, todo := done + {s}, todo - {s};
      }
      r := Some((|result|, result));
    }
  }

  lemma QueuedNext(rs: seq<Reply>, i: nat, tail: Bytes)
    requires i < |rs| && WellFormed(rs[i]) && AllQueued(rs[..i])
    ensures ReadStatus(EncodeReplies(rs[i..]) + tail) ==
            if rs[i].Status? then Got(rs[i].s, EncodeReplies(rs[i + 1..]) + tail) else Thrown
    ensures rs[i] == Status(QUEUED) ==> AllQueued(rs[..i + 1])
    ensures rs[i] != Status(QUEUED) ==> !AllQueued(rs)
  {
    assert rs[i..][1..] == rs[i + 1..];
    Assoc(EncodeReply(rs[i]), EncodeReplies(rs[i + 1..]), tail);
    StatusOnly(rs[i], EncodeReplies(rs[i + 1..]) + tail);
    TakeNext(rs, i);
  }

  /** There is a command, and all commands go to the server of the first. */
  predicate OneServer(c: Config, reqs: seq<Request>)
    requires c.Good()
  {
    reqs != [] && AllGoTo(c, reqs, c.Route(reqs[0].key))
  }

  lemma TransactionSent(c: Config, links: Links, dbs: Dbs, reqs: seq<Request>, s: int)
    requires c.Good() && Idle(c, links, dbs) && Ready(dbs) && WithoutExec(reqs) && s in c.sockets
    ensures Feed(c.env, links[s], TransactionText(ArgsOf(reqs))) ==
            Link(RunAll(c.env, dbs[s], Accepted(c.env, ArgsOf(reqs))).0, [],
                 TransactionReply(c.env, dbs[s], ArgsOf(reqs)))
  {
    ArgsNoExec(reqs);
    FeedTransaction(c.env, dbs[s].store, ArgsOf(reqs));
  }

  lemma {:induction false} ArgsNoExec(reqs: seq<Request>)
    requires WithoutExec(reqs)
    ensures NoExec(ArgsOf(reqs))
  {
    if reqs != [] {
      ArgsNoExec(reqs[1..]);
    }
  }

  predicate AllGoTo(c: Config, reqs: seq<Request>, s: int)
    requires c.Good()
  {
    forall k :: 0 <= k < |reqs| ==> c.Route(reqs[k].key) == s
  }

  lemma TransactionShare(c: Config, db: Db, reqs: seq<Request>, s: int, t: int, link: Link)
    requires c.Good() && AllGoTo(c, reqs, s)
    requires link == if t == s then Served(c.env, db, ArgsOf(reqs)) else Link(db, [], [])
    ensures link == Served(c.env, db, Mine(c, reqs, t))
  {
    MineOfOne(c, reqs, s, t);
  }

  lemma TransactionHeld(c: Config, links: Links, dbs: Dbs, reqs: seq<Request>, s: int)
    requires c.Good() && Covers(c, links) && Covers(c, dbs) && AllGoTo(c, reqs, s)
    requires forall t :: t in c.sockets ==>
               links[t] == if t == s then Served(c.env, dbs[t], ArgsOf(reqs)) else Link(dbs[t], [], [])
    ensures Outstanding(c, links, dbs, reqs)
  {
    forall t | t in c.sockets ensures links[t] == Served(c.env, dbs[t], Mine(c, reqs, t)) {
      TransactionShare(c, dbs[t], reqs, s, t, links[t]);
    }
  }

  // ----- single answers -----

  lemma NamesDiffer()
    ensures MGET != MSET && MGET != SINTER && MGET != SUNION && MSET != SINTER && MSET != SUNION && SINTER != SUNION
  {
    assert MGET[1] != MSET[1] && MGET[1] != SINTER[1] && MGET[1] != SUNION[1];
    assert MSET[0] != SINTER[0] && MSET[0] != SUNION[0] && SINTER[1] != SUNION[1];
  }

  lemma ExecuteMget(env: Env, store: Store, keys: seq<Bytes>)
    requires keys != []
    ensures Execute(env, store, [MGET] + keys) == (store, Multi(ValuesAt(store, keys)))
  {
    assert ([MGET] + keys)[1..] == keys;
  }

  lemma ExecuteMset(env: Env, store: Store, words: seq<Bytes>)
    requires words != [] && |words| % 2 == 0
    ensures Execute(env, store, [MSET] + words) == (SetAll(store, words), Status(OK))
  {
    assert ([MSET] + words)[1..] == words;
    NamesDiffer();
  }

  lemma ExecuteSinter(env: Env, store: Store, keys: seq<Bytes>)
    requires keys != []
    ensures Execute(env, store, [SINTER] + keys) ==
            (store, SetAnswer(env, [SINTER] + keys, NamesSets(store, keys), Intersection(store, keys)))
  {
    assert ([SINTER] + keys)[1..] == keys;
    NamesDiffer();
  }

  lemma ExecuteSunion(env: Env, store: Store, keys: seq<Bytes>)
    requires keys != []
    ensures Execute(env, store, [SUNION] + keys) ==
            (store, SetAnswer(env, [SUNION] + keys, NamesSets(store, keys), Union(store, keys)))
  {
    assert ([SUNION] + keys)[1..] == keys;
    NamesDiffer();
  }

  /** A command with an argument goes straight to the store when no transaction is open. */
  lemma AskedIs(env: Env, db: Db, cmd: Command, store: Store, r: Reply)
    requires db.queue == None && |cmd| > 1 && Execute(env, db.store, cmd) == (store, r)
    ensures Asked(env, db, cmd) == Link(Db(store, None), [], EncodeReply(r))
  {}

  lemma MgetAnswer(env: Env, db: Db, keys: seq<Bytes>)
    requires keys != [] && db.queue == None
    ensures Asked(env, db, [MGET] + keys).db == db
    ensures ReadMulti(Asked(env, db, [MGET] + keys).unread) == Got(AllOrMissing(ValuesAt(db.store, keys)), [])
  {
    var vs := ValuesAt(db.store, keys);
    ExecuteMget(env, db.store, keys);
    AskedIs(env, db, [MGET] + keys, db.store, Multi(vs));
    ArrayRead(vs, []);
    assert EncodeReply(Multi(vs)) + [] == EncodeReply(Multi(vs));
  }

  lemma MsetAnswer(env: Env, db: Db, words: seq<Bytes>)
    requires words != [] && |words| % 2 == 0 && db.queue == None
    ensures Asked(env, db, [MSET] + words).db == db.(store := SetAll(db.store, words))
    ensures ReadStatus(Asked(env, db, [MSET] + words).unread) == Got(OK, [])
  {
    ExecuteMset(env, db.store, words);
    AskedIs(env, db, [MSET] + words, SetAll(db.store, words), Status(OK));
    StatusLineRead(OK, []);
    assert EncodeReply(Status(OK)) + [] == EncodeReply(Status(OK));
  }

  /** What a listed set reads back as. */
  lemma SetRead(env: Env, vs: set<Bytes>, out: set<Bytes>)
    requires env.Good()
    ensures ReadSet(EncodeReply(Multi(Somes(env.listing(vs)))), out) == Got((|vs|, out + vs), [])
  {
    var list := env.listing(vs);
    var tail := EncodeOptions(Somes(list)) + [];
    assert tail == EncodeOptions(Somes(list));
    NumberRead(STAR, |list|, tail);
    OptionsRead(Somes(list), []);
    SomesView(list);
    ReadSetParts(EncodeReply(Multi(Somes(list))), out, |list|, tail, list);
  }

  lemma ReadSetParts(s: Bytes, out: set<Bytes>, n: nat, tail: Bytes, list: seq<Bytes>)
    requires ReadNumber(s, STAR) == Got(n, tail) && ReadBulks(tail, n) == Got(list, [])
    ensures ReadSet(s, out) == Got((n, out + Elements(list)), [])
  {}

  /** What the answer to a set command reads back as. */
  lemma SetAnswerRead(env: Env, cmd: Command, ok: bool, vs: set<Bytes>, out: set<Bytes>)
    requires env.Good()
    ensures ReadSet(EncodeReply(SetAnswer(env, cmd, ok, vs)), out) == if ok then Got((|vs|, out + vs), []) else Thrown
  {
    if ok {
      SetRead(env, vs, out);
    } else {
      var s := EncodeReply(Error(env.refusal(cmd)));
      assert s[0] == MINUS;
      OtherPrefix(s, STAR);
    }
  }

  lemma SinterAnswer(env: Env, db: Db, keys: seq<Bytes>)
    requires env.Good() && db.queue == None && keys != []
    ensures var meet := Intersection(db.store, keys);
            Asked(env, db, [SINTER] + keys).db == db
            && ReadSet(Asked(env, db, [SINTER] + keys).unread, {}) ==
               if NamesSets(db.store, keys) then Got((|meet|, {} + meet), []) else Thrown
  {
    var cmd, meet, ok := [SINTER] + keys, Intersection(db.store, keys), NamesSets(db.store, keys);
    ExecuteSinter(env, db.store, keys);
    AskedIs(env, db, cmd, db.store, SetAnswer(env, cmd, ok, meet));
    SetAnswerRead(env, cmd, ok, meet, {});
  }

  lemma SunionAnswer(env: Env, db: Db, keys: seq<Bytes>, out: set<Bytes>)
    requires env.Good() && db.queue == None && keys != []
    ensures var join := Union(db.store, keys);
            Asked(env, db, [SUNION] + keys).db == db
            && ReadSet(Asked(env, db, [SUNION] + keys).unread, out) ==
               if NamesSets(db.store, keys) then Got((|join|, out + join), []) else Thrown
  {
    var cmd, join, ok := [SUNION] + keys, Union(db.store, keys), NamesSets(db.store, keys);
    ExecuteSunion(env, db.store, keys);
    AskedIs(env, db, cmd, db.store, SetAnswer(env, cmd, ok, join));
    SetAnswerRead(env, cmd, ok, join, out);
  }

  function PositionsIn(indices: map<int, seq<nat>>, s: int): seq<nat> {
    if s in indices then indices[s] else []
  }

  lemma MgetSent(c: Config, sent: Links, dbs: Dbs, keys: seq<Bytes>, group: map<int, seq<Bytes>>, s: int)
    requires c.Good() && KeyGroups(c, group, keys, |keys|) && AskedOf(c, sent, dbs, MGET, group)
    requires Ready(dbs) && s in group
    ensures s in c.sockets && sent[s].db == dbs[s] && sent[s].pending == [] && group[s] == KeysAt(c, keys, |keys|, s)
    ensures ReadMulti(sent[s].unread) == Got(AllOrMissing(ValuesAt(dbs[s].store, group[s])), [])
  {
    MgetAnswer(c.env, dbs[s], group[s]);
  }

  lemma NothingAdded(vs: set<Bytes>)
    ensures {} + vs == vs
  {}

  lemma SinterSent(c: Config, sent: Links, dbs: Dbs, keys: seq<Bytes>, group: map<int, seq<Bytes>>, s: int)
    requires c.Good() && KeyGroups(c, group, keys, |keys|) && AskedOf(c, sent, dbs, SINTER, group)
    requires Ready(dbs) && s in group
    ensures s in c.sockets && sent[s].db == dbs[s] && sent[s].pending == []
    ensures group[s] == KeysAt(c, keys, |keys|, s) && group[s] != []
    ensures var meet := Intersection(dbs[s].store, group[s]);
            ReadSet(sent[s].unread, {}) ==
            if SetsAt(c, dbs, keys, s) then Got((|meet|, meet), []) else Thrown
  {
    SinterAnswer(c.env, dbs[s], group[s]);
    NothingAdded(Intersection(dbs[s].store, group[s]));
  }

  lemma SunionSent(c: Config, sent: Links, dbs: Dbs, keys: seq<Bytes>, group: map<int, seq<Bytes>>, s: int,
                   out: set<Bytes>)
    requires c.Good() && KeyGroups(c, group, keys, |keys|) && AskedOf(c, sent, dbs, SUNION, group)
    requires Ready(dbs) && s in group
    ensures s in c.sockets && sent[s].db == dbs[s] && sent[s].pending == [] && group[s] == KeysAt(c, keys, |keys|, s)
    ensures var join := Union(dbs[s].store, group[s]);
            ReadSet(sent[s].unread, out) ==
            if SetsAt(c, dbs, keys, s) then Got((|join|, out + join), []) else Thrown
  {
    SunionAnswer(c.env, dbs[s], group[s], out);
  }

  ghost predicate IndexGroups(c: Config, group: map<int, seq<Bytes>>, indices: map<int, seq<nat>>, keys: seq<Bytes>,
                              n: nat)
    requires c.Good() && n <= |keys|
  {
    indices.Keys == group.Keys && forall s :: s in c.sockets ==> PositionsIn(indices, s) == IndicesAt(c, keys, n, s)
  }

  lemma PositionsNext(c: Config, indices: map<int, seq<nat>>, keys: seq<Bytes>, i: nat, t: int)
    requires c.Good() && i < |keys| && PositionsIn(indices, t) == IndicesAt(c, keys, i, t)
    ensures var s := c.Route(keys[i]);
            PositionsIn(indices[s := PositionsIn(indices, s) + [i]], t) == IndicesAt(c, keys, i + 1, t)
  {
    if t != c.Route(keys[i]) {
      assert IndicesAt(c, keys, i, t) + [] == IndicesAt(c, keys, i, t);
    }
  }

  lemma IndexGroupsNext(c: Config, group: map<int, seq<Bytes>>, indices: map<int, seq<nat>>, keys: seq<Bytes>,
                        i: nat, s: int, words: seq<Bytes>)
    requires c.Good() && i < |keys| && IndexGroups(c, group, indices, keys, i) && s == c.Route(keys[i])
    ensures IndexGroups(c, group[s := words], indices[s := PositionsIn(indices, s) + [i]], keys, i + 1)
  {
    var next := indices[s := PositionsIn(indices, s) + [i]];
    assert next.Keys == group[s := words].Keys;
    forall t | t in c.sockets ensures PositionsIn(next, t) == IndicesAt(c, keys, i + 1, t) {
      PositionsNext(c, indices, keys, i, t);
    }
  }

  // ----- msetex -----

  lemma OnesNext(rs: seq<Reply>, i: nat)
    requires i < |rs| && WellFormed(rs[i]) && AllOnes(rs[..i])
    ensures ReadNumber(EncodeReplies(rs[i..]), COLON) ==
            if rs[i].Number? then Got(rs[i].n, EncodeReplies(rs[i + 1..])) else Thrown
    ensures rs[i] == Number(1) ==> AllOnes(rs[..i + 1])
    ensures rs[i] != Number(1) ==> !AllOnes(rs)
  {
    assert rs[i..][1..] == rs[i + 1..];
    IntOnly(rs[i], EncodeReplies(rs[i + 1..]));
    TakeNext(rs, i);
  }

  function CountAt(counts: map<int, nat>, s: int): nat {
    if s in counts then counts[s] else 0
  }

  ghost predicate ExpireGroups(c: Config, group: map<int, seq<Bytes>>, expires: map<int, Bytes>, counts: map<int, nat>,
                               pairs: seq<Pair>, n: nat, seconds: int)
    requires c.Good() && n <= |pairs|
  {
    expires.Keys == group.Keys && counts.Keys == group.Keys
    && forall s :: s in c.sockets ==>
         && TextAt(expires, s) == EncodeCommands(ExpiresAt(c, pairs, n, s, seconds))
         && CountAt(counts, s) == |ExpiresAt(c, pairs, n, s, seconds)|
  }

  lemma ExpireNext(c: Config, expires: map<int, Bytes>, counts: map<int, nat>, pairs: seq<Pair>, i: nat,
                   seconds: int, s: int, t: int)
    requires c.Good() && i < |pairs| && s == c.Route(pairs[i].0)
    requires TextAt(expires, t) == EncodeCommands(ExpiresAt(c, pairs, i, t, seconds))
    requires CountAt(counts, t) == |ExpiresAt(c, pairs, i, t, seconds)|
    ensures TextAt(expires[s := TextAt(expires, s) + EncodeCommand(ExpireOf(pairs[i].0, seconds))], t) ==
            EncodeCommands(ExpiresAt(c, pairs, i + 1, t, seconds))
    ensures CountAt(counts[s := CountAt(counts, s) + 1], t) == |ExpiresAt(c, pairs, i + 1, t, seconds)|
  {
    EncodeSnoc(ExpiresAt(c, pairs, i, t, seconds), ExpireOf(pairs[i].0, seconds));
    if t != s {
      assert ExpiresAt(c, pairs, i, t, seconds) + [] == ExpiresAt(c, pairs, i, t, seconds);
    }
  }

  lemma ExpireGroupsNext(c: Config, group: map<int, seq<Bytes>>, expires: map<int, Bytes>, counts: map<int, nat>,
                         pairs: seq<Pair>, i: nat, seconds: int, s: int, words: seq<Bytes>)
    requires c.Good() && i < |pairs| && ExpireGroups(c, group, expires, counts, pairs, i, seconds)
    requires s == c.Route(pairs[i].0)
    ensures ExpireGroups(c, group[s := words],
                         expires[s := TextAt(expires, s) + EncodeCommand(ExpireOf(pairs[i].0, seconds))],
                         counts[s := CountAt(counts, s) + 1], pairs, i + 1, seconds)
  {
    var texts := expires[s := TextAt(expires, s) + EncodeCommand(ExpireOf(pairs[i].0, seconds))];
    var ns := counts[s := CountAt(counts, s) + 1];
    assert texts.Keys == group[s := words].Keys && ns.Keys == group[s := words].Keys;
    forall t | t in c.sockets
      ensures TextAt(texts, t) == EncodeCommands(ExpiresAt(c, pairs, i + 1, t, seconds))
      ensures CountAt(ns, t) == |ExpiresAt(c, pairs, i + 1, t, seconds)|
    {
      ExpireNext(c, expires, counts, pairs, i, seconds, s, t);
    }
  }

  /** The answers to the EXPIRE commands of one server, given after its MSET. */
  ghost function ExpireReplies(c: Config, dbs: Dbs, pairs: seq<Pair>, seconds: int, s: int): seq<Reply>
    requires c.Good() && Covers(c, dbs) && s in c.sockets
  {
    RunAll(c.env, AfterSets(c, dbs, pairs)[s], ExpiresAt(c, pairs, |pairs|, s, seconds)).1
  }

  ghost function AfterExpires(c: Config, dbs: Dbs, pairs: seq<Pair>, seconds: int): Dbs
    requires c.Good() && Covers(c, dbs)
  {
    map s | s in dbs :: RunAll(c.env, AfterSets(c, dbs, pairs)[s], ExpiresAt(c, pairs, |pairs|, s, seconds)).0
  }

  lemma ExpiryText(c: Config, group: map<int, seq<Bytes>>, expires: map<int, Bytes>, counts: map<int, nat>,
                   pairs: seq<Pair>, seconds: int, s: int)
    requires c.Good() && PairGroups(c, group, pairs, |pairs|) && s in group
    requires ExpireGroups(c, group, expires, counts, pairs, |pairs|, seconds)
    ensures var share := [[MSET] + group[s]] + ExpiresAt(c, pairs, |pairs|, s, seconds);
            EncodeCommand([MSET] + group[s]) + expires[s] == EncodeCommands(share) && NoExec(share)
  {
    var rest := ExpiresAt(c, pairs, |pairs|, s, seconds);
    assert ([[MSET] + group[s]] + rest)[1..] == rest;
    ExpiresNoExec(c, pairs, |pairs|, s, seconds);
  }

  lemma {:induction false} NoExpires(c: Config, pairs: seq<Pair>, n: nat, s: int, seconds: int)
    requires c.Good() && n <= |pairs| && PairsAt(c, pairs, n, s) == []
    ensures ExpiresAt(c, pairs, n, s, seconds) == []
  {
    if n > 0 {
      NoExpires(c, pairs, n - 1, s, seconds);
    }
  }

  /** A server without a pair is left alone. */
  lemma NoExpiry(c: Config, dbs: Dbs, group: map<int, seq<Bytes>>, pairs: seq<Pair>, seconds: int, s: int)
    requires c.Good() && Covers(c, dbs) && PairGroups(c, group, pairs, |pairs|) && s in c.sockets && s !in group
    ensures ExpireReplies(c, dbs, pairs, seconds, s) == [] && AfterExpires(c, dbs, pairs, seconds)[s] == dbs[s]
  {
    assert PairsAt(c, pairs, |pairs|, s) == WordsIn(group, s);
    NoExpires(c, pairs, |pairs|, s, seconds);
  }

  lemma ServedMset(env: Env, db: Db, words: seq<Bytes>, rest: seq<Command>)
    requires words != [] && |words| % 2 == 0 && db.queue == None
    ensures var next := db.(store := SetAll(db.store, words));
            Served(env, db, [[MSET] + words] + rest) ==
            Link(RunAll(env, next, rest).0, [], EncodeReply(Status(OK)) + EncodeReplies(RunAll(env, next, rest).1))
  {
    var next, rs := db.(store := SetAll(db.store, words)), RunAll(env, db.(store := SetAll(db.store, words)), rest).1;
    ExecuteMset(env, db.store, words);
    assert Answer(env, db, [MSET] + words) == (next, Status(OK));
    assert ([[MSET] + words] + rest)[1..] == rest;
    assert ([Status(OK)] + rs)[1..] == rs;
  }

  lemma ExpirySentAt(c: Config, dbs: Dbs, group: map<int, seq<Bytes>>, pairs: seq<Pair>, seconds: int, s: int)
    requires c.Good() && Covers(c, dbs) && Ready(dbs) && PairGroups(c, group, pairs, |pairs|) && s in c.sockets
    ensures var share := if s in group then [[MSET] + group[s]] + ExpiresAt(c, pairs, |pairs|, s, seconds) else [];
            Expected(Served(c.env, dbs[s], share), AfterExpires(c, dbs, pairs, seconds)[s],
                     ExpireReplies(c, dbs, pairs, seconds, s), s in group)
  {
    assert PairsAt(c, pairs, |pairs|, s) == WordsIn(group, s);
    ExpireRepliesWellFormed(c, dbs, pairs, seconds, s);
    if s in group {
      ServedMset(c.env, dbs[s], group[s], ExpiresAt(c, pairs, |pairs|, s, seconds));
    } else {
      NoExpiry(c, dbs, group, pairs, seconds, s);
    }
  }

  lemma ExpireRepliesWellFormed(c: Config, dbs: Dbs, pairs: seq<Pair>, seconds: int, s: int)
    requires c.Good() && Covers(c, dbs) && s in c.sockets
    ensures var rs := ExpireReplies(c, dbs, pairs, seconds, s); forall k :: 0 <= k < |rs| ==> WellFormed(rs[k])
  {
    var cmds := ExpiresAt(c, pairs, |pairs|, s, seconds);
    forall k: nat | k < |cmds| ensures WellFormed(ExpireReplies(c, dbs, pairs, seconds, s)[k]) {
      RunWellFormed(c.env, AfterSets(c, dbs, pairs)[s], cmds, k);
    }
  }

  // ----- putting the answers together -----

  /** Every position whose key lives on one of the servers has its value. */
  ghost predicate HeldIn(c: Config, dbs: Dbs, keys: seq<Bytes>, values: seq<Bytes>, servers: set<int>)
    requires c.Good() && Covers(c, dbs) && |values| == |keys|
  {
    forall i :: 0 <= i < |keys| && c.Route(keys[i]) in servers ==> values[i] == HeldAt(c, dbs, keys[i])
  }

  lemma AllHeld(c: Config, dbs: Dbs, keys: seq<Bytes>, group: map<int, seq<Bytes>>, values: seq<Bytes>)
    requires c.Good() && Covers(c, dbs) && |values| == |keys| && KeyGroups(c, group, keys, |keys|)
    requires HeldIn(c, dbs, keys, values, group.Keys)
    ensures forall i :: 0 <= i < |keys| ==> values[i] == HeldAt(c, dbs, keys[i])
  {
    forall i | 0 <= i < |keys| ensures c.Route(keys[i]) in group.Keys {
      RoutedInGroup(c, group, keys, i);
    }
  }

  /** The inner loop of mget: the values of one server, each stored at the position of its key. */
  method Scatter(c: Config, values: seq<Bytes>, indices: seq<nat>, cur: seq<Bytes>, keys: seq<Bytes>, s: int,
                 ghost dbs: Dbs, ghost done: set<int>)
    returns (r: seq<Bytes>)
    requires c.Good() && Covers(c, dbs) && s in c.sockets && |values| == |keys|
    requires indices == IndicesAt(c, keys, |keys|, s)
    requires cur == AllOrMissing(ValuesAt(dbs[s].store, KeysAt(c, keys, |keys|, s)))
    requires HeldIn(c, dbs, keys, values, done)
    ensures |r| == |keys| && HeldIn(c, dbs, keys, r, done + {s})
  {
    r := values;
    for j := 0 to |cur|
      invariant |r| == |keys|
      invariant forall i :: 0 <= i < |keys| ==>
                  r[i] == if i in indices[..j] then HeldAt(c, dbs, keys[i]) else values[i]
    {
      SlotOf(c, dbs, keys, s, j);
      TakeNext(indices, j);
      r := r[indices[j] := cur[j]];
    }
    assert indices[..|cur|] == indices;
    Scattered(c, dbs, keys, values, r, done, s);
  }

  lemma SlotOf(c: Config, dbs: Dbs, keys: seq<Bytes>, s: int, j: nat)
    requires c.Good() && Covers(c, dbs) && s in c.sockets && j < |IndicesAt(c, keys, |keys|, s)|
    ensures var i := IndicesAt(c, keys, |keys|, s)[j];
            i < |keys| && AllOrMissing(ValuesAt(dbs[s].store, KeysAt(c, keys, |keys|, s)))[j] == HeldAt(c, dbs, keys[i])
  {
    IndexAt(c, keys, |keys|, s, j);
    ValueInReply(dbs[s].store, KeysAt(c, keys, |keys|, s), j);
  }

  lemma Scattered(c: Config, dbs: Dbs, keys: seq<Bytes>, values: seq<Bytes>, r: seq<Bytes>, done: set<int>, s: int)
    requires c.Good() && Covers(c, dbs) && |values| == |keys| == |r| && HeldIn(c, dbs, keys, values, done)
    requires forall i :: 0 <= i < |keys| ==>
               r[i] == if i in IndicesAt(c, keys, |keys|, s) then HeldAt(c, dbs, keys[i]) else values[i]
    ensures HeldIn(c, dbs, keys, r, done + {s})
  {
    forall i | 0 <= i < |keys| && c.Route(keys[i]) in done + {s} ensures r[i] == HeldAt(c, dbs, keys[i]) {
      IndexCovered(c, keys, |keys|, s, i);
    }
  }

  lemma RoutedInGroup(c: Config, group: map<int, seq<Bytes>>, keys: seq<Bytes>, i: nat)
    requires c.Good() && i < |keys| && KeyGroups(c, group, keys, |keys|)
    ensures c.Route(keys[i]) in group
  {
    var s := c.Route(keys[i]);
    assert keys[..|keys|] == keys;
    KeyAt(c, keys, |keys|, s, keys[i]);
  }

  /** The members common to the sets of all keys on some servers. */
  ghost predicate Meets(c: Config, dbs: Dbs, keys: seq<Bytes>, servers: set<int>, result: set<Bytes>)
    requires c.Good() && Covers(c, dbs)
  {
    forall v :: v in result <==> InAllAt(c, dbs, keys, servers, v)
  }

  lemma FirstMeets(c: Config, dbs: Dbs, keys: seq<Bytes>, s: int, cur: set<Bytes>)
    requires c.Good() && Covers(c, dbs) && s in c.sockets && KeysAt(c, keys, |keys|, s) != []
    requires cur == Intersection(dbs[s].store, KeysAt(c, keys, |keys|, s))
    ensures Meets(c, dbs, keys, {s}, cur)
  {
    forall v ensures v in cur <==> InAllAt(c, dbs, keys, {s}, v) {
      IntersectionAt(c, dbs, keys, s, v);
    }
  }

  /** The branch of sinter on its counter: the first answer is taken as it is, the others narrow it. */
  function Narrow(i: nat, prev: set<Bytes>, cur: set<Bytes>): set<Bytes> {
    if i > 0 then prev * cur else cur
  }

  /** After the answers of some servers: the old content if there were none, else what they have in common. */
  ghost predicate Narrowed(c: Config, dbs: Dbs, keys: seq<Bytes>, done: set<int>, i: nat, out: set<Bytes>,
                           result: set<Bytes>)
    requires c.Good() && Covers(c, dbs)
  {
    && (i == 0 <==> done == {})
    && SetsOn(c, dbs, keys, done)
    && if i == 0 then result == out else Meets(c, dbs, keys, done, result)
  }

  lemma NarrowedNext(c: Config, dbs: Dbs, keys: seq<Bytes>, done: set<int>, s: int, i: nat, out: set<Bytes>,
                     prev: set<Bytes>, cur: set<Bytes>)
    requires c.Good() && Covers(c, dbs) && s in c.sockets && KeysAt(c, keys, |keys|, s) != []
    requires cur == Intersection(dbs[s].store, KeysAt(c, keys, |keys|, s)) && SetsAt(c, dbs, keys, s)
    requires Narrowed(c, dbs, keys, done, i, out, prev)
    ensures Narrowed(c, dbs, keys, done + {s}, i + 1, out, Narrow(i, prev, cur))
  {
    SetsNext(c, dbs, keys, done, s);
    FirstMeets(c, dbs, keys, s, cur);
    if i > 0 {
      MeetsJoin(c, dbs, keys, done, {s}, prev, cur);
    } else {
      assert done + {s} == {s};
    }
  }

  lemma MeetsJoin(c: Config, dbs: Dbs, keys: seq<Bytes>, a: set<int>, b: set<int>, x: set<Bytes>, y: set<Bytes>)
    requires c.Good() && Covers(c, dbs) && Meets(c, dbs, keys, a, x) && Meets(c, dbs, keys, b, y)
    ensures Meets(c, dbs, keys, a + b, x * y)
  {
    forall v ensures v in x * y <==> InAllAt(c, dbs, keys, a + b, v) {
      AllAtJoin(c, dbs, keys, a, b, v);
    }
  }

  lemma AllMet(c: Config, dbs: Dbs, keys: seq<Bytes>, group: map<int, seq<Bytes>>, out: set<Bytes>, result: set<Bytes>)
    requires c.Good() && Covers(c, dbs) && KeyGroups(c, group, keys, |keys|)
    requires exists i: nat :: Narrowed(c, dbs, keys, group.Keys, i, out, result)
    ensures keys == [] ==> result == out
    ensures keys != [] ==> forall v :: v in result <==> forall key :: key in keys ==> v in SetOf(c, dbs, key)
  {
    AllGrouped(c, group, keys);
    forall v ensures InAllAt(c, dbs, keys, group.Keys, v) <==> forall key :: key in keys ==> v in SetOf(c, dbs, key) {}
  }

  /** What was there before, and the members of any of the sets of keys on some servers. */
  ghost predicate Joins(c: Config, dbs: Dbs, keys: seq<Bytes>, servers: set<int>, out: set<Bytes>, result: set<Bytes>)
    requires c.Good() && Covers(c, dbs)
  {
    forall v :: v in result <==> v in out || InSomeAt(c, dbs, keys, servers, v)
  }

  lemma JoinsNext(c: Config, dbs: Dbs, keys: seq<Bytes>, done: set<int>, s: int, out: set<Bytes>,
                  prev: set<Bytes>, cur: set<Bytes>)
    requires c.Good() && Covers(c, dbs) && s in c.sockets && Joins(c, dbs, keys, done, out, prev)
    requires cur == Union(dbs[s].store, KeysAt(c, keys, |keys|, s))
    ensures Joins(c, dbs, keys, done + {s}, out, prev + cur)
  {
    forall v ensures v in prev + cur <==> v in out || InSomeAt(c, dbs, keys, done + {s}, v) {
      UnionAt(c, dbs, keys, s, v);
      SomeAtJoin(c, dbs, keys, done, {s}, v);
    }
  }

  ghost predicate Joined(c: Config, dbs: Dbs, keys: seq<Bytes>, done: set<int>, out: set<Bytes>, result: set<Bytes>)
    requires c.Good() && Covers(c, dbs)
  {
    SetsOn(c, dbs, keys, done) && Joins(c, dbs, keys, done, out, result)
  }

  lemma JoinedNext(c: Config, dbs: Dbs, keys: seq<Bytes>, done: set<int>, s: int, out: set<Bytes>,
                   prev: set<Bytes>, cur: set<Bytes>)
    requires c.Good() && Covers(c, dbs) && s in c.sockets && Joined(c, dbs, keys, done, out, prev)
    requires cur == prev + Union(dbs[s].store, KeysAt(c, keys, |keys|, s)) && SetsAt(c, dbs, keys, s)
    ensures Joined(c, dbs, keys, done + {s}, out, cur)
  {
    SetsNext(c, dbs, keys, done, s);
    JoinsNext(c, dbs, keys, done, s, out, prev, Union(dbs[s].store, KeysAt(c, keys, |keys|, s)));
  }

  lemma JoinsFirst(c: Config, dbs: Dbs, keys: seq<Bytes>, s: int, out: set<Bytes>, join: set<Bytes>)
    requires c.Good() && Covers(c, dbs) && s in c.sockets
    requires join == Union(dbs[s].store, KeysAt(c, keys, |keys|, s))
    ensures Joins(c, dbs, keys, {s}, out, out + join)
    ensures out == {} ==> out + join == join
  {
    assert {} + {s} == {s};
    JoinsNext(c, dbs, keys, {}, s, out, out, join);
  }

  lemma AllJoined(c: Config, dbs: Dbs, keys: seq<Bytes>, group: map<int, seq<Bytes>>, out: set<Bytes>,
                  result: set<Bytes>)
    requires c.Good() && Covers(c, dbs) && KeyGroups(c, group, keys, |keys|)
    requires Joins(c, dbs, keys, group.Keys, out, result)
    ensures forall v :: v in result <==> v in out || exists key :: key in keys && v in SetOf(c, dbs, key)
  {
    AllGrouped(c, group, keys);
    forall v ensures InSomeAt(c, dbs, keys, group.Keys, v) <==> exists key :: key in keys && v in SetOf(c, dbs, key) {}
  }

  lemma AllGrouped(c: Config, group: map<int, seq<Bytes>>, keys: seq<Bytes>)
    requires c.Good() && KeyGroups(c, group, keys, |keys|)
    ensures group.Keys == {} <==> keys == []
    ensures forall key :: key in keys ==> c.Route(key) in group.Keys
  {
    forall key | key in keys ensures c.Route(key) in group.Keys {
      var i :| 0 <= i < |keys| && keys[i] == key;
      RoutedInGroup(c, group, keys, i);
    }
    if keys != [] {
      assert keys[0] in keys;
    } else {
      forall s ensures s !in group.Keys {
        assert s in c.sockets ==> KeysAt(c, keys, 0, s) == [];
      }
    }
  }

  lemma {:induction false} AllKeysAt(c: Config, keys: seq<Bytes>, n: nat, s: int, t: int)
    requires c.Good() && n <= |keys| && forall k :: 0 <= k < |keys| ==> c.Route(keys[k]) == s
    ensures KeysAt(c, keys, n, t) == if t == s then keys[..n] else []
  {
    if n > 0 {
      AllKeysAt(c, keys, n - 1, s, t);
      TakeNext(keys, n - 1);
    }
  }

  lemma OneGroup(c: Config, keys: seq<Bytes>, s: int)
    requires c.Good() && s in c.sockets && keys != []
    requires forall k :: 0 <= k < |keys| ==> c.Route(keys[k]) == s
    ensures KeyGroups(c, map[s := keys], keys, |keys|)
  {
    forall t | t in c.sockets ensures KeysAt(c, keys, |keys|, t) == WordsIn(map[s := keys], t) {
      AllKeysAt(c, keys, |keys|, s, t);
      assert keys[..|keys|] == keys;
    }
  }
}
