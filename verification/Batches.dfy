/**
 * Batches of commands spread over several connections: which command goes where, what each server
 * owes after its share has been sent, and the one-at-a-time execution a batch is measured against.
 */
module Batches {
  import opened Text
  import opened Decimal
  import opened Resp
  import opened Framing
  import opened Wire
  import opened Server

  /** What never changes: the socket of each connection, the hasher, and the servers' behaviour. */
  datatype Config = Config(sockets: seq<int>, hasher: Bytes -> nat, env: Env) {
    ghost predicate Good() {
      && sockets != []
      && (forall i :: 0 <= i < |sockets| ==> sockets[i] > 0)
      && (forall key :: hasher(key) < |sockets|)
      && env.Good()
    }

    /** get_socket for one key. */
    function Route(key: Bytes): (s: int)
      requires Good()
      ensures s in sockets && s > 0
    {
      if |sockets| == 1 then sockets[0] else sockets[hasher(key)]
    }
  }

  /** A lone connection serves every key; of several, the hasher names the one, and no other. */
  lemma RouteByHasher(c: Config, key: Bytes, i: nat)
    requires c.Good() && i < |c.sockets| && forall j, k :: 0 <= j < k < |c.sockets| ==> c.sockets[j] != c.sockets[k]
    ensures c.Route(key) == c.sockets[i] <==> |c.sockets| == 1 || i == c.hasher(key)
  {
    assert c.hasher(key) < |c.sockets|;
  }

  type Links = map<int, Link>

  type Dbs = map<int, Db>

  /** Every connection is up. */
  ghost predicate Covers<T>(c: Config, m: map<int, T>) {
    forall s :: s in c.sockets <==> s in m
  }

  /** Nothing is on its way in either direction. */
  ghost predicate Idle(c: Config, links: Links, dbs: Dbs) {
    Covers(c, links) && Covers(c, dbs) && forall s :: s in c.sockets ==> links[s] == Link(dbs[s], [], [])
  }

  /** A command object: the key it is routed by, and its arguments. */
  datatype Request = Request(key: Bytes, args: Command)

  /** The commands of a batch that go to one socket, in order. */
  function Mine(c: Config, reqs: seq<Request>, s: int): seq<Command>
    requires c.Good()
  {
    if reqs == [] then []
    else if c.Route(reqs[0].key) == s then [reqs[0].args] + Mine(c, reqs[1..], s)
    else Mine(c, reqs[1..], s)
  }

  /** One command at a time, each answered by its own server before the next is sent. */
  function Sequential(c: Config, dbs: Dbs, reqs: seq<Request>): (r: (Dbs, seq<Reply>))
    requires c.Good() && Covers(c, dbs)
    ensures Covers(c, r.0) && |r.1| == |reqs|
    decreases |reqs|
  {
    if reqs == [] then (dbs, [])
    else
      var s := c.Route(reqs[0].key);
      var (db, r) := Answer(c.env, dbs[s], reqs[0].args);
      var (last, rs) := Sequential(c, dbs[s := db], reqs[1..]);
      (last, [r] + rs)
  }

  function Views(rs: seq<Reply>): (vs: seq<ReplyData>)
    ensures |vs| == |rs|
  {
    if rs == [] then [] else [ClientView(rs[0])] + Views(rs[1..])
  }

  /** A batch is one command, and then the others where the first one left off. */
  lemma SequentialOne(c: Config, dbs: Dbs, req: Request)
    requires c.Good() && Covers(c, dbs)
    ensures var s := c.Route(req.key);
            var (db, r) := Answer(c.env, dbs[s], req.args);
            Sequential(c, dbs, [req]) == (dbs[s := db], [r])
  {
    var s := c.Route(req.key);
    var (db, r) := Answer(c.env, dbs[s], req.args);
    assert [req][1..] == [] && Sequential(c, dbs[s := db], []) == (dbs[s := db], []);
    assert [r] + [] == [r];
  }

  lemma {:induction false} SequentialConcat(c: Config, dbs: Dbs, a: seq<Request>, b: seq<Request>)
    requires c.Good() && Covers(c, dbs)
    ensures var (mid, rs) := Sequential(c, dbs, a);
            var (last, more) := Sequential(c, mid, b);
            Sequential(c, dbs, a + b) == (last, rs + more)
    decreases |a|
  {
    if a == [] {
      assert a + b == b;
      assert [] + Sequential(c, dbs, b).1 == Sequential(c, dbs, b).1;
    } else {
      var s := c.Route(a[0].key);
      var (db, r) := Answer(c.env, dbs[s], a[0].args);
      assert (a + b)[1..] == a[1..] + b && (a + b)[0] == a[0];
      SequentialConcat(c, dbs[s := db], a[1..], b);
      var (mid, rs) := Sequential(c, dbs[s := db], a[1..]);
      Assoc([r], rs, Sequential(c, mid, b).1);
    }
  }

  lemma {:induction false} ViewAt(rs: seq<Reply>, k: nat)
    requires k < |rs|
    ensures Views(rs)[k] == ClientView(rs[k])
  {
    if k > 0 {
      ViewAt(rs[1..], k - 1);
    }
  }

  predicate WithoutExec(reqs: seq<Request>) {
    forall k :: 0 <= k < |reqs| ==> reqs[k].args != [EXEC]
  }

  /** Each connection holds the replies to its share of a batch. */
  ghost predicate Outstanding(c: Config, links: Links, dbs: Dbs, reqs: seq<Request>)
    requires c.Good()
  {
    Covers(c, links) && Covers(c, dbs)
    && forall s :: s in c.sockets ==> links[s] == Served(c.env, dbs[s], Mine(c, reqs, s))
  }

  // ----- batches -----

  lemma {:induction false} MineWithoutExec(c: Config, reqs: seq<Request>, s: int)
    requires c.Good() && WithoutExec(reqs)
    ensures NoExec(Mine(c, reqs, s))
  {
    if reqs != [] {
      MineWithoutExec(c, reqs[1..], s);
    }
  }

  lemma {:induction false} MineSnoc(c: Config, reqs: seq<Request>, last: Request, s: int)
    requires c.Good()
    ensures Mine(c, reqs + [last], s) == Mine(c, reqs, s) + if c.Route(last.key) == s then [last.args] else []
  {
    if reqs == [] {
      assert reqs + [last] == [last];
      assert [last][1..] == [];
    } else {
      assert (reqs + [last])[1..] == reqs[1..] + [last];
      MineSnoc(c, reqs[1..], last, s);
    }
  }

  lemma {:induction false} EncodeSnoc(cmds: seq<Command>, last: Command)
    ensures EncodeCommands(cmds + [last]) == EncodeCommands(cmds) + EncodeCommand(last)
  {
    if cmds == [] {
      assert cmds + [last] == [last];
      assert [last][1..] == [];
      assert EncodeCommands([last]) == EncodeCommand(last) + [];
    } else {
      assert (cmds + [last])[1..] == cmds[1..] + [last];
      EncodeSnoc(cmds[1..], last);
      Assoc(EncodeCommand(cmds[0]), EncodeCommands(cmds[1..]), EncodeCommand(last));
    }
  }

  /** The text sent to each socket is the encoding of its share. */
  ghost predicate Grouped(c: Config, group: map<int, Bytes>, reqs: seq<Request>)
    requires c.Good()
  {
    && (forall s :: s in group ==> s in c.sockets)
    && (forall s :: s in c.sockets ==> (s in group <==> Mine(c, reqs, s) != []))
    && (forall s :: s in group ==> group[s] == EncodeCommands(Mine(c, reqs, s)))
  }

  function TextAt(group: map<int, Bytes>, s: int): Bytes {
    if s in group then group[s] else []
  }

  lemma GroupedAt(c: Config, group: map<int, Bytes>, reqs: seq<Request>, last: Request, t: int)
    requires c.Good() && Grouped(c, group, reqs) && t in c.sockets
    ensures var s := c.Route(last.key);
            var next := group[s := TextAt(group, s) + EncodeCommand(last.args)];
            (t in next <==> Mine(c, reqs + [last], t) != [])
            && (t in next ==> next[t] == EncodeCommands(Mine(c, reqs + [last], t)))
  {
    MineSnoc(c, reqs, last, t);
    EncodeSnoc(Mine(c, reqs, t), last.args);
    assert Mine(c, reqs, t) + [] == Mine(c, reqs, t);
  }

  lemma GroupedNext(c: Config, group: map<int, Bytes>, reqs: seq<Request>, last: Request)
    requires c.Good() && Grouped(c, group, reqs)
    ensures var s := c.Route(last.key);
            Grouped(c, group[s := TextAt(group, s) + EncodeCommand(last.args)], reqs + [last])
  {
    forall t | t in c.sockets
      ensures var s := c.Route(last.key);
              var next := group[s := TextAt(group, s) + EncodeCommand(last.args)];
              (t in next <==> Mine(c, reqs + [last], t) != [])
              && (t in next ==> next[t] == EncodeCommands(Mine(c, reqs + [last], t)))
    {
      GroupedAt(c, group, reqs, last, t);
    }
  }

  lemma MineNext(c: Config, reqs: seq<Request>, s: int)
    requires c.Good() && reqs != []
    ensures Mine(c, reqs, s) ==
            if c.Route(reqs[0].key) == s then [reqs[0].args] + Mine(c, reqs[1..], s) else Mine(c, reqs[1..], s)
  {}

  lemma MineHead(c: Config, dbs: Dbs, reqs: seq<Request>)
    requires c.Good() && Covers(c, dbs) && reqs != []
    ensures var s := c.Route(reqs[0].key);
            var (db, r) := Answer(c.env, dbs[s], reqs[0].args);
            var rest := Served(c.env, db, Mine(c, reqs[1..], s));
            ReadReply(Served(c.env, dbs[s], Mine(c, reqs, s)).unread) == Got(ClientView(r), rest.unread)
            && Served(c.env, dbs[s], Mine(c, reqs, s)) ==
               rest.(unread := Served(c.env, dbs[s], Mine(c, reqs, s)).unread)
  {
    var s := c.Route(reqs[0].key);
    MineNext(c, reqs, s);
    assert Mine(c, reqs, s)[1..] == Mine(c, reqs[1..], s);
    NextReply(c.env, dbs[s], Mine(c, reqs, s));
  }

  /** Reading one reply where the next command of the batch went. */
  lemma OutstandingNext(c: Config, links: Links, dbs: Dbs, reqs: seq<Request>, after: Links)
    requires c.Good() && reqs != [] && Outstanding(c, links, dbs, reqs)
    requires var s := c.Route(reqs[0].key);
             var db := Answer(c.env, dbs[s], reqs[0].args).0;
             after == links[s := links[s].(unread := Served(c.env, db, Mine(c, reqs[1..], s)).unread)]
    ensures var s := c.Route(reqs[0].key);
            Outstanding(c, after, dbs[s := Answer(c.env, dbs[s], reqs[0].args).0], reqs[1..])
  {
    var s := c.Route(reqs[0].key);
    var now := dbs[s := Answer(c.env, dbs[s], reqs[0].args).0];
    MineHead(c, dbs, reqs);
    forall t | t in c.sockets ensures after[t] == Served(c.env, now[t], Mine(c, reqs[1..], t)) {
      MineNext(c, reqs, t);
    }
  }

  lemma OutstandingDone(c: Config, links: Links, dbs: Dbs)
    requires c.Good() && Outstanding(c, links, dbs, [])
    ensures Idle(c, links, dbs)
  {}

  lemma Inhabited(todo: set<int>)
    ensures todo == {} || exists s :: s in todo
  {
    if forall s :: s !in todo {
      assert todo == {};
    }
  }

  lemma SequentialNext(c: Config, dbs: Dbs, reqs: seq<Request>, i: nat, out: seq<ReplyData>)
    requires c.Good() && Covers(c, dbs) && i < |reqs|
    ensures var s := c.Route(reqs[i].key);
            var (db, r) := Answer(c.env, dbs[s], reqs[i].args);
            var rest := Sequential(c, dbs[s := db], reqs[i + 1..]);
            Sequential(c, dbs, reqs[i..]).0 == rest.0
            && out + Views(Sequential(c, dbs, reqs[i..]).1) == out + [ClientView(r)] + Views(rest.1)
  {
    assert reqs[i..][1..] == reqs[i + 1..];
    var s := c.Route(reqs[i].key);
    var (db, r) := Answer(c.env, dbs[s], reqs[i].args);
    var rest := Sequential(c, dbs[s := db], reqs[i + 1..]);
    assert Sequential(c, dbs, reqs[i..]).1 == [r] + rest.1;
    assert ([r] + rest.1)[1..] == rest.1;
    Assoc(out, [ClientView(r)], Views(rest.1));
  }

  // ----- one text for every connection -----

  function ShareOf(share: map<int, seq<Command>>, s: int): seq<Command> {
    if s in share then share[s] else []
  }

  ghost predicate Texts(c: Config, texts: map<int, Bytes>, share: map<int, seq<Command>>) {
    forall s :: (s in texts <==> s in share)
      && (s in texts ==> s in c.sockets && NoExec(share[s]) && texts[s] == EncodeCommands(share[s]))
  }

  /** Each connection holds the replies to its share. */
  ghost predicate Holding(c: Config, links: Links, dbs: Dbs, share: map<int, seq<Command>>) {
    Covers(c, links) && Covers(c, dbs)
    && forall s :: s in c.sockets ==> links[s] == Served(c.env, dbs[s], ShareOf(share, s))
  }

  ghost function Shares(c: Config, group: map<int, Bytes>, reqs: seq<Request>): map<int, seq<Command>>
    requires c.Good()
  {
    map s | s in group :: Mine(c, reqs, s)
  }

  lemma SharesText(c: Config, group: map<int, Bytes>, reqs: seq<Request>)
    requires c.Good() && Grouped(c, group, reqs) && WithoutExec(reqs)
    ensures Texts(c, group, Shares(c, group, reqs))
  {
    forall s | s in group ensures NoExec(Mine(c, reqs, s)) {
      MineWithoutExec(c, reqs, s);
    }
  }

  lemma SharesHeld(c: Config, group: map<int, Bytes>, reqs: seq<Request>, links: Links, dbs: Dbs)
    requires c.Good() && Grouped(c, group, reqs) && Holding(c, links, dbs, Shares(c, group, reqs))
    ensures Outstanding(c, links, dbs, reqs)
  {}

  // ----- transactions -----

  function Accepted(env: Env, cmds: seq<Command>): seq<Command> {
    if cmds == [] then []
    else if env.accepts(cmds[0]) then [cmds[0]] + Accepted(env, cmds[1..])
    else Accepted(env, cmds[1..])
  }

  function QueueReplies(env: Env, cmds: seq<Command>): (rs: seq<Reply>)
    ensures |rs| == |cmds|
  {
    if cmds == [] then []
    else [if env.accepts(cmds[0]) then Status(QUEUED) else Error(env.refusal(cmds[0]))] + QueueReplies(env, cmds[1..])
  }

  /** Between MULTI and EXEC a server only takes note, of the commands it accepts. */
  lemma {:induction false} QueueUp(env: Env, store: Store, queue: seq<Command>, cmds: seq<Command>)
    ensures RunAll(env, Db(store, Some(queue)), cmds) ==
            (Db(store, Some(queue + Accepted(env, cmds))), QueueReplies(env, cmds))
    decreases cmds
  {
    if cmds == [] {
      assert queue + [] == queue;
    } else if env.accepts(cmds[0]) {
      QueueUp(env, store, queue + [cmds[0]], cmds[1..]);
      Assoc(queue, [cmds[0]], Accepted(env, cmds[1..]));
    } else {
      QueueUp(env, store, queue, cmds[1..]);
    }
  }

  predicate AllAccepted(env: Env, cmds: seq<Command>) {
    cmds == [] || (env.accepts(cmds[0]) && AllAccepted(env, cmds[1..]))
  }

  predicate AllQueued(rs: seq<Reply>) {
    forall k :: 0 <= k < |rs| ==> rs[k] == Status(QUEUED)
  }

  lemma {:induction false} QueuedIsAccepted(env: Env, cmds: seq<Command>)
    ensures AllQueued(QueueReplies(env, cmds)) <==> AllAccepted(env, cmds)
    ensures AllAccepted(env, cmds) ==> Accepted(env, cmds) == cmds
  {
    if cmds != [] {
      QueuedIsAccepted(env, cmds[1..]);
      var rs := QueueReplies(env, cmds);
      assert rs[1..] == QueueReplies(env, cmds[1..]);
      assert AllQueued(rs) <==> rs[0] == Status(QUEUED) && AllQueued(rs[1..]) by {
        QueuedHead(rs);
      }
    }
  }

  lemma QueuedHead(rs: seq<Reply>)
    requires rs != []
    ensures AllQueued(rs) <==> rs[0] == Status(QUEUED) && AllQueued(rs[1..])
  {
    if rs[0] == Status(QUEUED) && AllQueued(rs[1..]) {
      forall k | 0 <= k < |rs| ensures rs[k] == Status(QUEUED) {
        assert k > 0 ==> rs[k] == rs[1..][k - 1];
      }
    }
  }

  lemma {:induction false} QueueRepliesWellFormed(env: Env, cmds: seq<Command>)
    requires env.Good()
    ensures forall k :: 0 <= k < |cmds| ==> WellFormed(QueueReplies(env, cmds)[k])
  {
    if cmds != [] {
      QueueRepliesWellFormed(env, cmds[1..]);
    }
  }

  function TransactionText(cmds: seq<Command>): Bytes {
    EncodeCommand([MULTI]) + EncodeCommands(cmds) + EncodeCommand([EXEC])
  }

  /** What a transaction sends back: OK, one answer for each command, and the array of replies of the accepted ones. */
  function TransactionReply(env: Env, db: Db, cmds: seq<Command>): Bytes {
    var queue := Accepted(env, cmds);
    EncodeReply(Status(OK))
    + (EncodeReplies(QueueReplies(env, cmds)) + (ArrayHeader(|queue|) + EncodeReplies(RunAll(env, db, queue).1)))
  }

  lemma FeedTransaction(env: Env, store: Store, cmds: seq<Command>)
    requires NoExec(cmds)
    ensures var db := Db(store, None);
            Feed(env, Link(db, [], []), TransactionText(cmds)) ==
            Link(RunAll(env, db, Accepted(env, cmds)).0, [], TransactionReply(env, db, cmds))
  {
    var db, open, queue := Db(store, None), Db(store, Some([])), Accepted(env, cmds);
    var queued := Db(store, Some(queue));
    var text, end := EncodeCommands(cmds) + EncodeCommand([EXEC]), EncodeCommand([EXEC]);
    var ok, waits := EncodeReply(Status(OK)), EncodeReplies(QueueReplies(env, cmds));
    var rs := ArrayHeader(|queue|) + EncodeReplies(RunAll(env, db, queue).1);
    assert [] + TransactionText(cmds) == EncodeCommand([MULTI]) + text;
    assert [] + ok == ok;
    DrainCommand(env, Link(db, [] + TransactionText(cmds), []), [MULTI], text);
    QueueUp(env, store, [], cmds);
    assert [] + queue == queue;
    DrainBatch(env, open, cmds, end, ok);
    assert end + [] == end;
    DrainCommand(env, Link(queued, end, ok + waits), [EXEC], []);
    DrainNothing(env, Link(RunAll(env, db, queue).0, [], ok + waits + rs));
    Assoc(ok, waits, rs);
  }

  lemma HeaderRead(n: nat, rest: Bytes)
    ensures ReadLine(ArrayHeader(n) + rest) == Got([STAR] + PrintNat(n), rest)
  {
    PrintedOneLine(n);
    LineRead([STAR] + PrintNat(n), rest);
  }

  lemma StatusLineRead(s: Bytes, rest: Bytes)
    requires OneLine(s)
    ensures ReadStatus(EncodeReply(Status(s)) + rest) == Got(s, rest)
  {
    LineRead([PLUS] + s, rest);
    assert ([PLUS] + s)[1..] == s;
  }

  /** recv_single_line_reply_ accepts nothing but a status. */
  lemma StatusOnly(r: Reply, rest: Bytes)
    requires WellFormed(r)
    ensures ReadStatus(EncodeReply(r) + rest) == if r.Status? then Got(r.s, rest) else Thrown
  {
    var s := EncodeReply(r) + rest;
    if r.Status? {
      StatusLineRead(r.s, rest);
    } else {
      assert s[0] != PLUS;
      NoStatus(s);
    }
  }

  lemma NoStatus(s: Bytes)
    requires s != [] && s[0] != PLUS
    ensures ReadStatus(s) == Thrown
  {
    match ReadLine(s)
    case Thrown =>
    case Got(line, _) => if line != [] { assert line[0] == s[0]; }
  }

  lemma {:induction false} MineOfOne(c: Config, reqs: seq<Request>, s: int, t: int)
    requires c.Good() && forall k :: 0 <= k < |reqs| ==> c.Route(reqs[k].key) == s
    ensures Mine(c, reqs, t) == if t == s then ArgsOf(reqs) else []
  {
    if reqs != [] {
      MineOfOne(c, reqs[1..], s, t);
    }
  }

  function ArgsOf(reqs: seq<Request>): (cmds: seq<Command>)
    ensures |cmds| == |reqs|
  {
    if reqs == [] then [] else [reqs[0].args] + ArgsOf(reqs[1..])
  }
}
