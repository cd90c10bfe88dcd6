/** One logical store, or one logical family of sets, spread over the servers by key. */
module Sharding {
  import opened Text
  import opened Decimal
  import opened Resp
  import opened Framing
  import opened Server
  import opened Batches

  // ----- keys by server -----

  /** Of the first `n` keys, those that live on one server, in order. */
  function KeysAt(c: Config, keys: seq<Bytes>, n: nat, s: int): seq<Bytes>
    requires c.Good() && n <= |keys|
  {
    if n == 0 then []
    else KeysAt(c, keys, n - 1, s) + if c.Route(keys[n - 1]) == s then [keys[n - 1]] else []
  }

  /** Where those keys stand in the list. */
  function IndicesAt(c: Config, keys: seq<Bytes>, n: nat, s: int): (r: seq<nat>)
    requires c.Good() && n <= |keys|
    ensures |r| == |KeysAt(c, keys, n, s)|
  {
    if n == 0 then []
    else IndicesAt(c, keys, n - 1, s) + if c.Route(keys[n - 1]) == s then [n - 1] else []
  }

  lemma {:induction false} KeyAt(c: Config, keys: seq<Bytes>, n: nat, s: int, key: Bytes)
    requires c.Good() && n <= |keys|
    ensures key in KeysAt(c, keys, n, s) <==> key in keys[..n] && c.Route(key) == s
  {
    if n > 0 {
      KeyAt(c, keys, n - 1, s, key);
      TakeNext(keys, n - 1);
    }
  }

  lemma {:induction false} IndexAt(c: Config, keys: seq<Bytes>, n: nat, s: int, j: nat)
    requires c.Good() && n <= |keys| && j < |IndicesAt(c, keys, n, s)|
    ensures var i := IndicesAt(c, keys, n, s)[j];
            i < n && keys[i] == KeysAt(c, keys, n, s)[j] && c.Route(keys[i]) == s
  {
    if j < |IndicesAt(c, keys, n - 1, s)| {
      IndexAt(c, keys, n - 1, s, j);
    }
  }

  /** The index lists partition the positions: each position is listed, under its own server only. */
  lemma {:induction false} IndexCovered(c: Config, keys: seq<Bytes>, n: nat, s: int, i: nat)
    requires c.Good() && i < n <= |keys|
    ensures i in IndicesAt(c, keys, n, s) <==> c.Route(keys[i]) == s
  {
    if i < n - 1 {
      IndexCovered(c, keys, n - 1, s, i);
    } else {
      var before := IndicesAt(c, keys, n - 1, s);
      forall j: nat | j < |before| ensures before[j] < n - 1 {
        IndexAt(c, keys, n - 1, s, j);
      }
    }
  }

  lemma {:induction false} IndicesIncrease(c: Config, keys: seq<Bytes>, n: nat, s: int, j: nat, k: nat)
    requires c.Good() && n <= |keys| && j < k < |IndicesAt(c, keys, n, s)|
    ensures IndicesAt(c, keys, n, s)[j] < IndicesAt(c, keys, n, s)[k]
  {
    if k < |IndicesAt(c, keys, n - 1, s)| {
      IndicesIncrease(c, keys, n - 1, s, j, k);
    } else {
      IndexAt(c, keys, n - 1, s, j);
    }
  }

  /** A map from sockets to the keys that live there, built from the first `n` keys. */
  ghost predicate KeyGroups(c: Config, group: map<int, seq<Bytes>>, keys: seq<Bytes>, n: nat)
    requires c.Good() && n <= |keys|
  {
    && (forall s :: s in group ==> s in c.sockets && group[s] != [])
    && (forall s :: s in c.sockets ==> KeysAt(c, keys, n, s) == WordsIn(group, s))
  }

  function WordsIn(group: map<int, seq<Bytes>>, s: int): seq<Bytes> {
    if s in group then group[s] else []
  }

  lemma KeyGroupsNext(c: Config, group: map<int, seq<Bytes>>, keys: seq<Bytes>, i: nat)
    requires c.Good() && i < |keys| && KeyGroups(c, group, keys, i)
    ensures var s := c.Route(keys[i]);
            KeyGroups(c, group[s := WordsIn(group, s) + [keys[i]]], keys, i + 1)
  {
    var s := c.Route(keys[i]);
    var next := group[s := WordsIn(group, s) + [keys[i]]];
    forall t | t in c.sockets ensures KeysAt(c, keys, i + 1, t) == WordsIn(next, t) {
      if t != s {
        assert KeysAt(c, keys, i, t) + [] == KeysAt(c, keys, i, t);
      }
    }
  }

  // ----- pairs by server -----

  type Pair = (Bytes, Bytes)

  /** The words of an MSET to one server: its keys and values among the first `n` pairs. */
  function PairsAt(c: Config, pairs: seq<Pair>, n: nat, s: int): (r: seq<Bytes>)
    requires c.Good() && n <= |pairs|
    ensures |r| % 2 == 0
  {
    if n == 0 then []
    else
      PairsAt(c, pairs, n - 1, s)
      + if c.Route(pairs[n - 1].0) == s then [pairs[n - 1].0, pairs[n - 1].1] else []
  }

  ghost predicate PairGroups(c: Config, group: map<int, seq<Bytes>>, pairs: seq<Pair>, n: nat)
    requires c.Good() && n <= |pairs|
  {
    && (forall s :: s in group ==> s in c.sockets && group[s] != [])
    && (forall s :: s in c.sockets ==> PairsAt(c, pairs, n, s) == WordsIn(group, s))
  }

  lemma PairGroupsNext(c: Config, group: map<int, seq<Bytes>>, pairs: seq<Pair>, i: nat)
    requires c.Good() && i < |pairs| && PairGroups(c, group, pairs, i)
    ensures var s := c.Route(pairs[i].0);
            PairGroups(c, group[s := WordsIn(group, s) + [pairs[i].0, pairs[i].1]], pairs, i + 1)
  {
    var s := c.Route(pairs[i].0);
    var next := group[s := WordsIn(group, s) + [pairs[i].0, pairs[i].1]];
    forall t | t in c.sockets ensures PairsAt(c, pairs, i + 1, t) == WordsIn(next, t) {
      if t != s {
        assert PairsAt(c, pairs, i, t) + [] == PairsAt(c, pairs, i, t);
      }
    }
  }

  // ----- one logical store -----

  function ItemAt(store: Store, key: Bytes): Option<Item> {
    if key in store then Some(store[key]) else None
  }

  /** Each key's own server holds what the logical store holds. */
  ghost predicate Represents(c: Config, dbs: Dbs, logical: Store)
    requires c.Good() && Covers(c, dbs)
  {
    forall key :: ItemAt(dbs[c.Route(key)].store, key) == ItemAt(logical, key)
  }

  /** The pairs set one by one, in order. */
  function SetEach(store: Store, pairs: seq<Pair>, n: nat): Store
    requires n <= |pairs|
  {
    if n == 0 then store else SetEach(store, pairs, n - 1)[pairs[n - 1].0 := Str(pairs[n - 1].1)]
  }

  lemma {:induction false} SetAllSnoc(store: Store, args: seq<Bytes>, key: Bytes, value: Bytes)
    requires |args| % 2 == 0
    ensures SetAll(store, args + [key, value]) == SetAll(store, args)[key := Str(value)]
    decreases |args|
  {
    if args == [] {
      assert args + [key, value] == [key, value];
      assert [key, value][2..] == [];
    } else {
      assert (args + [key, value])[2..] == args[2..] + [key, value];
      SetAllSnoc(store[args[0] := Str(args[1])], args[2..], key, value);
    }
  }

  lemma {:induction false} PairsLand(c: Config, store: Store, logical: Store, pairs: seq<Pair>, n: nat, key: Bytes)
    requires c.Good() && n <= |pairs|
    requires ItemAt(store, key) == ItemAt(logical, key)
    ensures ItemAt(SetAll(store, PairsAt(c, pairs, n, c.Route(key))), key) == ItemAt(SetEach(logical, pairs, n), key)
  {
    if n > 0 {
      var s := c.Route(key);
      var (k, v) := pairs[n - 1];
      PairsLand(c, store, logical, pairs, n - 1, key);
      if c.Route(k) == s {
        SetAllSnoc(store, PairsAt(c, pairs, n - 1, s), k, v);
      } else {
        assert PairsAt(c, pairs, n - 1, s) + [] == PairsAt(c, pairs, n - 1, s);
      }
    }
  }

  /** The servers after each has stored its share. */
  ghost function AfterSets(c: Config, dbs: Dbs, pairs: seq<Pair>): (r: Dbs)
    requires c.Good() && Covers(c, dbs)
    ensures Covers(c, r)
  {
    map s | s in dbs :: dbs[s].(store := SetAll(dbs[s].store, PairsAt(c, pairs, |pairs|, s)))
  }

  /** Sharded or not, setting the pairs in order gives the same store. */
  lemma AfterSetsRepresents(c: Config, dbs: Dbs, pairs: seq<Pair>, logical: Store)
    requires c.Good() && Covers(c, dbs) && Represents(c, dbs, logical)
    ensures Represents(c, AfterSets(c, dbs, pairs), SetEach(logical, pairs, |pairs|))
  {
    var after := AfterSets(c, dbs, pairs);
    forall key ensures ItemAt(after[c.Route(key)].store, key) == ItemAt(SetEach(logical, pairs, |pairs|), key) {
      PairsLand(c, dbs[c.Route(key)].store, logical, pairs, |pairs|, key);
    }
  }

  // ----- sets -----

  /** The set a key names, on the server it lives on. */
  function SetOf(c: Config, dbs: Dbs, key: Bytes): set<Bytes>
    requires c.Good() && Covers(c, dbs)
  {
    MembersAt(dbs[c.Route(key)].store, key)
  }

  ghost predicate AllNameSets(c: Config, dbs: Dbs, keys: seq<Bytes>)
    requires c.Good() && Covers(c, dbs)
  {
    forall key :: key in keys ==> NamesSets(dbs[c.Route(key)].store, [key])
  }

  lemma {:induction false} InUnion(store: Store, keys: seq<Bytes>, v: Bytes)
    ensures v in Union(store, keys) <==> exists key :: key in keys && v in MembersAt(store, key)
  {
    if keys != [] {
      InUnion(store, keys[1..], v);
      assert forall key :: key in keys <==> key == keys[0] || key in keys[1..];
    }
  }

  lemma {:induction false} InIntersection(store: Store, keys: seq<Bytes>, v: Bytes)
    requires keys != []
    ensures v in Intersection(store, keys) <==> forall key :: key in keys ==> v in MembersAt(store, key)
  {
    assert forall key :: key in keys <==> key == keys[0] || key in keys[1..];
    if |keys| > 1 {
      InIntersection(store, keys[1..], v);
    }
  }

  /** `v` is in the set of every key that lives on one of the servers. */
  ghost predicate InAllAt(c: Config, dbs: Dbs, keys: seq<Bytes>, servers: set<int>, v: Bytes)
    requires c.Good() && Covers(c, dbs)
  {
    forall key :: key in keys && c.Route(key) in servers ==> v in SetOf(c, dbs, key)
  }

  ghost predicate InSomeAt(c: Config, dbs: Dbs, keys: seq<Bytes>, servers: set<int>, v: Bytes)
    requires c.Good() && Covers(c, dbs)
  {
    exists key :: key in keys && c.Route(key) in servers && v in SetOf(c, dbs, key)
  }

  /** The same, read off the shares of some servers. */
  ghost predicate SetsOn(c: Config, dbs: Dbs, keys: seq<Bytes>, servers: set<int>)
    requires c.Good() && Covers(c, dbs)
  {
    forall s :: s in servers && s in c.sockets ==> SetsAt(c, dbs, keys, s)
  }

  ghost predicate SetsAt(c: Config, dbs: Dbs, keys: seq<Bytes>, s: int)
    requires c.Good() && Covers(c, dbs) && s in c.sockets
  {
    NamesSets(dbs[s].store, KeysAt(c, keys, |keys|, s))
  }

  lemma SetsNext(c: Config, dbs: Dbs, keys: seq<Bytes>, done: set<int>, s: int)
    requires c.Good() && Covers(c, dbs) && s in c.sockets && SetsOn(c, dbs, keys, done) && SetsAt(c, dbs, keys, s)
    ensures SetsOn(c, dbs, keys, done + {s})
  {}

  lemma SetsMissed(c: Config, dbs: Dbs, keys: seq<Bytes>, servers: set<int>, s: int)
    requires c.Good() && Covers(c, dbs) && s in c.sockets && s in servers && !SetsAt(c, dbs, keys, s)
    ensures !SetsOn(c, dbs, keys, servers)
  {}

  lemma SetsByServer(c: Config, dbs: Dbs, keys: seq<Bytes>, servers: set<int>)
    requires c.Good() && Covers(c, dbs) && forall key :: key in keys ==> c.Route(key) in servers
    ensures SetsOn(c, dbs, keys, servers) <==> AllNameSets(c, dbs, keys)
  {
    if AllNameSets(c, dbs, keys) {
      forall s | s in servers && s in c.sockets ensures SetsAt(c, dbs, keys, s) {
        ShareNamesSets(c, dbs, keys, s);
      }
    }
    if SetsOn(c, dbs, keys, servers) {
      forall key | key in keys ensures NamesSets(dbs[c.Route(key)].store, [key]) {
        assert keys[..|keys|] == keys;
        assert SetsAt(c, dbs, keys, c.Route(key));
        KeyAt(c, keys, |keys|, c.Route(key), key);
      }
    }
  }

  lemma ShareNamesSets(c: Config, dbs: Dbs, keys: seq<Bytes>, s: int)
    requires c.Good() && Covers(c, dbs) && AllNameSets(c, dbs, keys) && s in c.sockets
    ensures NamesSets(dbs[s].store, KeysAt(c, keys, |keys|, s))
  {
    assert keys[..|keys|] == keys;
    forall key | key in KeysAt(c, keys, |keys|, s) && key in dbs[s].store ensures dbs[s].store[key].Members? {
      KeyAt(c, keys, |keys|, s, key);
      assert NamesSets(dbs[c.Route(key)].store, [key]);
      assert key in [key];
    }
  }

  lemma IntersectionAt(c: Config, dbs: Dbs, keys: seq<Bytes>, s: int, v: Bytes)
    requires c.Good() && Covers(c, dbs) && s in c.sockets && KeysAt(c, keys, |keys|, s) != []
    ensures v in Intersection(dbs[s].store, KeysAt(c, keys, |keys|, s)) <==> InAllAt(c, dbs, keys, {s}, v)
  {
    var mine := KeysAt(c, keys, |keys|, s);
    assert keys[..|keys|] == keys;
    InIntersection(dbs[s].store, mine, v);
    forall key ensures key in mine <==> key in keys && c.Route(key) in {s} {
      KeyAt(c, keys, |keys|, s, key);
    }
    assert forall key :: key in mine ==> SetOf(c, dbs, key) == MembersAt(dbs[s].store, key);
  }

  lemma UnionAt(c: Config, dbs: Dbs, keys: seq<Bytes>, s: int, v: Bytes)
    requires c.Good() && Covers(c, dbs) && s in c.sockets
    ensures v in Union(dbs[s].store, KeysAt(c, keys, |keys|, s)) <==> InSomeAt(c, dbs, keys, {s}, v)
  {
    var mine := KeysAt(c, keys, |keys|, s);
    assert keys[..|keys|] == keys;
    InUnion(dbs[s].store, mine, v);
    forall key ensures key in mine <==> key in keys && c.Route(key) in {s} {
      KeyAt(c, keys, |keys|, s, key);
    }
    assert forall key :: key in mine ==> SetOf(c, dbs, key) == MembersAt(dbs[s].store, key);
  }

  lemma AllAtJoin(c: Config, dbs: Dbs, keys: seq<Bytes>, a: set<int>, b: set<int>, v: Bytes)
    requires c.Good() && Covers(c, dbs)
    ensures InAllAt(c, dbs, keys, a + b, v) <==> InAllAt(c, dbs, keys, a, v) && InAllAt(c, dbs, keys, b, v)
  {}

  lemma SomeAtJoin(c: Config, dbs: Dbs, keys: seq<Bytes>, a: set<int>, b: set<int>, v: Bytes)
    requires c.Good() && Covers(c, dbs)
    ensures InSomeAt(c, dbs, keys, a + b, v) <==> InSomeAt(c, dbs, keys, a, v) || InSomeAt(c, dbs, keys, b, v)
  {}

  // ----- lists of values -----

  /** What mget gives for a key: the string its own server holds, or the missing value. */
  function HeldAt(c: Config, dbs: Dbs, key: Bytes): Bytes
    requires c.Good() && Covers(c, dbs)
  {
    OrMissing(ValueAt(dbs[c.Route(key)].store, key))
  }

  lemma {:induction false} ValueInReply(store: Store, keys: seq<Bytes>, j: nat)
    requires j < |keys|
    ensures AllOrMissing(ValuesAt(store, keys))[j] == OrMissing(ValueAt(store, keys[j]))
  {
    var vs := ValuesAt(store, keys);
    assert vs[1..] == ValuesAt(store, keys[1..]);
    if j > 0 {
      ValueInReply(store, keys[1..], j - 1);
    }
  }

  /** The value the last pair for a key sets, if any does. */
  function LastValue(pairs: seq<Pair>, n: nat, key: Bytes): Option<Bytes>
    requires n <= |pairs|
  {
    if n == 0 then None
    else if pairs[n - 1].0 == key then Some(pairs[n - 1].1)
    else LastValue(pairs, n - 1, key)
  }

  lemma {:induction false} LastWins(store: Store, pairs: seq<Pair>, n: nat, key: Bytes)
    requires n <= |pairs|
    ensures ValueAt(SetEach(store, pairs, n), key) ==
            if LastValue(pairs, n, key) == None then ValueAt(store, key) else LastValue(pairs, n, key)
  {
    if n > 0 {
      LastWins(store, pairs, n - 1, key);
    }
  }

  lemma ValueByItem(a: Store, b: Store, key: Bytes)
    requires ItemAt(a, key) == ItemAt(b, key)
    ensures ValueAt(a, key) == ValueAt(b, key)
  {}

  /** What mget reads after an mset: the last value given for the key, else what was there before. */
  lemma MgetAfterMset(c: Config, dbs: Dbs, pairs: seq<Pair>, logical: Store, key: Bytes)
    requires c.Good() && Covers(c, dbs) && Represents(c, dbs, logical)
    ensures HeldAt(c, AfterSets(c, dbs, pairs), key) ==
            var last := LastValue(pairs, |pairs|, key);
            if last == None then HeldAt(c, dbs, key) else last.value
  {
    var after := SetEach(logical, pairs, |pairs|);
    AfterSetsRepresents(c, dbs, pairs, logical);
    ValueByItem(dbs[c.Route(key)].store, logical, key);
    ValueByItem(AfterSets(c, dbs, pairs)[c.Route(key)].store, after, key);
    LastWins(logical, pairs, |pairs|, key);
  }

  // ----- expiry times -----

  function ExpireOf(key: Bytes, seconds: int): Command {
    [EXPIRE, key, PrintInt(seconds)]
  }

  /** The EXPIRE commands of msetex to one server. */
  function ExpiresAt(c: Config, pairs: seq<Pair>, n: nat, s: int, seconds: int): seq<Command>
    requires c.Good() && n <= |pairs|
  {
    if n == 0 then []
    else
      ExpiresAt(c, pairs, n - 1, s, seconds)
      + if c.Route(pairs[n - 1].0) == s then [ExpireOf(pairs[n - 1].0, seconds)] else []
  }

  function NamesOf(pairs: seq<Pair>): (r: seq<Bytes>)
    ensures |r| == |pairs| && forall i :: 0 <= i < |pairs| ==> r[i] == pairs[i].0
  {
    seq(|pairs|, i requires 0 <= i < |pairs| => pairs[i].0)
  }

  lemma ExpireText(key: Bytes, seconds: int)
    ensures ExpireOf(key, seconds) == [Spell("EXPIRE"), key, PrintInt(seconds)]
  {
    NamesSpelled();
  }

  /** For each key of a server, in order: its value in the MSET, and its own EXPIRE. */
  lemma {:induction false} SharesInOrder(c: Config, pairs: seq<Pair>, n: nat, s: int, seconds: int)
    requires c.Good() && n <= |pairs|
    ensures var mine := KeysAt(c, NamesOf(pairs), n, s);
            |ExpiresAt(c, pairs, n, s, seconds)| == |mine| && |PairsAt(c, pairs, n, s)| == 2 * |mine|
  {
    if n > 0 {
      SharesInOrder(c, pairs, n - 1, s, seconds);
    }
  }

  lemma {:induction false} ShareAt(c: Config, pairs: seq<Pair>, n: nat, s: int, seconds: int, j: nat)
    requires c.Good() && n <= |pairs| && j < |KeysAt(c, NamesOf(pairs), n, s)|
    ensures |ExpiresAt(c, pairs, n, s, seconds)| > j && |PairsAt(c, pairs, n, s)| > 2 * j + 1
    ensures var key, i := KeysAt(c, NamesOf(pairs), n, s)[j], IndicesAt(c, NamesOf(pairs), n, s)[j];
            && i < |pairs| && ExpiresAt(c, pairs, n, s, seconds)[j] == [Spell("EXPIRE"), key, PrintInt(seconds)]
            && PairsAt(c, pairs, n, s)[2 * j] == key && PairsAt(c, pairs, n, s)[2 * j + 1] == pairs[i].1
  {
    SharesInOrder(c, pairs, n - 1, s, seconds);
    if j < |KeysAt(c, NamesOf(pairs), n - 1, s)| {
      ShareAt(c, pairs, n - 1, s, seconds, j);
    } else {
      ExpireText(pairs[n - 1].0, seconds);
    }
  }

  /** What a server decodes from its text: MSET with its pairs, then EXPIRE for each of its keys in order. */
  lemma MsetexDecodes(c: Config, pairs: seq<Pair>, s: int, seconds: int, j: nat)
    requires c.Good()
    ensures var mine, words := KeysAt(c, NamesOf(pairs), |pairs|, s), PairsAt(c, pairs, |pairs|, s);
            var text := EncodeCommands([[MSET] + words] + ExpiresAt(c, pairs, |pairs|, s, seconds));
            var (cmds, left) := DecodeCommands(text);
            && left == [] && |cmds| == 1 + |mine| && cmds[0] == [Spell("MSET")] + words
            && (j < |mine| ==> cmds[1 + j] == [Spell("EXPIRE"), mine[j], PrintInt(seconds)])
  {
    CommandsRead([[MSET] + PairsAt(c, pairs, |pairs|, s)] + ExpiresAt(c, pairs, |pairs|, s, seconds));
    SharesInOrder(c, pairs, |pairs|, s, seconds);
    NamesSpelled();
    if j < |KeysAt(c, NamesOf(pairs), |pairs|, s)| {
      ShareAt(c, pairs, |pairs|, s, seconds, j);
    }
  }

  lemma {:induction false} ExpiresNoExec(c: Config, pairs: seq<Pair>, n: nat, s: int, seconds: int)
    requires c.Good() && n <= |pairs|
    ensures NoExec(ExpiresAt(c, pairs, n, s, seconds))
  {
    if n > 0 {
      ExpiresNoExec(c, pairs, n - 1, s, seconds);
    }
  }

  predicate AllOnes(rs: seq<Reply>) {
    forall k :: 0 <= k < |rs| ==> rs[k] == Number(1)
  }

  /** recv_int_reply_ accepts nothing but an integer reply. */
  lemma IntOnly(r: Reply, rest: Bytes)
    requires WellFormed(r)
    ensures ReadNumber(EncodeReply(r) + rest, COLON) == if r.Number? then Got(r.n, rest) else Thrown
  {
    if r.Number? {
      NumberRead(COLON, r.n, rest);
    } else {
      assert (EncodeReply(r) + rest)[0] != COLON;
      OtherPrefix(EncodeReply(r) + rest, COLON);
    }
  }

  lemma {:induction false} RunWellFormed(env: Env, db: Db, cmds: seq<Command>, k: nat)
    requires env.Good() && k < |cmds|
    ensures WellFormed(RunAll(env, db, cmds).1[k])
    decreases k
  {
    AnswerWellFormed(env, db, cmds[0]);
    if k > 0 {
      RunWellFormed(env, Answer(env, db, cmds[0]).0, cmds[1..], k - 1);
    }
  }
}
