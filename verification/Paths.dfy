/** Dotted paths through nested objects: dotget, dotset and dotremove. */
module Paths {
  import opened Text
  import opened Values
  import opened ObjectStore

  const DOT: byte := 46

  /** `strchr(name, '.')`: the first dot, or the length. */
  function DotPos(name: Bytes): (d: nat)
    ensures d <= |name|
    ensures d < |name| ==> name[d] == DOT
  {
    if name == [] || name[0] == DOT then 0 else 1 + DotPos(name[1..])
  }

  predicate Dotted(name: Bytes) {
    DotPos(name) < |name|
  }

  /** The first name of a path, and what is left behind the dot. */
  function First(name: Bytes): Bytes {
    name[..DotPos(name)]
  }

  function Rest(name: Bytes): (r: Bytes)
    requires Dotted(name)
    ensures |r| < |name|
  {
    name[DotPos(name) + 1..]
  }

  // ----- the operations; anything but an object stands for the NULL object pointer -----

  function Child(o: Value, name: Bytes): Option<Value> {
    if o.Obj? then Lookup(o.members, name) else None
  }

  function DotGet(o: Value, name: Bytes): Option<Value>
    decreases |name|
  {
    if !Dotted(name) then Child(o, name)
    else
      match Child(o, First(name))
      case None => None
      case Some(c) => if c.Obj? then DotGet(c, Rest(name)) else None
  }

  function TableOf(o: Value): Table
    requires o.Obj?
  {
    Table(o.members, o.objCap)
  }

  function FromTable(t: Table): Value {
    Obj(t.members, t.cap)
  }

  /** The object with the child at the first member called `name` exchanged, as a write through its pointer does. */
  function WithChild(o: Value, name: Bytes, c: Value): Value
    requires o.Obj? && Has(o.members, name)
  {
    o.(members := o.members[Find(o.members, name) := Member(name, c)])
  }

  function DotSet(o: Value, name: Bytes, v: Value): (r: (bool, Value))
    requires o.Obj?
    ensures r.1.Obj?
    decreases |name|
  {
    if !Dotted(name) then
      var (ok, t) := Set(TableOf(o), name, Some(v));
      (ok, FromTable(t))
    else
      var child := Child(o, First(name));
      if child.Some? && child.value.Obj? then
        var (ok, c) := DotSet(child.value, Rest(name), v);
        (ok, WithChild(o, First(name), c))
      else
        var (added, t) := Add(TableOf(o), First(name), Some(Obj([], 0)));
        if !added then (false, FromTable(t))
        else
          var (ok, c) := DotSet(Obj([], 0), Rest(name), v);
          (ok, FromTable(t.(members := o.members + [Member(First(name), c)])))
  }

  function DotRemove(o: Value, name: Bytes): (r: (bool, Value))
    requires o.Obj?
    ensures r.1.Obj?
    decreases |name|
  {
    if !Dotted(name) then
      var (ok, t) := Remove(TableOf(o), name);
      (ok, FromTable(t))
    else
      var child := Child(o, First(name));
      if child.Some? && child.value.Obj? then
        var (ok, c) := DotRemove(child.value, Rest(name));
        (ok, WithChild(o, First(name), c))
      else (false, o)
  }

  /** A path without a dot is a name. */
  lemma {:induction false} NoDot(name: Bytes)
    requires Spell(".")[0] !in name
    ensures !Dotted(name)
    decreases |name|
  {
    if name != [] {
      NoDot(name[1..]);
    }
  }

  lemma UndottedIsName(o: Value, name: Bytes, v: Value)
    requires o.Obj? && Spell(".")[0] !in name
    ensures DotGet(o, name) == Lookup(o.members, name)
    ensures DotSet(o, name, v) == (Set(TableOf(o), name, Some(v)).0, FromTable(Set(TableOf(o), name, Some(v)).1))
    ensures DotRemove(o, name) == (Remove(TableOf(o), name).0, FromTable(Remove(TableOf(o), name).1))
  {
    NoDot(name);
  }

  // ----- paths as lists of names -----

  function Names(name: Bytes): (r: seq<Bytes>)
    ensures r != []
    decreases |name|
  {
    if Dotted(name) then [First(name)] + Names(Rest(name)) else [name]
  }

  /** One path runs along the other. */
  predicate Related(p: Bytes, q: Bytes) {
    Names(p) <= Names(q) || Names(q) <= Names(p)
  }

  lemma RelatedRest(p: Bytes, q: Bytes)
    ensures First(p) != First(q) ==> !Related(p, q)
    ensures First(p) == First(q) && (!Dotted(p) || !Dotted(q)) ==> Related(p, q)
    ensures First(p) == First(q) && Dotted(p) && Dotted(q) ==> (Related(p, q) <==> Related(Rest(p), Rest(q)))
  {
    NamesHead(p);
    NamesHead(q);
    if First(p) == First(q) && Dotted(p) && Dotted(q) {
      var a, b := Names(Rest(p)), Names(Rest(q));
      PrefixTail(First(p), a, b);
      PrefixTail(First(p), b, a);
    }
  }

  lemma NamesHead(p: Bytes)
    ensures Names(p)[0] == First(p)
    ensures !Dotted(p) ==> Names(p) == [First(p)]
  {
    if !Dotted(p) {
      assert p[..|p|] == p;
    }
  }

  lemma PrefixTail<T>(h: T, a: seq<T>, b: seq<T>)
    ensures [h] + a <= [h] + b <==> a <= b
  {
    if [h] + a <= [h] + b {
      assert ([h] + a)[1..] == a && ([h] + b)[1..] == b;
      assert a == ([h] + b)[..1 + |a|][1..] == b[..|a|];
    }
  }

  // ----- lookups through one level -----

  /** A lookup below the child that the first name of the path finds. */
  function Below(c: Option<Value>, q: Bytes): Option<Value> {
    if !Dotted(q) then c
    else if c.Some? && c.value.Obj? then DotGet(c.value, Rest(q)) else None
  }

  lemma DotGetBelow(o: Value, q: Bytes)
    ensures DotGet(o, q) == Below(Child(o, First(q)), q)
  {
    if !Dotted(q) {
      assert q[..|q|] == q;
    }
  }

  lemma ChildOfWith(o: Value, name: Bytes, c: Value, n: Bytes)
    requires o.Obj? && Has(o.members, name)
    ensures Child(WithChild(o, name, c), n) == if n == name then Some(c) else Child(o, n)
  {
    LookupReplaced(o.members, Find(o.members, name), c, n);
  }

  /** What adding or setting one name does to the children. */
  lemma ChildOfSet(o: Value, name: Bytes, v: Value, n: Bytes)
    requires o.Obj? && Set(TableOf(o), name, Some(v)).0
    ensures Child(FromTable(Set(TableOf(o), name, Some(v)).1), n) == if n == name then Some(v) else Child(o, n)
  {
    if Has(o.members, name) {
      LookupReplaced(o.members, Find(o.members, name), v, n);
    } else {
      LookupAdded(o.members, Member(name, v), n);
    }
  }

  lemma ChildOfAppended(o: Value, name: Bytes, v: Value, cap: nat, n: Bytes)
    requires o.Obj? && !Has(o.members, name)
    ensures Child(Obj(o.members + [Member(name, v)], cap), n) == if n == name then Some(v) else Child(o, n)
  {
    LookupAdded(o.members, Member(name, v), n);
  }

  /** The one child that differs after a dotset along a dotted path, if it succeeds. */
  lemma DotSetChild(o: Value, p: Bytes, v: Value, n: Bytes)
    requires o.Obj? && Dotted(p) && DotSet(o, p, v).0
    ensures var had := Child(o, First(p));
            var sub := if had.Some? && had.value.Obj? then had.value else Obj([], 0);
            && (had == None || had.value.Obj?)
            && DotSet(sub, Rest(p), v).0
            && Child(DotSet(o, p, v).1, n) == if n == First(p) then Some(DotSet(sub, Rest(p), v).1) else Child(o, n)
  {
    var had := Child(o, First(p));
    if had.Some? && had.value.Obj? {
      ChildOfWith(o, First(p), DotSet(had.value, Rest(p), v).1, n);
    } else {
      var t := Add(TableOf(o), First(p), Some(Obj([], 0))).1;
      ChildOfAppended(o, First(p), DotSet(Obj([], 0), Rest(p), v).1, t.cap, n);
    }
  }

  /** The names of a joined path: a first name, or a first name and a shorter joined path. */
  lemma {:induction false} DotPosJoined(q: Bytes, r: Bytes)
    ensures DotPos(q + [DOT] + r) == DotPos(q)
  {
    var p := q + [DOT] + r;
    if q != [] && q[0] != DOT {
      assert p[1..] == q[1..] + [DOT] + r;
      DotPosJoined(q[1..], r);
    }
  }

  lemma JoinedParts(p: Bytes, q: Bytes, r: Bytes)
    requires p == q + [DOT] + r
    ensures Dotted(p) && First(p) == First(q)
    ensures Rest(p) == if Dotted(q) then Rest(q) + [DOT] + r else r
  {
    DotPosJoined(q, r);
    var d := DotPos(q);
    assert p[..d] == q[..d];
    if Dotted(q) {
      assert p[d + 1..] == q[d + 1..] + [DOT] + r;
    } else {
      assert p[d + 1..] == r;
    }
  }

  /** A lookup along a joined path is a lookup in the object the first part leads to. */
  lemma {:induction false} DotGetJoined(o: Value, p: Bytes, q: Bytes, r: Bytes)
    requires p == q + [DOT] + r
    ensures var c := DotGet(o, q); DotGet(o, p) == if c.Some? && c.value.Obj? then DotGet(c.value, r) else None
    decreases |q|
  {
    JoinedParts(p, q, r);
    DotGetBelow(o, p);
    DotGetBelow(o, q);
    var c := Child(o, First(q));
    if Dotted(q) && c.Some? && c.value.Obj? {
      DotGetJoined(c.value, Rest(p), Rest(q), r);
    }
  }

  // ----- dotset -----

  /** After a successful dotset the path leads to the value. */
  lemma {:induction false} DotSetGets(o: Value, p: Bytes, v: Value)
    requires o.Obj? && DotSet(o, p, v).0
    ensures DotGet(DotSet(o, p, v).1, p) == Some(v)
    decreases |p|
  {
    DotGetBelow(DotSet(o, p, v).1, p);
    if Dotted(p) {
      var had := Child(o, First(p));
      DotSetChild(o, p, v, First(p));
      DotSetGets(if had.Some? && had.value.Obj? then had.value else Obj([], 0), Rest(p), v);
    } else {
      assert First(p) == p;
      ChildOfSet(o, p, v, p);
    }
  }

  /** ... and every path that neither runs along it nor below or above it leads where it led. */
  lemma {:induction false} DotSetKeeps(o: Value, p: Bytes, v: Value, q: Bytes)
    requires o.Obj? && DotSet(o, p, v).0 && !Related(p, q)
    ensures DotGet(DotSet(o, p, v).1, q) == DotGet(o, q)
    decreases |p|
  {
    DotGetBelow(DotSet(o, p, v).1, q);
    DotGetBelow(o, q);
    RelatedRest(p, q);
    if !Dotted(p) {
      assert First(p) == p;
      ChildOfSet(o, p, v, First(q));
    } else {
      DotSetChild(o, p, v, First(q));
      if First(p) == First(q) {
        var had := Child(o, First(p));
        DotSetKeeps(if had.Some? && had.value.Obj? then had.value else Obj([], 0), Rest(p), v, Rest(q));
        EmptyHasNothing(Rest(q));
      }
    }
  }

  /** Below the path lies the value, and nothing else. */
  lemma DotSetBelow(o: Value, p: Bytes, v: Value, q: Bytes, r: Bytes)
    requires o.Obj? && DotSet(o, p, v).0 && q == p + [DOT] + r
    ensures DotGet(DotSet(o, p, v).1, q) == if v.Obj? then DotGet(v, r) else None
  {
    DotSetGets(o, p, v);
    DotGetUnder(DotSet(o, p, v).1, q, p, r, v);
  }

  lemma DotGetUnder(o: Value, p: Bytes, q: Bytes, r: Bytes, c: Value)
    requires p == q + [DOT] + r && DotGet(o, q) == Some(c)
    ensures DotGet(o, p) == if c.Obj? then DotGet(c, r) else None
  {
    DotGetJoined(o, p, q, r);
  }

  /** Above it, each object on the way is the old one, or an empty one, with the rest of the path set. */
  lemma {:induction false} DotSetAbove(o: Value, p: Bytes, v: Value, q: Bytes, r: Bytes)
    requires o.Obj? && DotSet(o, p, v).0 && p == q + [DOT] + r
    ensures var had := DotGet(o, q);
            var sub := if had.Some? && had.value.Obj? then had.value else Obj([], 0);
            && (had == None || had.value.Obj?)
            && DotSet(sub, r, v).0 && DotGet(DotSet(o, p, v).1, q) == Some(DotSet(sub, r, v).1)
    decreases |q|
  {
    JoinedParts(p, q, r);
    DotGetBelow(DotSet(o, p, v).1, q);
    DotGetBelow(o, q);
    DotSetChild(o, p, v, First(q));
    if Dotted(q) {
      var had := Child(o, First(p));
      var sub := if had.Some? && had.value.Obj? then had.value else Obj([], 0);
      DotSetAbove(sub, Rest(p), v, Rest(q), r);
      EmptyHasNothing(Rest(q));
    }
  }

  lemma EmptyHasNothing(q: Bytes)
    ensures DotGet(Obj([], 0), q) == None
  {}

  /** No intermediate name holds a non-object, and the object that gets a new name has room. */
  predicate CanSet(o: Value, p: Bytes)
    requires o.Obj?
    decreases |p|
  {
    var child := Child(o, First(p));
    if Dotted(p) && child.Some? then child.value.Obj? && CanSet(child.value, Rest(p))
    else child.Some? || !Full(TableOf(o))
  }

  lemma {:induction false} DotSetSucceeds(o: Value, p: Bytes, v: Value)
    requires o.Obj?
    ensures DotSet(o, p, v).0 <==> CanSet(o, p)
    decreases |p|
  {
    if !Dotted(p) {
      assert First(p) == p;
    } else {
      var child := Child(o, First(p));
      if child.Some? && child.value.Obj? {
        DotSetSucceeds(child.value, Rest(p), v);
      } else {
        DotSetSucceeds(Obj([], 0), Rest(p), v);
        assert Child(Obj([], 0), First(Rest(p))) == None;
      }
    }
  }

  lemma {:induction false} TrimUpdate(members: seq<Member>, i: nat, m: Member)
    requires i < |members|
    ensures TrimMembers(members[i := m]) == TrimMembers(members)[i := Member(m.name, Trim(m.value))]
  {
    if i == 0 {
      assert members[i := m][1..] == members[1..];
    } else {
      assert members[i := m][1..] == members[1..][i - 1 := m];
      TrimUpdate(members[1..], i - 1, m);
    }
  }

  lemma TrimWithChild(o: Value, name: Bytes, c: Value)
    requires o.Obj? && Has(o.members, name)
    requires Trim(c) == Trim(o.members[Find(o.members, name)].value)
    ensures Trim(WithChild(o, name, c)) == Trim(o)
  {
    var i := Find(o.members, name);
    TrimUpdate(o.members, i, Member(name, c));
    TrimMembersAt(o.members, i);
  }

  /** A failing dotset changes no member anywhere, only the size of a block. */
  lemma {:induction false} DotSetFails(o: Value, p: Bytes, v: Value)
    requires o.Obj? && !DotSet(o, p, v).0
    ensures Trim(DotSet(o, p, v).1) == Trim(o)
    decreases |p|
  {
    if Dotted(p) {
      var child := Child(o, First(p));
      if child.Some? && child.value.Obj? {
        DotSetFails(child.value, Rest(p), v);
        TrimWithChild(o, First(p), DotSet(child.value, Rest(p), v).1);
      } else {
        DotSetSucceeds(Obj([], 0), Rest(p), v);
        assert Child(Obj([], 0), First(Rest(p))) == None && CanSet(Obj([], 0), Rest(p));
      }
    }
  }

  function TrimOption(v: Option<Value>): Option<Value> {
    if v == None then None else Some(Trim(v.value))
  }

  lemma {:induction false} LookupTrimmed(members: seq<Member>, n: Bytes)
    ensures Lookup(TrimMembers(members), n) == TrimOption(Lookup(members, n))
  {
    if members != [] && members[0].name != n {
      LookupTrimmed(members[1..], n);
      LookupTail(members, n);
      LookupTail(TrimMembers(members), n);
      assert TrimMembers(members)[1..] == TrimMembers(members[1..]);
    }
  }

  lemma LookupTail(members: seq<Member>, n: Bytes)
    requires members != [] && members[0].name != n
    ensures Lookup(members, n) == Lookup(members[1..], n)
  {}

  lemma {:induction false} DotGetTrimmed(o: Value, q: Bytes)
    ensures DotGet(Trim(o), q) == TrimOption(DotGet(o, q))
    decreases |q|
  {
    DotGetBelow(o, q);
    DotGetBelow(Trim(o), q);
    if o.Obj? {
      LookupTrimmed(o.members, First(q));
      var c := Child(o, First(q));
      if Dotted(q) && c.Some? && c.value.Obj? {
        DotGetTrimmed(c.value, Rest(q));
      }
    }
  }

  /** So every lookup answers as before. */
  lemma FailedDotSetKeepsLookups(o: Value, p: Bytes, v: Value, q: Bytes)
    requires o.Obj? && !DotSet(o, p, v).0
    ensures TrimOption(DotGet(DotSet(o, p, v).1, q)) == TrimOption(DotGet(o, q))
  {
    DotSetFails(o, p, v);
    DotGetTrimmed(o, q);
    DotGetTrimmed(DotSet(o, p, v).1, q);
  }

  // ----- dotremove -----

  /** Every object that paths lead through satisfies the invariant of the object store. */
  ghost predicate Stored(v: Value) {
    v.Obj? ==> Good(TableOf(v)) && forall k :: 0 <= k < |v.members| ==> Stored(v.members[k].value)
  }

  lemma StoredChild(o: Value, n: Bytes)
    requires Stored(o) && Child(o, n).Some?
    ensures Stored(Child(o, n).value)
  {}

  lemma ChildOfRemoved(o: Value, name: Bytes, n: Bytes)
    requires o.Obj? && Good(TableOf(o)) && Has(o.members, name)
    ensures Child(FromTable(Remove(TableOf(o), name).1), n) == if n == name then None else Child(o, n)
  {
    RemovedLookup(TableOf(o), name, n);
  }

  lemma DotRemoveChild(o: Value, p: Bytes, n: Bytes)
    requires o.Obj? && Dotted(p) && DotRemove(o, p).0
    ensures var had := Child(o, First(p));
            && had.Some? && had.value.Obj? && DotRemove(had.value, Rest(p)).0
            && Child(DotRemove(o, p).1, n) ==
               if n == First(p) then Some(DotRemove(had.value, Rest(p)).1) else Child(o, n)
  {
    ChildOfWith(o, First(p), DotRemove(Child(o, First(p)).value, Rest(p)).1, n);
  }

  /** dotremove succeeds exactly when the path leads to a value; a failure changes nothing. */
  lemma {:induction false} DotRemoveSucceeds(o: Value, p: Bytes)
    requires o.Obj? && Stored(o)
    ensures DotRemove(o, p).0 <==> DotGet(o, p).Some?
    ensures !DotRemove(o, p).0 ==> DotRemove(o, p).1 == o
    decreases |p|
  {
    if Dotted(p) {
      var child := Child(o, First(p));
      if child.Some? && child.value.Obj? {
        StoredChild(o, First(p));
        DotRemoveSucceeds(child.value, Rest(p));
        var i := Find(o.members, First(p));
        assert o.members[i := Member(First(p), child.value)] == o.members;
      }
    }
  }

  /** The leaf is gone, with everything below it. */
  lemma {:induction false} DotRemoveErases(o: Value, p: Bytes, q: Bytes)
    requires o.Obj? && Stored(o) && DotRemove(o, p).0 && Names(p) <= Names(q)
    ensures DotGet(DotRemove(o, p).1, q) == None
    decreases |p|
  {
    DotGetBelow(DotRemove(o, p).1, q);
    NamesHead(p);
    NamesHead(q);
    assert Names(p)[0] == Names(q)[0];
    if Dotted(p) {
      assert |Names(q)| >= |Names(p)| > 1;
      assert Dotted(q);
      PrefixTail(First(p), Names(Rest(p)), Names(Rest(q)));
      DotRemoveChild(o, p, First(q));
      StoredChild(o, First(p));
      DotRemoveErases(Child(o, First(p)).value, Rest(p), Rest(q));
    } else {
      assert First(p) == p;
      ChildOfRemoved(o, p, First(q));
    }
  }

  /** Every path that is not on the way leads where it led, although the last member has moved. */
  lemma {:induction false} DotRemoveKeeps(o: Value, p: Bytes, q: Bytes)
    requires o.Obj? && Stored(o) && DotRemove(o, p).0 && !Related(p, q)
    ensures DotGet(DotRemove(o, p).1, q) == DotGet(o, q)
    decreases |p|
  {
    DotGetBelow(DotRemove(o, p).1, q);
    DotGetBelow(o, q);
    RelatedRest(p, q);
    if !Dotted(p) {
      assert First(p) == p;
      ChildOfRemoved(o, p, First(q));
    } else {
      DotRemoveChild(o, p, First(q));
      if First(p) == First(q) {
        StoredChild(o, First(p));
        DotRemoveKeeps(Child(o, First(p)).value, Rest(p), Rest(q));
      }
    }
  }

  /** Above the leaf, every object on the way stays where it is and loses nothing but the rest of the path. */
  lemma {:induction false} DotRemoveAbove(o: Value, p: Bytes, q: Bytes, r: Bytes)
    requires o.Obj? && DotRemove(o, p).0 && p == q + [DOT] + r
    ensures var had := DotGet(o, q);
            && had.Some? && had.value.Obj? && DotRemove(had.value, r).0
            && DotGet(DotRemove(o, p).1, q) == Some(DotRemove(had.value, r).1)
    decreases |q|
  {
    JoinedParts(p, q, r);
    DotGetBelow(DotRemove(o, p).1, q);
    DotGetBelow(o, q);
    DotRemoveChild(o, p, First(q));
    if Dotted(q) {
      DotRemoveAbove(Child(o, First(p)).value, Rest(p), Rest(q), r);
    }
  }

  /** The object that held the leaf loses that one name and keeps every other child. */
  lemma DotRemoveLeaf(o: Value, p: Bytes, q: Bytes, leaf: Bytes, n: Bytes)
    requires o.Obj? && Stored(o) && DotRemove(o, p).0 && p == q + [DOT] + leaf && !Dotted(leaf)
    ensures var was, now := DotGet(o, q), DotGet(DotRemove(o, p).1, q);
            && was.Some? && now.Some? && was.value.Obj? && now.value.Obj?
            && Child(now.value, n) == (if n == leaf then None else Child(was.value, n))
            && |now.value.members| == |was.value.members| - 1
  {
    DotRemoveAbove(o, p, q, leaf);
    StoredAt(o, q);
    ChildOfRemoved(DotGet(o, q).value, leaf, n);
  }

  lemma {:induction false} StoredAt(o: Value, q: Bytes)
    requires Stored(o) && DotGet(o, q).Some?
    ensures Stored(DotGet(o, q).value)
    decreases |q|
  {
    DotGetBelow(o, q);
    StoredChild(o, First(q));
    if Dotted(q) {
      StoredAt(Child(o, First(q)).value, Rest(q));
    }
  }

  // ----- the invariant -----

  lemma StoredWithChild(o: Value, name: Bytes, c: Value)
    requires o.Obj? && Stored(o) && Has(o.members, name) && Stored(c)
    ensures Stored(WithChild(o, name, c))
  {}

  lemma StoredAppended(t: Table, m: Member)
    requires Stored(FromTable(t)) && !Has(t.members, m.name) && Stored(m.value) && |t.members| < t.cap
    ensures Stored(FromTable(t.(members := t.members + [m])))
  {}

  lemma {:induction false} DotSetKeepsStored(o: Value, p: Bytes, v: Value)
    requires o.Obj? && Stored(o) && Stored(v)
    ensures Stored(DotSet(o, p, v).1)
    decreases |p|
  {
    var t, child := TableOf(o), Child(o, First(p));
    if !Dotted(p) {
      if Has(o.members, p) {
        StoredWithChild(o, p, v);
      } else if !Full(t) {
        StoredAppended(Room(t), Member(p, v));
      }
    } else if child.Some? && child.value.Obj? {
      StoredChild(o, First(p));
      DotSetKeepsStored(child.value, Rest(p), v);
      StoredWithChild(o, First(p), DotSet(child.value, Rest(p), v).1);
    } else {
      DotSetKeepsStored(Obj([], 0), Rest(p), v);
      if child == None && !Full(t) {
        StoredAppended(Room(t), Member(First(p), DotSet(Obj([], 0), Rest(p), v).1));
      }
    }
  }

  lemma {:induction false} DotRemoveKeepsStored(o: Value, p: Bytes)
    requires o.Obj? && Stored(o)
    ensures Stored(DotRemove(o, p).1)
    decreases |p|
  {
    if !Dotted(p) {
      RemoveKeepsGood(TableOf(o), p);
    } else {
      var child := Child(o, First(p));
      if child.Some? && child.value.Obj? {
        StoredChild(o, First(p));
        DotRemoveKeepsStored(child.value, Rest(p));
        StoredWithChild(o, First(p), DotRemove(child.value, Rest(p)).1);
      }
    }
  }
}
