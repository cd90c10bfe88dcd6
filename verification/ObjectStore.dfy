/** JSON_Object: two parallel growable blocks that have to behave as a map. */
module ObjectStore {
  import opened Text
  import opened Values

  // ----- what each operation does to the member list and the capacity -----

  datatype Table = Table(members: seq<Member>, cap: nat)

  predicate NeedsRoom(t: Table) {
    |t.members| >= t.cap
  }

  /** The block is full and doubling it would pass the cap. */
  predicate Full(t: Table) {
    NeedsRoom(t) && Grow(t.cap) > OBJECT_MAX_CAPACITY
  }

  function Room(t: Table): Table {
    if NeedsRoom(t) then t.(cap := Grow(t.cap)) else t
  }

  /** json_object_add; a name that is already present is found only after the block has grown. */
  function Add(t: Table, name: Bytes, value: Option<Value>): (bool, Table) {
    if value == None || Full(t) then (false, t)
    else if Has(t.members, name) then (false, Room(t))
    else (true, Room(t).(members := t.members + [Member(name, value.value)]))
  }

  /** json_object_set_value. */
  function Set(t: Table, name: Bytes, value: Option<Value>): (bool, Table) {
    var i := Find(t.members, name);
    if value.Some? && i < |t.members| then (true, t.(members := t.members[i := Member(t.members[i].name, value.value)]))
    else Add(t, name, value)
  }

  /** json_object_remove: the last member takes the place of the removed one. */
  function Remove(t: Table, name: Bytes): (bool, Table) {
    var i, last := Find(t.members, name), |t.members| - 1;
    if i > last then (false, t)
    else (true, t.(members := t.members[i := t.members[last]][..last]))
  }

  function Clear(t: Table): (bool, Table) {
    (true, t.(members := []))
  }

  // ----- the order of the members -----

  /** A new member comes last. */
  lemma AddAppends(t: Table, name: Bytes, value: Value)
    requires Add(t, name, Some(value)).0
    ensures Add(t, name, Some(value)).1.members == t.members + [Member(name, value)]
  {}

  /** A member that is set again keeps its place, and so do all others. */
  lemma SetKeepsPlaces(t: Table, name: Bytes, value: Value, k: nat)
    requires Has(t.members, name) && k < |t.members|
    ensures var after := Set(t, name, Some(value)).1.members;
            |after| == |t.members| && after[k].name == t.members[k].name
            && (t.members[k].name != name ==> after[k] == t.members[k])
  {}

  /** The last member takes the place of a removed one, and all others keep theirs. */
  lemma RemoveMovesLast(t: Table, name: Bytes, k: nat)
    requires Has(t.members, name) && k < |t.members| - 1
    ensures var after, last := Remove(t, name).1.members, t.members[|t.members| - 1];
            |after| == |t.members| - 1
            && after[k] == if k == Find(t.members, name) then last else t.members[k]
  {}

  // ----- the code -----

  class JsonObject {
    var names: array?<Bytes>
    var values: array?<Value>
    var count: nat
    var capacity: nat
    ghost var members: seq<Member>

    ghost predicate Valid()
      reads this, names, values
    {
      && (names == null <==> capacity == 0) && (values == null <==> capacity == 0)
      && (names != null ==> names.Length == capacity) && (values != null ==> values.Length == capacity)
      && count == |members| <= capacity
      && forall k :: 0 <= k < count ==> members[k] == Member(names[k], values[k])
    }

    ghost function Contents(): Table
      reads this
    {
      Table(members, capacity)
    }

    constructor ()
      ensures Valid() && Contents() == Table([], 0)
    {
      names, values, count, capacity, members := null, null, 0, 0, [];
    }

    method Resize(newCapacity: nat) returns (ok: bool)
      requires Valid() && count <= newCapacity
      modifies this
      ensures Valid() && ok == (newCapacity != 0)
      ensures ok ==> fresh(names) && fresh(values)
      ensures Contents() == if ok then old(Contents()).(cap := newCapacity) else old(Contents())
    {
      if (names == null && values != null) || (names != null && values == null) || newCapacity == 0 {
        return false;
      }
      var tempNames, tempValues := new Bytes[newCapacity], new Value[newCapacity];
      if names != null && values != null && count > 0 {
        forall k | 0 <= k < count {
          tempNames[k] := names[k];
        }
        forall k | 0 <= k < count {
          tempValues[k] := values[k];
        }
      }
      names, values, capacity := tempNames, tempValues, newCapacity;
      return true;
    }

    /** Looks up the first `n` bytes of `name`. */
    method NGetValue(name: Bytes, n: nat) returns (r: Option<Value>)
      requires Valid() && n <= |name|
      ensures r == Lookup(members, name[..n])
    {
      var i := 0;
      while i < count
        invariant i <= Find(members, name[..n])
      {
        if |names[i]| == n && names[i] == name[..n] {
          return Some(values[i]);
        }
        i := i + 1;
      }
      return None;
    }

    method GetValue(name: Bytes) returns (r: Option<Value>)
      requires Valid()
      ensures r == Lookup(members, name)
    {
      assert name[..|name|] == name;
      r := NGetValue(name, |name|);
    }

    method AddValue(name: Bytes, value: Option<Value>) returns (ok: bool)
      requires Valid()
      modifies this, names, values
      ensures Valid() && (ok, Contents()) == Add(old(Contents()), name, value)
      ensures fresh(names) || names == old(names)
      ensures fresh(values) || values == old(values)
    {
      if value == None {
        return false;
      }
      if count >= capacity {
        var newCapacity := if capacity * 2 > STARTING_CAPACITY then capacity * 2 else STARTING_CAPACITY;
        if newCapacity > OBJECT_MAX_CAPACITY {
          return false;
        }
        var resized := Resize(newCapacity);
        if !resized {
          return false;
        }
      }
      var present := GetValue(name);
      if present != None {
        return false;
      }
      names[count] := name;
      values[count] := value.value;
      count, members := count + 1, members + [Member(name, value.value)];
      return true;
    }

    method SetValue(name: Bytes, value: Option<Value>) returns (ok: bool)
      requires Valid()
      modifies this, names, values
      ensures Valid() && (ok, Contents()) == Set(old(Contents()), name, value)
    {
      if value == None {
        return false;
      }
      var present := GetValue(name);
      if present != None {
        var i := 0;
        while i < count
          invariant i <= Find(members, name)
        {
          if names[i] == name {
            values[i] := value.value;
            members := members[i := Member(name, value.value)];
            return true;
          }
          i := i + 1;
        }
      }
      ok := AddValue(name, value);
    }

    method RemoveValue(name: Bytes) returns (ok: bool)
      requires Valid()
      modifies this, names, values
      ensures Valid() && (ok, Contents()) == Remove(old(Contents()), name)
    {
      var present := GetValue(name);
      if present == None {
        return false;
      }
      var lastItemIndex, i := count - 1, 0;
      while i < count
        invariant i <= Find(members, name)
      {
        if names[i] == name {
          if i != lastItemIndex {
            names[i] := names[lastItemIndex];
            values[i] := values[lastItemIndex];
          }
          count, members := count - 1, members[i := members[lastItemIndex]][..lastItemIndex];
          return true;
        }
        i := i + 1;
      }
      return false;
    }

    method ClearAll() returns (ok: bool)
      requires Valid()
      modifies this
      ensures Valid() && (ok, Contents()) == Clear(old(Contents()))
    {
      count, members := 0, [];
      return true;
    }

    /** The object as the value that holds it. */
    method ToValue() returns (v: Value)
      requires Valid()
      ensures v == Obj(members, capacity)
    {
      var all := [];
      for i := 0 to count
        invariant all == members[..i]
      {
        all := all + [Member(names[i], values[i])];
      }
      v := Obj(all, capacity);
    }
  }

  // ----- what the source promises: a finite map with distinct names -----

  ghost predicate Good(t: Table) {
    |t.members| <= t.cap <= OBJECT_MAX_CAPACITY && Distinct(t.members)
  }

  /** The map a member list stands for. */
  ghost function View(members: seq<Member>): map<Bytes, Value> {
    map k | 0 <= k < |members| :: members[k].name := members[Find(members, members[k].name)].value
  }

  ghost function MapGet(m: map<Bytes, Value>, name: Bytes): Option<Value> {
    if name in m then Some(m[name]) else None
  }

  lemma ViewLookup(members: seq<Member>, name: Bytes)
    ensures MapGet(View(members), name) == Lookup(members, name)
    ensures name in View(members) <==> Has(members, name)
  {}

  /** A map is the view of a member list when it answers every lookup the same way. */
  lemma ViewIs(members: seq<Member>, m: map<Bytes, Value>)
    requires forall n :: MapGet(m, n) == Lookup(members, n)
    ensures View(members) == m
  {
    var w := View(members);
    forall n ensures MapGet(w, n) == MapGet(m, n) {
      ViewLookup(members, n);
    }
    assert forall n :: n in w <==> MapGet(w, n).Some?;
    assert forall n :: n in m <==> MapGet(m, n).Some?;
    forall n | n in m ensures w[n] == m[n] {
      assert MapGet(w, n) == MapGet(m, n);
    }
  }

  lemma LookupAdded(members: seq<Member>, m: Member, n: Bytes)
    requires !Has(members, m.name)
    ensures Lookup(members + [m], n) == if n == m.name then Some(m.value) else Lookup(members, n)
  {
    var u := members + [m];
    if n == m.name {
      FindIs(u, n, |members|);
    } else if Has(members, n) {
      FindIs(u, n, Find(members, n));
    } else {
      FindIs(u, n, |u|);
    }
  }

  lemma LookupReplaced(members: seq<Member>, i: nat, v: Value, n: Bytes)
    requires i < |members| && Find(members, members[i].name) == i
    ensures Lookup(members[i := Member(members[i].name, v)], n) ==
            if n == members[i].name then Some(v) else Lookup(members, n)
  {
    FindIs(members[i := Member(members[i].name, v)], n, Find(members, n));
  }

  lemma LookupRemoved(members: seq<Member>, i: nat, n: Bytes)
    requires Distinct(members) && i < |members|
    ensures Lookup(members[i := members[|members| - 1]][..|members| - 1], n) ==
            if n == members[i].name then None else Lookup(members, n)
  {
    var last, at := |members| - 1, Find(members, n);
    var rest := members[i := members[last]][..last];
    assert forall k :: 0 <= k < last ==> rest[k] == if k == i then members[last] else members[k];
    FindIs(rest, n, if n == members[i].name || at == |members| then last else if at == last then i else at);
  }

  datatype Op =
    | OpAdd(name: Bytes, value: Option<Value>)
    | OpSet(name: Bytes, value: Option<Value>)
    | OpRemove(name: Bytes)
    | OpClear

  function Apply(op: Op, t: Table): (bool, Table) {
    match op
    case OpAdd(name, value) => Add(t, name, value)
    case OpSet(name, value) => Set(t, name, value)
    case OpRemove(name) => Remove(t, name)
    case OpClear => Clear(t)
  }

  /** The same operation on a map that is out of room for new names when `full`. */
  ghost function MapApply(op: Op, m: map<Bytes, Value>, full: bool): (bool, map<Bytes, Value>) {
    match op
    case OpAdd(name, value) =>
      if value == None || full || name in m then (false, m) else (true, m[name := value.value])
    case OpSet(name, value) =>
      if value == None || (full && name !in m) then (false, m) else (true, m[name := value.value])
    case OpRemove(name) =>
      if name !in m then (false, m) else (true, m - {name})
    case OpClear => (true, map[])
  }

  lemma AddRefines(t: Table, name: Bytes, value: Option<Value>)
    requires Good(t)
    ensures var (ok, u) := Add(t, name, value);
            (ok, View(u.members)) == MapApply(OpAdd(name, value), View(t.members), Full(t))
  {
    var (ok, u) := Add(t, name, value);
    ViewLookup(t.members, name);
    if ok {
      var m := View(t.members)[name := value.value];
      forall n ensures MapGet(m, n) == Lookup(u.members, n) {
        ViewLookup(t.members, n);
        LookupAdded(t.members, Member(name, value.value), n);
      }
      ViewIs(u.members, m);
    }
  }

  lemma SetRefines(t: Table, name: Bytes, value: Option<Value>)
    requires Good(t)
    ensures var (ok, u) := Set(t, name, value);
            (ok, View(u.members)) == MapApply(OpSet(name, value), View(t.members), Full(t))
  {
    ViewLookup(t.members, name);
    if value.Some? && Has(t.members, name) {
      var i := Find(t.members, name);
      var u := t.members[i := Member(name, value.value)];
      var m := View(t.members)[name := value.value];
      forall n ensures MapGet(m, n) == Lookup(u, n) {
        ViewLookup(t.members, n);
        LookupReplaced(t.members, i, value.value, n);
      }
      ViewIs(u, m);
    } else {
      AddRefines(t, name, value);
    }
  }

  lemma RemoveRefines(t: Table, name: Bytes)
    requires Good(t)
    ensures var (ok, u) := Remove(t, name);
            (ok, View(u.members)) == MapApply(OpRemove(name), View(t.members), Full(t))
  {
    ViewLookup(t.members, name);
    if Has(t.members, name) {
      RemovedView(t, name);
      assert Remove(t, name).0;
    }
  }

  lemma RemovedView(t: Table, name: Bytes)
    requires Good(t) && Has(t.members, name)
    ensures View(Remove(t, name).1.members) == View(t.members) - {name}
  {
    var u := Remove(t, name).1.members;
    var m := View(t.members) - {name};
    forall n ensures MapGet(m, n) == Lookup(u, n) {
      RemovedLookup(t, name, n);
      ViewLookup(t.members, n);
    }
    ViewIs(u, m);
  }

  lemma RemovedLookup(t: Table, name: Bytes, n: Bytes)
    requires Good(t) && Has(t.members, name)
    ensures Lookup(Remove(t, name).1.members, n) == if n == name then None else Lookup(t.members, n)
  {
    LookupRemoved(t.members, Find(t.members, name), n);
  }

  lemma AddKeepsGood(t: Table, name: Bytes, value: Option<Value>)
    requires Good(t)
    ensures Good(Add(t, name, value).1)
  {}

  lemma SetKeepsGood(t: Table, name: Bytes, value: Option<Value>)
    requires Good(t)
    ensures Good(Set(t, name, value).1)
  {
    AddKeepsGood(t, name, value);
  }

  lemma RemoveKeepsGood(t: Table, name: Bytes)
    requires Good(t)
    ensures Good(Remove(t, name).1)
  {
    var i, last := Find(t.members, name), |t.members| - 1;
    if i <= last {
      var rest := t.members[i := t.members[last]][..last];
      forall j, k | 0 <= j < k < last ensures rest[j].name != rest[k].name {
        assert rest[j] == if j == i then t.members[last] else t.members[j];
        assert rest[k] == if k == i then t.members[last] else t.members[k];
      }
    }
  }

  /** One step of any operation keeps the invariant and is the operation on the map. */
  lemma ApplyRefines(op: Op, t: Table)
    requires Good(t)
    ensures var (ok, u) := Apply(op, t);
            Good(u) && (ok, View(u.members)) == MapApply(op, View(t.members), Full(t))
  {
    match op
    case OpAdd(name, value) => AddRefines(t, name, value); AddKeepsGood(t, name, value);
    case OpSet(name, value) => SetRefines(t, name, value); SetKeepsGood(t, name, value);
    case OpRemove(name) => RemoveRefines(t, name); RemoveKeepsGood(t, name);
    case OpClear => assert View([]) == map[];
  }

  /** All results and the final table of a run. */
  function Run(ops: seq<Op>, t: Table): (seq<bool>, Table) {
    if ops == [] then ([], t)
    else
      var (ok, u) := Apply(ops[0], t);
      var (oks, w) := Run(ops[1..], u);
      ([ok] + oks, w)
  }

  // ----- runs, against a map that refuses a new name exactly when it is full -----

  lemma {:induction false} ViewSize(members: seq<Member>)
    requires Distinct(members)
    ensures |View(members)| == |members|
  {
    if members == [] {
      assert View(members) == map[];
    } else {
      var front, last := members[..|members| - 1], members[|members| - 1];
      assert members == front + [last];
      ViewSize(front);
      FindIs(front, last.name, |front|);
      ViewLookup(front, last.name);
      forall n ensures MapGet(View(front)[last.name := last.value], n) == Lookup(members, n) {
        ViewLookup(front, n);
        LookupAdded(front, last, n);
      }
      ViewIs(members, View(front)[last.name := last.value]);
    }
  }

  /** The reference: a map, and the number of entries its block has room for. */
  datatype Bounded = Bounded(m: map<Bytes, Value>, cap: nat)

  ghost predicate OutOfRoom(b: Bounded) {
    |b.m| >= b.cap && Grow(b.cap) > OBJECT_MAX_CAPACITY
  }

  /** The operation needs an entry for a new name; add asks for it before it looks at the name. */
  ghost predicate WantsRoom(op: Op, m: map<Bytes, Value>) {
    match op
    case OpAdd(_, value) => value.Some?
    case OpSet(name, value) => value.Some? && name !in m
    case _ => false
  }

  ghost function RoomAfter(op: Op, b: Bounded): nat {
    if WantsRoom(op, b.m) && |b.m| >= b.cap && !OutOfRoom(b) then Grow(b.cap) else b.cap
  }

  ghost function BoundedApply(op: Op, b: Bounded): (bool, Bounded) {
    var (ok, m) := MapApply(op, b.m, OutOfRoom(b));
    (ok, Bounded(m, RoomAfter(op, b)))
  }

  ghost function BoundedRun(ops: seq<Op>, b: Bounded): (seq<bool>, Bounded) {
    if ops == [] then ([], b)
    else
      var (ok, n) := BoundedApply(ops[0], b);
      var (oks, last) := BoundedRun(ops[1..], n);
      ([ok] + oks, last)
  }

  ghost function BoundedView(t: Table): Bounded {
    Bounded(View(t.members), t.cap)
  }

  predicate AsksRoom(op: Op, t: Table) {
    match op
    case OpAdd(_, value) => value.Some?
    case OpSet(name, value) => value.Some? && !Has(t.members, name)
    case _ => false
  }

  lemma AsksIsWants(op: Op, t: Table)
    ensures AsksRoom(op, t) <==> WantsRoom(op, View(t.members))
  {
    if op.OpSet? {
      ViewLookup(t.members, op.name);
    }
  }

  lemma CapacityAfter(op: Op, t: Table)
    ensures Apply(op, t).1.cap == if AsksRoom(op, t) && NeedsRoom(t) && !Full(t) then Grow(t.cap) else t.cap
  {}

  lemma FullIsOutOfRoom(t: Table)
    requires Distinct(t.members)
    ensures OutOfRoom(BoundedView(t)) <==> Full(t)
    ensures |View(t.members)| >= t.cap <==> NeedsRoom(t)
  {
    ViewSize(t.members);
  }

  lemma ApplyCapacity(op: Op, t: Table)
    requires Good(t)
    ensures Apply(op, t).1.cap == RoomAfter(op, BoundedView(t))
  {
    FullIsOutOfRoom(t);
    AsksIsWants(op, t);
    CapacityAfter(op, t);
  }

  /**
   * Every run of a good object keeps names distinct, stays within the cap, and has exactly the answers,
   * the map and the capacity of the reference: a new name is refused when the room runs out, and only then.
   */
  lemma {:induction false} RunRefines(ops: seq<Op>, t: Table)
    requires Good(t)
    ensures Good(Run(ops, t).1)
    ensures (Run(ops, t).0, BoundedView(Run(ops, t).1)) == BoundedRun(ops, BoundedView(t))
  {
    if ops != [] {
      ApplyRefines(ops[0], t);
      ApplyCapacity(ops[0], t);
      FullIsOutOfRoom(t);
      RunRefines(ops[1..], Apply(ops[0], t).1);
    }
  }

  /** The same run on a plain map that holds up to 960 names. */
  ghost function MapRun(ops: seq<Op>, m: map<Bytes, Value>): (seq<bool>, map<Bytes, Value>) {
    if ops == [] then ([], m)
    else
      var (ok, n) := MapApply(ops[0], m, |m| == OBJECT_MAX_CAPACITY);
      var (oks, last) := MapRun(ops[1..], n);
      ([ok] + oks, last)
  }

  /** A block that grew from empty is out of room exactly when it holds 960 names. */
  lemma FullAtCap(t: Table)
    requires Good(t) && OnLadder(t.cap)
    ensures Full(t) <==> |View(t.members)| == 960
  {
    FullIsOutOfRoom(t);
    ViewSize(t.members);
    LadderGrows(t.cap);
  }

  lemma ApplyOnLadder(op: Op, t: Table)
    requires Good(t) && OnLadder(t.cap)
    ensures OnLadder(Apply(op, t).1.cap)
  {
    CapacityAfter(op, t);
    LadderGrows(t.cap);
  }

  /** For every object grown from empty, growth is invisible: it is a map with room for 960 names. */
  lemma {:induction false} GrownRunRefines(ops: seq<Op>, t: Table)
    requires Good(t) && OnLadder(t.cap)
    ensures Good(Run(ops, t).1) && OnLadder(Run(ops, t).1.cap)
    ensures (Run(ops, t).0, View(Run(ops, t).1.members)) == MapRun(ops, View(t.members))
  {
    if ops != [] {
      ApplyRefines(ops[0], t);
      ApplyOnLadder(ops[0], t);
      FullAtCap(t);
      GrownRunRefines(ops[1..], Apply(ops[0], t).1);
    }
  }

  /** When adding a value fails, and the trimmed object that takes no new name. */
  lemma AddFailsExactly(t: Table, name: Bytes, v: Value)
    requires Good(t)
    ensures Add(t, name, Some(v)).0 <==>
            !(|t.members| == t.cap && Grow(t.cap) > OBJECT_MAX_CAPACITY) && name !in View(t.members)
    ensures |t.members| == t.cap >= 481 ==>
              !Add(t, name, Some(v)).0 && (name !in View(t.members) ==> !Set(t, name, Some(v)).0)
    ensures |t.members| == t.cap <= 480 && name !in View(t.members) ==> Add(t, name, Some(v)).0
  {
    ViewLookup(t.members, name);
  }
}
