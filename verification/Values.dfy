/** JSON values. Arrays and objects carry the capacity of the block their entries live in. */
module Values {
  import opened Text
  import opened Strings

  const STARTING_CAPACITY: nat := 15
  const ARRAY_MAX_CAPACITY: nat := 122880
  const OBJECT_MAX_CAPACITY: nat := 960
  const MAX_NESTING: nat := 19

  datatype Member = Member(name: Bytes, value: Value)

  datatype Value =
    | Null
    | Bool(b: bool)
    | Num(n: int)
    | Str(s: Bytes)
    | Arr(items: seq<Value>, arrCap: nat)
    | Obj(members: seq<Member>, objCap: nat)

  /** Index of the first member called `name`, or the number of members. */
  function Find(members: seq<Member>, name: Bytes): (i: nat)
    ensures i <= |members|
    ensures i < |members| ==> members[i].name == name
    ensures forall k :: 0 <= k < i ==> members[k].name != name
  {
    if members == [] || members[0].name == name then 0
    else 1 + Find(members[1..], name)
  }

  predicate Has(members: seq<Member>, name: Bytes) {
    Find(members, name) < |members|
  }

  ghost predicate Distinct(members: seq<Member>) {
    forall i, j :: 0 <= i < j < |members| ==> members[i].name != members[j].name
  }

  /** The answer of json_object_get_value. */
  function Lookup(members: seq<Member>, name: Bytes): Option<Value> {
    var i := Find(members, name);
    if i < |members| then Some(members[i].value) else None
  }

  lemma FindIs(members: seq<Member>, name: Bytes, i: nat)
    requires i <= |members| && (i < |members| ==> members[i].name == name)
    requires forall k :: 0 <= k < i ==> members[k].name != name
    ensures Find(members, name) == i
  {}

  lemma FindDistinct(members: seq<Member>, i: nat)
    requires Distinct(members) && i < |members|
    ensures Find(members, members[i].name) == i
  {}

  /** The next capacity of a full block. */
  function Grow(cap: nat): (r: nat)
    ensures r > cap
  {
    if cap * 2 > STARTING_CAPACITY then cap * 2 else STARTING_CAPACITY
  }

  /** The first block has room for 15 entries, and every later one for twice as many as the one before. */
  lemma GrowExactly(cap: nat)
    ensures Grow(0) == 15 && (cap >= 8 ==> Grow(cap) == 2 * cap)
  {}

  /** The capacities a block goes through when it starts empty and is only added to. */
  predicate OnLadder(cap: nat) {
    cap == 0 || cap == STARTING_CAPACITY || (cap > STARTING_CAPACITY && cap % 2 == 0 && OnLadder(cap / 2))
  }

  function Rung(j: nat): (r: nat)
    ensures r >= STARTING_CAPACITY
  {
    if j == 0 then STARTING_CAPACITY else 2 * Rung(j - 1)
  }

  lemma {:induction false} LadderHasGaps(cap: nat, j: nat)
    requires OnLadder(cap) && cap < Rung(j + 1)
    ensures cap <= Rung(j)
  {
    if cap > STARTING_CAPACITY {
      assert OnLadder(cap / 2);
      if j > 0 {
        LadderHasGaps(cap / 2, j - 1);
      }
    }
  }

  /** A block that grew from empty reaches both caps exactly, so it is never refused before them. */
  lemma LadderGrows(cap: nat)
    requires OnLadder(cap)
    ensures OnLadder(Grow(cap))
    ensures cap < ARRAY_MAX_CAPACITY ==> Grow(cap) <= ARRAY_MAX_CAPACITY
    ensures cap < OBJECT_MAX_CAPACITY ==> Grow(cap) <= OBJECT_MAX_CAPACITY
  {
    assert Rung(6) == OBJECT_MAX_CAPACITY;
    assert Rung(13) == 128 * Rung(6) == ARRAY_MAX_CAPACITY;
    if cap < OBJECT_MAX_CAPACITY {
      LadderHasGaps(cap, 5);
    }
    if cap < ARRAY_MAX_CAPACITY {
      LadderHasGaps(cap, 12);
    }
  }

  /** The capacity after adding an entry to a block that holds `k`. */
  function NextCap(cap: nat, k: nat): nat {
    if k >= cap then Grow(cap) else cap
  }

  lemma LadderNext(cap: nat, k: nat)
    requires OnLadder(cap) && k <= cap
    ensures OnLadder(NextCap(cap, k)) && k < NextCap(cap, k)
  {
    LadderGrows(cap);
  }

  /**
   * A value as the library can hold it with `depth` containers around it: C strings, distinct
   * names, entry counts within the caps, and nesting within MAX_NESTING.
   */
  ghost predicate Shaped(v: Value, depth: nat) {
    depth <= MAX_NESTING &&
    match v
    case Str(s) => NUL !in s
    case Arr(items, _) =>
      && |items| <= ARRAY_MAX_CAPACITY
      && forall k :: 0 <= k < |items| ==> Shaped(items[k], depth + 1)
    case Obj(members, _) =>
      && |members| <= OBJECT_MAX_CAPACITY && Distinct(members)
      && forall k :: 0 <= k < |members| ==> NUL !in members[k].name && Shaped(members[k].value, depth + 1)
    case _ => true
  }

  /** Every number is a 32-bit integer, the range that is printed with `%d`. */
  predicate Small(v: Value) {
    match v
    case Num(n) => -0x8000_0000 <= n < 0x8000_0000
    case Arr(items, _) => forall k :: 0 <= k < |items| ==> Small(items[k])
    case Obj(members, _) => forall k :: 0 <= k < |members| ==> Small(members[k].value)
    case _ => true
  }

  /** No string in the value holds a control byte that the serialiser writes raw. */
  predicate Clean(v: Value)
    decreases v, 1
  {
    match v
    case Str(s) => CleanString(s)
    case Arr(items, _) => CleanItems(items, 0)
    case Obj(members, _) => CleanMembers(members, 0)
    case _ => true
  }

  predicate CleanItems(items: seq<Value>, k: nat)
    requires k <= |items|
    decreases items, 0, |items| - k
  {
    k == |items| || (Clean(items[k]) && CleanItems(items, k + 1))
  }

  predicate CleanMembers(members: seq<Member>, k: nat)
    requires k <= |members|
    decreases members, 0, |members| - k
  {
    k == |members|
    || (CleanString(members[k].name) && Clean(members[k].value) && CleanMembers(members, k + 1))
  }

  /** The value with every block cut to the number of its entries. */
  function Trim(v: Value): Value {
    match v
    case Arr(items, _) => Arr(TrimItems(items), |items|)
    case Obj(members, _) => Obj(TrimMembers(members), |members|)
    case _ => v
  }

  function TrimItems(items: seq<Value>): (r: seq<Value>)
    ensures |r| == |items|
  {
    if items == [] then [] else [Trim(items[0])] + TrimItems(items[1..])
  }

  function TrimMembers(members: seq<Member>): (r: seq<Member>)
    ensures |r| == |members|
  {
    if members == [] then []
    else [Member(members[0].name, Trim(members[0].value))] + TrimMembers(members[1..])
  }

  lemma {:induction false} TrimItemsAt(items: seq<Value>, k: nat)
    requires k < |items|
    ensures TrimItems(items)[k] == Trim(items[k])
  {
    if k > 0 {
      TrimItemsAt(items[1..], k - 1);
    }
  }

  lemma {:induction false} TrimMembersAt(members: seq<Member>, k: nat)
    requires k < |members|
    ensures TrimMembers(members)[k] == Member(members[k].name, Trim(members[k].value))
  {
    if k > 0 {
      TrimMembersAt(members[1..], k - 1);
    }
  }
}
