/** json_value_deep_copy on values as nodes in memory: the copy equals its source and shares no node with it. */
module DeepCopy {
  import opened Text
  import opened Values
  import opened ObjectStore
  import opened ArrayStore
  import opened Equality

  /** What a node holds besides its children. */
  datatype Kind = Scalar(v: Value) | Items | Members(names: seq<Bytes>)

  class Node {
    var kind: Kind
    var kids: seq<Node>
    var cap: nat
    ghost var Repr: set<Node>
    ghost var content: Value

    ghost predicate Valid()
      reads this, Repr
      decreases Repr
    {
      && this in Repr
      && (forall k :: 0 <= k < |kids| ==>
            kids[k] in Repr && kids[k].Repr <= Repr && this !in kids[k].Repr && kids[k].Valid())
      && Holds()
    }

    /** The value in the tree below this node is `content`. */
    ghost predicate Holds()
      reads this, kids
    {
      match kind
      case Scalar(v) => !v.Arr? && !v.Obj? && content == v && kids == []
      case Items =>
        && content.Arr? && |content.items| == |kids| && content.arrCap == cap
        && forall k :: 0 <= k < |kids| ==> content.items[k] == kids[k].content
      case Members(names) =>
        && content.Obj? && |content.members| == |kids| == |names| && content.objCap == cap
        && forall k :: 0 <= k < |kids| ==> content.members[k] == Member(names[k], kids[k].content)
    }

    constructor (kind: Kind)
      requires kind.Scalar? ==> !kind.v.Arr? && !kind.v.Obj?
      requires kind.Members? ==> kind.names == []
      ensures Valid() && Repr == {this} && kids == []
      ensures content == match kind case Scalar(v) => v case Items => Arr([], 0) case Members(_) => Obj([], 0)
    {
      this.kind, kids, cap, Repr := kind, [], 0, {this};
      content := match kind case Scalar(v) => v case Items => Arr([], 0) case Members(_) => Obj([], 0);
    }

    /** json_array_add: the array takes the node over. */
    method AddItem(kid: Node) returns (ok: bool)
      requires Valid() && kind.Items? && kid.Valid() && this !in kid.Repr
      modifies this
      ensures Valid() && kind == old(kind) && Repr <= old(Repr) + kid.Repr
      ensures ok == !RowFull(Row(old(content).items, old(content).arrCap))
      ensures ok ==>
                var r := Push(Row(old(content).items, old(content).arrCap), kid.content).1;
                content == Arr(r.items, r.cap)
    {
      if |kids| >= cap {
        if Grow(cap) > ARRAY_MAX_CAPACITY {
          return false;
        }
        cap := Grow(cap);
      }
      kids, Repr := kids + [kid], Repr + kid.Repr;
      content := Arr(content.items + [kid.content], cap);
      return true;
    }

    /** json_object_add on the node. */
    method AddMember(name: Bytes, kid: Node) returns (ok: bool)
      requires Valid() && kind.Members? && kid.Valid() && this !in kid.Repr
      modifies this
      ensures Valid() && kind.Members? && Repr <= old(Repr) + kid.Repr
      ensures var (added, t) := Add(Table(old(content).members, old(content).objCap), name, Some(kid.content));
              ok == added && content == Obj(t.members, t.cap)
    {
      if |kids| >= cap {
        if Grow(cap) > OBJECT_MAX_CAPACITY {
          return false;
        }
        cap := Grow(cap);
        content := Obj(content.members, cap);
      }
      NamesFind(kind.names, content.members, name);
      if IndexOf(kind.names, name) < |kind.names| {
        return false;
      }
      AppendMember(name, kid);
      return true;
    }

    method AppendMember(name: Bytes, kid: Node)
      requires Valid() && kind.Members? && kid.Valid() && this !in kid.Repr
      modifies this
      ensures Valid() && kind.Members? && Repr == old(Repr) + kid.Repr
      ensures content == Obj(old(content).members + [Member(name, kid.content)], old(content).objCap)
    {
      kids, Repr, kind := kids + [kid], Repr + kid.Repr, Members(kind.names + [name]);
      content := Obj(content.members + [Member(name, kid.content)], cap);
    }
  }

  /** Index of a name, or the number of names. */
  function IndexOf(names: seq<Bytes>, name: Bytes): (i: nat)
    ensures i <= |names|
    ensures i < |names| ==> names[i] == name
  {
    if names == [] || names[0] == name then 0 else 1 + IndexOf(names[1..], name)
  }

  lemma {:induction false} NamesFind(names: seq<Bytes>, members: seq<Member>, name: Bytes)
    requires |names| == |members| && forall k :: 0 <= k < |names| ==> members[k].name == names[k]
    ensures IndexOf(names, name) == Find(members, name)
  {
    if names != [] && names[0] != name {
      NamesFind(names[1..], members[1..], name);
    }
  }

  // ----- what the copy is -----

  /** The capacity of a block that started empty and took `n` entries. */
  function LadderCap(n: nat): nat {
    if n == 0 then 0 else NextCap(LadderCap(n - 1), n - 1)
  }

  lemma {:induction false} LadderCapFits(n: nat)
    ensures OnLadder(LadderCap(n)) && n <= LadderCap(n)
  {
    if n > 0 {
      LadderCapFits(n - 1);
      LadderNext(LadderCap(n - 1), n - 1);
    }
  }

  function CopyOf(v: Value): Value {
    match v
    case Arr(items, _) => Arr(CopyItems(items), LadderCap(|items|))
    case Obj(members, _) => Obj(CopyMembers(members), LadderCap(|members|))
    case _ => v
  }

  function CopyItems(items: seq<Value>): (r: seq<Value>)
    ensures |r| == |items|
  {
    if items == [] then [] else [CopyOf(items[0])] + CopyItems(items[1..])
  }

  function CopyMembers(members: seq<Member>): (r: seq<Member>)
    ensures |r| == |members|
  {
    if members == [] then []
    else [Member(members[0].name, CopyOf(members[0].value))] + CopyMembers(members[1..])
  }

  lemma {:induction false} CopyItemsAt(items: seq<Value>, k: nat)
    requires k < |items|
    ensures CopyItems(items)[k] == CopyOf(items[k])
  {
    if k > 0 {
      CopyItemsAt(items[1..], k - 1);
    }
  }

  lemma {:induction false} CopyMembersAt(members: seq<Member>, k: nat)
    requires k < |members|
    ensures CopyMembers(members)[k] == Member(members[k].name, CopyOf(members[k].value))
  {
    if k > 0 {
      CopyMembersAt(members[1..], k - 1);
    }
  }

  /** The copy holds the same members and items in the same order; only the sizes of blocks may differ. */
  lemma {:induction false} CopyEqualsSource(v: Value)
    ensures Trim(CopyOf(v)) == Trim(v)
    decreases v, 1
  {
    match v
    case Arr(items, _) => CopyItemsEqual(items);
    case Obj(members, _) => CopyMembersEqual(members);
    case _ =>
  }

  lemma {:induction false} CopyItemsEqual(items: seq<Value>)
    ensures TrimItems(CopyItems(items)) == TrimItems(items)
    decreases items, 0
  {
    if items != [] {
      CopyEqualsSource(items[0]);
      CopyItemsEqual(items[1..]);
      assert CopyItems(items)[1..] == CopyItems(items[1..]);
    }
  }

  lemma {:induction false} CopyMembersEqual(members: seq<Member>)
    ensures TrimMembers(CopyMembers(members)) == TrimMembers(members)
    decreases members, 0
  {
    if members != [] {
      CopyEqualsSource(members[0].value);
      CopyMembersEqual(members[1..]);
      assert CopyMembers(members)[1..] == CopyMembers(members[1..]);
    }
  }

  /** What the library guarantees of every value: entry counts within the caps and distinct names. */
  ghost predicate Held(v: Value) {
    match v
    case Arr(items, _) =>
      |items| <= ARRAY_MAX_CAPACITY && forall k :: 0 <= k < |items| ==> Held(items[k])
    case Obj(members, _) =>
      && |members| <= OBJECT_MAX_CAPACITY && Distinct(members)
      && forall k :: 0 <= k < |members| ==> Held(members[k].value)
    case _ => true
  }

  lemma ItemFits(items: seq<Value>, i: nat)
    requires i < |items| <= ARRAY_MAX_CAPACITY
    ensures Push(Row(CopyItems(items)[..i], LadderCap(i)), CopyOf(items[i]))
         == (true, Row(CopyItems(items)[..i + 1], LadderCap(i + 1)))
  {
    LadderCapFits(i);
    LadderGrows(LadderCap(i));
    CopyItemsAt(items, i);
    TakeNext(CopyItems(items), i);
  }

  lemma MemberFits(members: seq<Member>, i: nat)
    requires i < |members| <= OBJECT_MAX_CAPACITY && Distinct(members)
    ensures Add(Table(CopyMembers(members)[..i], LadderCap(i)), members[i].name, Some(CopyOf(members[i].value)))
         == (true, Table(CopyMembers(members)[..i + 1], LadderCap(i + 1)))
  {
    LadderCapFits(i);
    LadderGrows(LadderCap(i));
    CopyMembersAt(members, i);
    TakeNext(CopyMembers(members), i);
    var before := CopyMembers(members)[..i];
    forall j | 0 <= j < i ensures before[j].name != members[i].name {
      CopyMembersAt(members, j);
    }
    FindIs(before, members[i].name, i);
  }

  // ----- the code -----

  /** Never fails on a value the library can hold; every node of the copy is new. */
  method Copy(v: Node) returns (c: Node?)
    requires v.Valid() && Held(v.content)
    ensures c != null && c.Valid() && fresh(c.Repr) && c.content == CopyOf(v.content)
    decreases v.content
  {
    match v.kind
    case Scalar(_) => c := new Node(v.kind);
    case Items => c := CopyArray(v);
    case Members(_) => c := CopyObject(v);
  }

  method CopyArray(v: Node) returns (c: Node?)
    requires v.Valid() && Held(v.content) && v.kind.Items?
    ensures c != null && c.Valid() && fresh(c.Repr) && c.content == CopyOf(v.content)
    decreases v.content, 0
  {
    var copy := new Node(Items);
    ghost var items := v.content.items;
    for i := 0 to |v.kids|
      invariant copy.Valid() && fresh(copy.Repr) && copy.kind.Items?
      invariant copy.content == Arr(CopyItems(items)[..i], LadderCap(i))
    {
      var kid := Copy(v.kids[i]);
      if kid == null {
        return null;
      }
      ItemFits(items, i);
      var ok := copy.AddItem(kid);
      if !ok {
        return null;
      }
    }
    assert CopyItems(items)[..|items|] == CopyItems(items);
    return copy;
  }

  method CopyObject(v: Node) returns (c: Node?)
    requires v.Valid() && Held(v.content) && v.kind.Members?
    ensures c != null && c.Valid() && fresh(c.Repr) && c.content == CopyOf(v.content)
    decreases v.content, 0
  {
    var copy := new Node(Members([]));
    ghost var members := v.content.members;
    for i := 0 to |v.kids|
      invariant copy.Valid() && fresh(copy.Repr) && copy.kind.Members?
      invariant copy.content == Obj(CopyMembers(members)[..i], LadderCap(i))
    {
      var key := v.kind.names[i];
      NamesFind(v.kind.names, members, key);
      FindDistinct(members, i);
      var kid := Copy(v.kids[IndexOf(v.kind.names, key)]);
      if kid == null {
        return null;
      }
      MemberFits(members, i);
      var ok := copy.AddMember(key, kid);
      if !ok {
        return null;
      }
    }
    assert CopyMembers(members)[..|members|] == CopyMembers(members);
    return copy;
  }

  /** The copy is equal to its source. */
  lemma CopyIsEqual(v: Value)
    requires Mapped(v)
    ensures Equals(CopyOf(v), v) && Equals(v, CopyOf(v))
  {
    CopyEqualsSource(v);
    TrimMeans(v);
    TrimMeans(CopyOf(v));
    TrimMapped(v);
    TrimMapped(CopyOf(v));
    EqualsIsMeaning(CopyOf(v), v);
    EqualsIsMeaning(v, CopyOf(v));
  }

  /** Changing any node of the source afterwards leaves the copy as it is. */
  method CopyThenChange(v: Node, n: Node, kind: Kind, kids: seq<Node>, cap: nat) returns (c: Node?)
    requires v.Valid() && Held(v.content) && n in v.Repr
    modifies n
    ensures c != null && c.Valid() && c.content == CopyOf(old(v.content))
  {
    c := Copy(v);
    n.kind, n.kids, n.cap := kind, kids, cap;
  }

  /** Of two values that share no node, changing one leaves the other as it is; so does changing a copy. */
  method ChangeOne(a: Node, b: Node, n: Node, kind: Kind, kids: seq<Node>, cap: nat)
    requires b.Valid() && a.Repr !! b.Repr && n in a.Repr
    modifies n
    ensures b.Valid() && b.content == old(b.content)
  {
    n.kind, n.kids, n.cap := kind, kids, cap;
  }
}
