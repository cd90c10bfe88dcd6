/** json_value_equals: order-insensitive equality, against the meaning of a value. */
module Equality {
  import opened Text
  import opened Values

  /** `fabs(a - b) < 0.000001`. */
  predicate SameNumber(a: int, b: int) {
    var d := (a - b) as real;
    (if d < 0.0 then -d else d) < 0.000001
  }

  predicate Equals(a: Value, b: Value)
    decreases a, 1
  {
    match a
    case Null => b.Null?
    case Bool(x) => b.Bool? && x == b.b
    case Num(n) => b.Num? && SameNumber(n, b.n)
    case Str(s) => b.Str? && s == b.s
    case Arr(items, _) => b.Arr? && |items| == |b.items| && EqualItems(items, b.items, 0)
    case Obj(members, _) => b.Obj? && |members| == |b.members| && EqualMembers(members, b.members, 0)
  }

  predicate EqualItems(a: seq<Value>, b: seq<Value>, k: nat)
    requires k <= |a| == |b|
    decreases a, 0, |a| - k
  {
    k == |a| || (Equals(a[k], b[k]) && EqualItems(a, b, k + 1))
  }

  /** Both values are looked up by the name of the `k`-th member of `a`. */
  predicate EqualMembers(a: seq<Member>, b: seq<Member>, k: nat)
    requires k <= |a|
    decreases a, 0, |a| - k
  {
    k == |a|
    || (var name := a[k].name;
        && Has(b, name)
        && Equals(a[Find(a, name)].value, b[Find(b, name)].value)
        && EqualMembers(a, b, k + 1))
  }

  // ----- the code: early exits from two loops -----

  method JsonValueEquals(a: Value, b: Value) returns (same: bool)
    ensures same == Equals(a, b)
    decreases a
  {
    match a
    case Null => return b.Null?;
    case Bool(x) => return b.Bool? && x == b.b;
    case Num(n) => return b.Num? && SameNumber(n, b.n);
    case Str(s) => return b.Str? && s == b.s;
    case Arr(items, _) =>
      if !b.Arr? || |items| != |b.items| {
        return false;
      }
      var i := 0;
      while i < |items|
        invariant i <= |items|
        invariant EqualItems(items, b.items, i) == EqualItems(items, b.items, 0)
      {
        var eq := JsonValueEquals(items[i], b.items[i]);
        if !eq {
          return false;
        }
        i := i + 1;
      }
      return true;
    case Obj(members, _) =>
      if !b.Obj? || |members| != |b.members| {
        return false;
      }
      var i := 0;
      while i < |members|
        invariant i <= |members|
        invariant EqualMembers(members, b.members, i) == EqualMembers(members, b.members, 0)
      {
        var name := members[i].name;
        if !Has(b.members, name) {
          return false;
        }
        var eq := JsonValueEquals(members[Find(members, name)].value, b.members[Find(b.members, name)].value);
        if !eq {
          return false;
        }
        i := i + 1;
      }
      return true;
  }

  // ----- the meaning of a value: arrays are sequences, objects are maps -----

  datatype Meaning =
    | MNull
    | MBool(b: bool)
    | MNum(n: int)
    | MStr(s: Bytes)
    | MArr(items: seq<Meaning>)
    | MObj(members: map<Bytes, Meaning>)

  ghost function Means(v: Value): Meaning
    decreases v, 1
  {
    match v
    case Null => MNull
    case Bool(b) => MBool(b)
    case Num(n) => MNum(n)
    case Str(s) => MStr(s)
    case Arr(items, _) => MArr(MeansItems(items))
    case Obj(members, _) => MObj(MeansMembers(members))
  }

  ghost function MeansItems(items: seq<Value>): (r: seq<Meaning>)
    ensures |r| == |items|
    decreases items, 0
  {
    if items == [] then [] else [Means(items[0])] + MeansItems(items[1..])
  }

  ghost function MeansMembers(members: seq<Member>): map<Bytes, Meaning>
    decreases members, 0
  {
    if members == [] then map[] else MeansMembers(members[1..])[members[0].name := Means(members[0].value)]
  }

  /** Distinct names in every object. */
  ghost predicate Mapped(v: Value) {
    match v
    case Arr(items, _) => forall k :: 0 <= k < |items| ==> Mapped(items[k])
    case Obj(members, _) => Distinct(members) && forall k :: 0 <= k < |members| ==> Mapped(members[k].value)
    case _ => true
  }

  // ----- equality is equality of meanings -----

  lemma NumbersApart(a: int, b: int)
    ensures SameNumber(a, b) <==> a == b
  {
    if a > b {
      assert (a - b) as real >= 1.0;
    } else if a < b {
      assert (a - b) as real <= -1.0;
    }
  }

  lemma {:induction false} MeansItemsAt(items: seq<Value>, k: nat)
    requires k < |items|
    ensures MeansItems(items)[k] == Means(items[k])
  {
    if k > 0 {
      MeansItemsAt(items[1..], k - 1);
    }
  }

  lemma {:induction false} MeansMembersAt(members: seq<Member>, name: Bytes)
    ensures name in MeansMembers(members) <==> Has(members, name)
    ensures Has(members, name) ==> MeansMembers(members)[name] == Means(members[Find(members, name)].value)
  {
    if members != [] && members[0].name != name {
      MeansMembersAt(members[1..], name);
    }
  }

  /** Names of a member list, as a set. */
  ghost function NameSet(members: seq<Member>): set<Bytes> {
    set k | 0 <= k < |members| :: members[k].name
  }

  lemma {:induction false} NameSetSize(members: seq<Member>)
    requires Distinct(members)
    ensures |NameSet(members)| == |members|
  {
    if members != [] {
      var rest := members[1..];
      NameSetSize(rest);
      assert NameSet(members) == {members[0].name} + NameSet(rest) by {
        assert forall k :: 1 <= k < |members| ==> members[k] == rest[k - 1];
      }
      assert members[0].name !in NameSet(rest);
    }
  }

  lemma {:induction false} SubsetOfSameSize<T>(a: set<T>, b: set<T>)
    requires a <= b && |a| == |b|
    ensures a == b
  {
    if x :| x in b && x !in a {
      assert a <= b - {x};
      SubsetSize(a, b - {x});
      assert false;
    }
  }

  lemma {:induction false} SubsetSize<T>(a: set<T>, b: set<T>)
    requires a <= b
    ensures |a| <= |b|
  {
    if a != {} {
      var x :| x in a;
      SubsetSize(a - {x}, b - {x});
    }
  }

  /** As many distinct names, all found in the other object: then they are the same names. */
  lemma SameNames(a: seq<Member>, b: seq<Member>)
    requires Distinct(a) && Distinct(b) && |a| == |b|
    requires forall k :: 0 <= k < |a| ==> Has(b, a[k].name)
    ensures forall name :: Has(a, name) <==> Has(b, name)
  {
    NameSetSize(a);
    NameSetSize(b);
    forall name | name in NameSet(a) ensures name in NameSet(b) {
      var k :| 0 <= k < |a| && a[k].name == name;
      assert b[Find(b, a[k].name)].name == name;
    }
    SubsetOfSameSize(NameSet(a), NameSet(b));
    forall name ensures Has(a, name) <==> Has(b, name) {
      HasIsName(a, name);
      HasIsName(b, name);
    }
  }

  lemma HasIsName(members: seq<Member>, name: Bytes)
    ensures Has(members, name) <==> name in NameSet(members)
  {
    if Has(members, name) {
      assert members[Find(members, name)].name in NameSet(members);
    }
  }

  lemma {:induction false} EqualsIsMeaning(a: Value, b: Value)
    requires Mapped(a) && Mapped(b)
    ensures Equals(a, b) <==> Means(a) == Means(b)
    decreases a, 3
  {
    match a
    case Num(n) => if b.Num? { NumbersApart(n, b.n); }
    case Arr(items, _) =>
      if b.Arr? {
        if |items| == |b.items| {
          ItemsMeaning(items, b.items, 0);
          if MeansItems(items) != MeansItems(b.items) {
            var k :| 0 <= k < |items| && MeansItems(items)[k] != MeansItems(b.items)[k];
            MeansItemsAt(items, k);
            MeansItemsAt(b.items, k);
          } else {
            forall k | 0 <= k < |items| ensures Means(items[k]) == Means(b.items[k]) {
              MeansItemsAt(items, k);
              MeansItemsAt(b.items, k);
            }
          }
        }
      }
    case Obj(members, _) =>
      if b.Obj? {
        ObjectsMeaning(members, b.members);
      }
    case _ =>
  }

  lemma {:induction false} ItemsMeaning(a: seq<Value>, b: seq<Value>, k: nat)
    requires k <= |a| == |b|
    requires forall j :: 0 <= j < |a| ==> Mapped(a[j]) && Mapped(b[j])
    ensures EqualItems(a, b, k) <==> forall j :: k <= j < |a| ==> Means(a[j]) == Means(b[j])
    decreases a, 0, |a| - k
  {
    if k < |a| {
      EqualsIsMeaning(a[k], b[k]);
      ItemsMeaning(a, b, k + 1);
    }
  }

  lemma {:induction false} MembersMeaning(a: seq<Member>, b: seq<Member>, k: nat)
    requires k <= |a| && Distinct(a)
    requires forall j :: 0 <= j < |a| ==> Mapped(a[j].value)
    requires forall j :: 0 <= j < |b| ==> Mapped(b[j].value)
    ensures EqualMembers(a, b, k) <==>
            forall j :: k <= j < |a| ==> Has(b, a[j].name) && Means(a[j].value) == Means(b[Find(b, a[j].name)].value)
    decreases a, 0, |a| - k
  {
    if k < |a| {
      FindDistinct(a, k);
      if Has(b, a[k].name) {
        EqualsIsMeaning(a[k].value, b[Find(b, a[k].name)].value);
      }
      MembersMeaning(a, b, k + 1);
    }
  }

  lemma ObjectsMeaning(a: seq<Member>, b: seq<Member>)
    requires Distinct(a) && Distinct(b)
    requires forall j :: 0 <= j < |a| ==> Mapped(a[j].value)
    requires forall j :: 0 <= j < |b| ==> Mapped(b[j].value)
    ensures |a| == |b| && EqualMembers(a, b, 0) <==> MeansMembers(a) == MeansMembers(b)
    decreases a, 1
  {
    var x, y := MeansMembers(a), MeansMembers(b);
    MembersMeaning(a, b, 0);
    if |a| == |b| && EqualMembers(a, b, 0) {
      SameNames(a, b);
      forall name ensures name in x <==> name in y {
        MeansMembersAt(a, name);
        MeansMembersAt(b, name);
      }
      forall name | name in x ensures x[name] == y[name] {
        MeansMembersAt(a, name);
        MeansMembersAt(b, name);
        assert a[Find(a, name)].name == name;
      }
    }
    if x == y {
      SameMeaningSameSize(a, b);
      forall j | 0 <= j < |a| ensures Has(b, a[j].name) && Means(a[j].value) == Means(b[Find(b, a[j].name)].value) {
        FindDistinct(a, j);
        MeansMembersAt(a, a[j].name);
        MeansMembersAt(b, a[j].name);
      }
    }
  }

  lemma SameMeaningSameSize(a: seq<Member>, b: seq<Member>)
    requires Distinct(a) && Distinct(b) && MeansMembers(a) == MeansMembers(b)
    ensures |a| == |b|
  {
    NameSetSize(a);
    NameSetSize(b);
    forall name ensures name in NameSet(a) <==> name in NameSet(b) {
      HasIsName(a, name);
      HasIsName(b, name);
      MeansMembersAt(a, name);
      MeansMembersAt(b, name);
    }
    assert NameSet(a) == NameSet(b);
  }

  // ----- so it is an equivalence that ignores the order of members -----

  lemma EqualsIsEquivalence(a: Value, b: Value, c: Value)
    requires Mapped(a) && Mapped(b) && Mapped(c)
    ensures Equals(a, a)
    ensures Equals(a, b) ==> Equals(b, a)
    ensures Equals(a, b) && Equals(b, c) ==> Equals(a, c)
  {
    EqualsIsMeaning(a, a);
    EqualsIsMeaning(a, b);
    EqualsIsMeaning(b, a);
    EqualsIsMeaning(b, c);
    EqualsIsMeaning(a, c);
  }

  lemma EqualsIgnoresOrder(a: seq<Member>, b: seq<Member>, capA: nat, capB: nat)
    requires Mapped(Obj(a, capA)) && Mapped(Obj(b, capB)) && multiset(a) == multiset(b)
    ensures Equals(Obj(a, capA), Obj(b, capB))
  {
    assert |a| == |multiset(a)| == |b|;
    forall j | 0 <= j < |a| ensures Has(b, a[j].name) && Means(a[j].value) == Means(b[Find(b, a[j].name)].value) {
      assert a[j] in multiset(a) && a[j] in b;
      var k :| 0 <= k < |b| && b[k] == a[j];
      FindDistinct(b, k);
    }
    MembersMeaning(a, b, 0);
  }

  // ----- trimming a block is invisible -----

  lemma {:induction false} TrimMeans(v: Value)
    ensures Means(Trim(v)) == Means(v)
    decreases v, 1
  {
    match v
    case Arr(items, _) => TrimItemsMean(items);
    case Obj(members, _) => TrimMembersMean(members);
    case _ =>
  }

  lemma {:induction false} TrimItemsMean(items: seq<Value>)
    ensures MeansItems(TrimItems(items)) == MeansItems(items)
    decreases items, 0
  {
    if items != [] {
      TrimMeans(items[0]);
      TrimItemsMean(items[1..]);
      assert TrimItems(items)[1..] == TrimItems(items[1..]);
    }
  }

  lemma {:induction false} TrimMembersMean(members: seq<Member>)
    ensures MeansMembers(TrimMembers(members)) == MeansMembers(members)
    decreases members, 0
  {
    if members != [] {
      TrimMeans(members[0].value);
      TrimMembersMean(members[1..]);
      assert TrimMembers(members)[1..] == TrimMembers(members[1..]);
    }
  }

  lemma {:induction false} TrimMapped(v: Value)
    ensures Mapped(Trim(v)) <==> Mapped(v)
  {
    match v
    case Arr(items, _) =>
      forall k | 0 <= k < |items| ensures Mapped(TrimItems(items)[k]) <==> Mapped(items[k]) {
        TrimItemsAt(items, k);
        TrimMapped(items[k]);
      }
    case Obj(members, _) =>
      TrimDistinct(members);
      forall k | 0 <= k < |members| ensures Mapped(TrimMembers(members)[k].value) <==> Mapped(members[k].value) {
        TrimMembersAt(members, k);
        TrimMapped(members[k].value);
      }
    case _ =>
  }

  lemma TrimDistinct(members: seq<Member>)
    ensures Distinct(TrimMembers(members)) <==> Distinct(members)
  {
    forall k | 0 <= k < |members| ensures TrimMembers(members)[k].name == members[k].name {
      TrimMembersAt(members, k);
    }
    if Distinct(TrimMembers(members)) {
      forall i, j | 0 <= i < j < |members| ensures members[i].name != members[j].name {
        assert TrimMembers(members)[i].name != TrimMembers(members)[j].name;
      }
    }
  }
}
