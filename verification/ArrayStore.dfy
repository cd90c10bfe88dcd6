/** JSON_Array: a growable block of values. */
module ArrayStore {
  import opened Values

  datatype Row = Row(items: seq<Value>, cap: nat)

  predicate RowFull(r: Row) {
    |r.items| >= r.cap && Grow(r.cap) > ARRAY_MAX_CAPACITY
  }

  /** json_array_add on the items and the capacity. */
  function Push(r: Row, v: Value): (bool, Row) {
    if RowFull(r) then (false, r)
    else (true, Row(r.items + [v], if |r.items| >= r.cap then Grow(r.cap) else r.cap))
  }

  /** An array that grew from empty takes an item exactly until it holds 122880. */
  lemma FullAtCap(r: Row)
    requires OnLadder(r.cap) && |r.items| <= r.cap <= ARRAY_MAX_CAPACITY
    ensures RowFull(r) <==> |r.items| == 122880
  {
    LadderGrows(r.cap);
  }

  class JsonArray {
    var block: array?<Value>
    var count: nat
    var capacity: nat
    ghost var items: seq<Value>

    ghost predicate Valid()
      reads this, block
    {
      && (block == null <==> capacity == 0) && (block != null ==> block.Length == capacity)
      && count == |items| <= capacity
      && forall k :: 0 <= k < count ==> items[k] == block[k]
    }

    ghost function Contents(): Row
      reads this
    {
      Row(items, capacity)
    }

    constructor ()
      ensures Valid() && Contents() == Row([], 0)
    {
      block, count, capacity, items := null, 0, 0, [];
    }

    method Resize(newCapacity: nat) returns (ok: bool)
      requires Valid() && count <= newCapacity
      modifies this
      ensures Valid() && ok == (newCapacity != 0)
      ensures ok ==> fresh(block)
      ensures Contents() == if ok then old(Contents()).(cap := newCapacity) else old(Contents())
    {
      if newCapacity == 0 {
        return false;
      }
      var newItems := new Value[newCapacity];
      if block != null && count > 0 {
        forall k | 0 <= k < count {
          newItems[k] := block[k];
        }
      }
      block, capacity := newItems, newCapacity;
      return true;
    }

    method AddItem(v: Value) returns (ok: bool)
      requires Valid()
      modifies this, block
      ensures Valid() && (fresh(block) || block == old(block))
      ensures (ok, Contents()) == Push(old(Contents()), v)
    {
      if count >= capacity {
        var newCapacity := if capacity * 2 > STARTING_CAPACITY then capacity * 2 else STARTING_CAPACITY;
        if newCapacity > ARRAY_MAX_CAPACITY {
          return false;
        }
        var resized := Resize(newCapacity);
        if !resized {
          return false;
        }
      }
      block[count] := v;
      count, items := count + 1, items + [v];
      return true;
    }

    method ToValue() returns (v: Value)
      requires Valid()
      ensures v == Arr(items, capacity)
    {
      var all := [];
      for i := 0 to count
        invariant all == items[..i]
      {
        all := all + [block[i]];
      }
      v := Arr(all, capacity);
    }
  }
}
