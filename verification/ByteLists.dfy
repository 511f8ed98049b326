/** A growable byte list whose appends stay inside a capacity reserved up front. */
module ByteLists {
  import opened Bytes

  class ByteList {
    var items: bytes
    var capacity: nat

    ghost predicate Valid()
      reads this
    {
      |items| <= capacity
    }

    constructor ()
      ensures Valid() && items == [] && capacity == 0
    {
      items, capacity := [], 0;
    }

    method EnsureTotalCapacity(n: nat)
      requires Valid()
      modifies this
      ensures Valid() && items == old(items)
      ensures capacity >= n && capacity >= old(capacity)
    {
      if capacity < n {
        capacity := n;
      }
    }

    method AppendSliceAssumeCapacity(s: bytes)
      requires Valid() && |items| + |s| <= capacity
      modifies this`items
      ensures Valid() && items == old(items) + s
    {
      items := items + s;
    }

    method AppendZerosToMultipleOf8()
      requires Valid() && |items| + 8 <= capacity
      modifies this`items
      ensures Valid() && items == old(items) + Padding(|old(items)|)
    {
      hide Padding;
      ghost var start := items;
      ghost var missing := Padding(|start|);
      assert start + missing[..0] == start;
      while |items| % 8 != 0
        invariant |start| <= |items| <= |start| + |missing|
        invariant items == start + missing[..|items| - |start|]
        decreases |start| + 8 - |items|
      {
        PaddingGoesOn(|start|, |items| - |start|);
        AppendSliceAssumeCapacity([0]);
      }
      PaddingGoesOn(|start|, |items| - |start|);
      assert missing[..|missing|] == missing;
    }

    /** `std.mem.writeInt(.., .little)` into `items[at..][0..width]`. */
    method WriteIntLittle(at: nat, v: nat, width: nat)
      requires Valid() && at + width <= |items| && v < Pow256(width)
      modifies this`items
      ensures Valid() && items == Patch(old(items), at, WriteLE(v, width))
    {
      items := Patch(items, at, WriteLE(v, width));
    }

    /** `std.mem.writeInt(.., .big)` into `items[at..][0..width]`. */
    method WriteIntBig(at: nat, v: nat, width: nat)
      requires Valid() && at + width <= |items| && v < Pow256(width)
      modifies this`items
      ensures Valid() && items == Patch(old(items), at, WriteBE(v, width))
    {
      items := Patch(items, at, WriteBE(v, width));
    }
  }
}
