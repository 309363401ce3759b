/**
 * The vector's push_back on a fresh vector: contents, capacity, and the cost of growing.
 */
module Vectors {
  import opened Powers

  class Vector<T(0)> {
    var size: nat
    var slots: array<T>
    ghost var growths: nat  // calls of m_reserve
    ghost var copied: nat   // elements copied by them

    // `m_capacity` is the length of the block.
    ghost predicate Valid()
      reads this
    {
      && size <= slots.Length == PowerOfTwo(growths)
      && (growths > 0 ==> size > PowerOfTwo(growths - 1))
      && copied == slots.Length - 1
    }

    ghost function Contents(): (s: seq<T>)
      reads this, slots
      requires Valid()
    {
      slots[..size]
    }

    constructor ()
      ensures Valid() && fresh(slots) && Contents() == []
    {
      size := 0;
      slots := new T[1];
      growths, copied := 0, 0;
    }

    // `m_reserve`
    method Reserve(capacity: nat)
      requires size <= capacity && size <= slots.Length
      modifies this
      ensures fresh(slots) && slots.Length == capacity
      ensures size == old(size) && slots[..size] == old(slots[..size])
      ensures growths == old(growths) + 1 && copied == old(copied) + size
    {
      var grown := new T[capacity];
      for index := 0 to size
        invariant slots == old(slots) && size == old(size) && unchanged(slots)
        invariant growths == old(growths) && copied == old(copied)
        invariant forall k :: 0 <= k < index ==> grown[k] == slots[k]
      {
        grown[index] := slots[index];
      }
      assert grown[..size] == slots[..size];
      slots := grown;
      growths, copied := growths + 1, copied + size;
    }

    method PushBack(item: T)
      requires Valid()
      modifies this, slots
      ensures Valid() && (slots == old(slots) || fresh(slots))
      ensures Contents() == old(Contents()) + [item]
    {
      if slots.Length > size {
        slots[size] := item;
        size := size + 1;
        assert slots[..size] == old(Contents()) + [item];
      } else {
        Reserve(slots.Length * 2);
        slots[size] := item;
        size := size + 1;
        assert slots[..size] == old(Contents()) + [item];
      }
    }
  }

  // What Valid says of the capacity: the least power of two that holds the elements (and one)
  lemma CapacityIsLeastPower(size: nat, growths: nat)
    requires size <= PowerOfTwo(growths) && (growths > 0 ==> size > PowerOfTwo(growths - 1))
    ensures forall k: nat :: size <= PowerOfTwo(k) ==> PowerOfTwo(growths) <= PowerOfTwo(k)
    ensures size >= 1 ==> PowerOfTwo(growths) - 1 < 2 * size
  {
    forall k: nat | size <= PowerOfTwo(k)
      ensures PowerOfTwo(growths) <= PowerOfTwo(k)
    {
      if k < growths {
        if k < growths - 1 {
          PowerGrows(k, growths - 1);
        }
      } else if growths < k {
        PowerGrows(growths, k);
      }
    }
  }

  /**
   * Amortised growth: after any number of pushes on a fresh vector the contents are the pushed
   * items, the capacity is the least power of two at least as large as their number (and 1), and
   * all the growing together has copied capacity - 1 elements, fewer than two for each push.
   */
  method PushAll<T(0)>(items: seq<T>) returns (v: Vector<T>)
    ensures v.Valid() && fresh(v) && fresh(v.slots)
    ensures v.Contents() == items
    ensures v.slots.Length == PowerOfTwo(v.growths)
    ensures forall k: nat :: |items| <= PowerOfTwo(k) ==> v.slots.Length <= PowerOfTwo(k)
    ensures v.copied == v.slots.Length - 1
    ensures |items| >= 1 ==> |items| <= v.slots.Length && v.copied < 2 * |items|
  {
    v := new Vector();
    for n := 0 to |items|
      invariant v.Valid() && fresh(v) && fresh(v.slots)
      invariant v.Contents() == items[..n]
    {
      v.PushBack(items[n]);
    }
    CapacityIsLeastPower(v.size, v.growths);
    assert |v.Contents()| == v.size;
  }
}
