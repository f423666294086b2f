/**
 * The observable collection with a maximum capacity: every insert appends at
 * the end, whatever index was asked for, and an insert that takes the count
 * past a positive capacity drops the oldest element. A capacity of zero or
 * less means unbounded.
 */
module BoundedCollections {
  import opened Rings

  /** One insert into the newest `n` of `s` leaves the newest `n` of `s` and the item. */
  lemma LastOfLast<T>(s: seq<T>, x: T, n: nat)
    requires n > 0
    ensures Last(Last(s, n) + [x], n) == Last(s + [x], n)
  {
    LastSnoc(s, x, n);
    LastSnoc(Last(s, n), x, n);
    assert Last(Last(s, n), n) == Last(s, n);
  }

  class BoundedCollection<T> {
    /** The collection's elements, oldest first. */
    var items: seq<T>
    /** `Capacity`: a public property the owner may change at any time. */
    var capacity: int

    constructor (capacity: int)
      ensures items == [] && this.capacity == capacity
    {
      items := [];
      this.capacity := capacity;
    }

    /** `InsertItem`: the requested index is ignored and the item goes at the end. */
    method InsertItem(index: int, item: T)
      modifies this`items
      ensures |items| > 0 && items[|items| - 1] == item
      ensures capacity <= 0 || |old(items)| < capacity ==> items == old(items) + [item]
      ensures capacity > 0 && |old(items)| >= capacity ==> items == old(items)[1..] + [item]
      ensures capacity > 0 && |old(items)| <= capacity ==> |items| <= capacity
      ensures capacity > 0 && |old(items)| <= capacity ==> items == Last(old(items) + [item], capacity)
    {
      items := items + [item];
      if capacity > 0 && |items| > capacity {
        items := items[1..];
      }
      if capacity > 0 && |old(items)| <= capacity {
        LastSnoc(old(items), item, capacity);
        assert Last(old(items), capacity) == old(items);
      }
    }

    /**
     * `AddRange`: the batch inserted one element at a time. From a state
     * within a positive capacity the collection ends as the newest
     * `capacity` elements of the old contents followed by the batch; when
     * unbounded it is simply both.
     */
    method AddRange(batch: seq<T>)
      modifies this`items
      ensures capacity > 0 && |old(items)| <= capacity ==> items == Last(old(items) + batch, capacity)
      ensures capacity > 0 && |old(items)| <= capacity ==> |items| <= capacity
      ensures capacity <= 0 ==> items == old(items) + batch
    {
      var i := 0;
      while i < |batch|
        invariant 0 <= i <= |batch|
        invariant capacity > 0 && |old(items)| <= capacity ==> items == Last(old(items) + batch[..i], capacity)
        invariant capacity <= 0 ==> items == old(items) + batch[..i]
      {
        ghost var done := old(items) + batch[..i];
        InsertItem(|items|, batch[i]);
        assert old(items) + batch[..i + 1] == done + [batch[i]];
        if capacity > 0 && |old(items)| <= capacity {
          LastOfLast(done, batch[i], capacity);
        }
        i := i + 1;
      }
      assert batch[..|batch|] == batch;
    }
  }
}
