/**
 * A double-ended queue.  The source links its items in a circular list
 * through a sentinel node; here the chain from the sentinel's successor
 * round to its predecessor is the sequence `items`, front first, and
 * `size` is the counter the source keeps beside it.
 */
module Deques {
  import opened Wrappers

  class LinkedDeque<T> {
    /** The items from front to back. */
    var items: seq<T>
    var size: int

    /** The counter always equals the number of items. */
    ghost predicate Valid()
      reads this
    {
      size == |items|
    }

    /** A new deque is empty: the sentinel is linked to itself. */
    constructor ()
      ensures Valid() && items == []
    {
      size := 0;
      items := [];
    }

    /** `addFirst`: `item` becomes the front. */
    method AddFirst(item: T)
      requires Valid()
      modifies this
      ensures Valid() && items == [item] + old(items) && size == old(size) + 1
    {
      items := [item] + items;
      size := size + 1;
    }

    /** `addLast`: `item` becomes the back. */
    method AddLast(item: T)
      requires Valid()
      modifies this
      ensures Valid() && items == old(items) + [item] && size == old(size) + 1
    {
      items := items + [item];
      size := size + 1;
    }

    /** `removeFirst`: `null` on an empty deque, otherwise the front, which is unlinked. */
    method RemoveFirst() returns (r: Option<T>)
      requires Valid()
      modifies this
      ensures Valid()
      ensures old(size) == 0 ==> r == None && items == old(items)
      ensures old(size) > 0 ==> r == Some(old(items)[0]) && items == old(items)[1..] && size == old(size) - 1
    {
      if size == 0 {
        return None;
      }
      r := Some(items[0]);
      items := items[1..];
      size := size - 1;
    }

    /** `removeLast`: `null` on an empty deque, otherwise the back, which is unlinked. */
    method RemoveLast() returns (r: Option<T>)
      requires Valid()
      modifies this
      ensures Valid()
      ensures old(size) == 0 ==> r == None && items == old(items)
      ensures old(size) > 0 ==>
        r == Some(old(items)[old(size) - 1]) && items == old(items)[..old(size) - 1] && size == old(size) - 1
    {
      if size == 0 {
        return None;
      }
      r := Some(items[size - 1]);
      items := items[..size - 1];
      size := size - 1;
    }

    /**
     * `get`: the item at `index` from the front; `null` for a negative index
     * or one past the size, and also for `index == size`, where the walk
     * arrives back at the sentinel, whose value is `null`.
     */
    function Get(index: int): (r: Option<T>)
      reads this
      requires Valid()
      ensures r.Some? <==> 0 <= index < |items|
      ensures r.Some? ==> r.value == items[index]
    {
      if index > size || index < 0 then None
      else if index == size then None
      else Some(items[index])
    }

    /** `size`: the number of items. */
    function Size(): (n: int)
      reads this
      requires Valid()
      ensures n == |items|
    {
      size
    }
  }
}
