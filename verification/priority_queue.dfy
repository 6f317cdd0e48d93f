/** The part of `java.util.PriorityQueue` that heap sort and top-k use.

The queue is a bag of elements ordered by the comparator it was built with:
`offer` adds an element and `peek` / `poll` give back an element that no
other element of the bag compares strictly below. How the bag is stored
(a binary heap in the library) does not show through those operations, so
here it is an unordered sequence searched front to back. */
module PriorityQueues {
  import opened Ordering

  class PriorityQueue<T(!new)> {
    const cmp: (T, T) -> int
    var items: seq<T>

    /** The elements held, with their multiplicities. */
    ghost function Contents(): multiset<T>
      reads this
    {
      multiset(items)
    }

    /** `x` is in the bag and nothing in the bag compares strictly below it. */
    ghost predicate IsLeast(x: T)
      reads this
    {
      x in Contents() && forall y :: y in Contents() ==> cmp(x, y) <= 0
    }

    /** `new PriorityQueue(initialCapacity, comparator)`; the library refuses
        an initial capacity below one. */
    constructor (initialCapacity: int, comparator: (T, T) -> int)
      requires initialCapacity >= 1
      ensures cmp == comparator && Contents() == multiset{}
    {
      cmp := comparator;
      items := [];
    }

    function Size(): (n: nat)
      reads this
      ensures n == |Contents()|
    {
      |items|
    }

    method Offer(x: T)
      modifies this
      ensures Contents() == old(Contents()) + multiset{x}
    {
      items := items + [x];
    }

    /** Where a least element is held: the first one the scan meets that no
        later one compares strictly below. */
    method LeastIndex() returns (m: nat)
      requires items != []
      ensures m < |items|
      ensures Comparator(cmp) ==> forall k :: 0 <= k < |items| ==> cmp(items[m], items[k]) <= 0
    {
      m := 0;
      for i := 1 to |items|
        invariant m < i
        invariant Comparator(cmp) ==> forall k :: 0 <= k < i ==> cmp(items[m], items[k]) <= 0
      {
        if cmp(items[i], items[m]) < 0 {
          if Comparator(cmp) {
            forall k | 0 <= k < i ensures cmp(items[i], items[k]) <= 0 {
              TransitiveStrict(cmp, items[i], items[m], items[k]);
            }
          }
          m := i;
        }
      }
    }

    /** `peek()` on a non-empty queue: a least element, the queue unchanged. */
    method Peek() returns (x: T)
      requires Contents() != multiset{}
      ensures x in Contents()
      ensures Comparator(cmp) ==> IsLeast(x)
    {
      var m := LeastIndex();
      x := items[m];
      LeastOfItems(m);
    }

    /** `poll()` on a non-empty queue: a least element, removed. */
    method Poll() returns (x: T)
      requires Contents() != multiset{}
      modifies this
      ensures Contents() == old(Contents()) - multiset{x}
      ensures x in old(Contents())
      ensures Comparator(cmp) ==> forall y :: y in old(Contents()) ==> cmp(x, y) <= 0
    {
      var m := LeastIndex();
      x := items[m];
      LeastOfItems(m);
      assert items == items[..m] + [x] + items[m + 1..];
      items := items[..m] + items[m + 1..];
    }

    /** The bound found by the scan, restated over the bag. */
    lemma LeastOfItems(m: nat)
      requires m < |items|
      requires Comparator(cmp) ==> forall k :: 0 <= k < |items| ==> cmp(items[m], items[k]) <= 0
      ensures items[m] in Contents()
      ensures Comparator(cmp) ==> IsLeast(items[m])
    {
      forall y | y in Contents() ensures Comparator(cmp) ==> cmp(items[m], y) <= 0 {
        var k :| 0 <= k < |items| && items[k] == y;
      }
    }
  }
}
