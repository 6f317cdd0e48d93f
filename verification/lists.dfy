/** The part of `java.util.List` that the sorting routines use.

A list is an object: the routines receive the caller's list and change it
in place, and one of them returns the very object it was given. Its
contents are the sequence `elems`; every operation below says what
`elems` becomes. `ArrayList` and `LinkedList` behave alike here. */
module Lists {

  class List<T> {
    var elems: seq<T>

    /** `new ArrayList<>(s)` / `new LinkedList<>(s)`: a fresh list holding a copy. */
    constructor FromSeq(s: seq<T>)
      ensures elems == s
    {
      elems := s;
    }

    /** `new LinkedList<T>()`. */
    constructor Empty()
      ensures elems == []
    {
      elems := [];
    }

    function Size(): (n: nat)
      reads this
      ensures n == |elems|
    {
      |elems|
    }

    function Get(i: nat): (x: T)
      requires i < |elems|
      reads this
      ensures x == elems[i]
    {
      elems[i]
    }

    method Set(i: nat, x: T)
      requires i < |elems|
      modifies this
      ensures elems == old(elems)[i := x]
    {
      elems := elems[i := x];
    }

    method Clear()
      modifies this
      ensures elems == []
    {
      elems := [];
    }

    method Add(x: T)
      modifies this
      ensures elems == old(elems) + [x]
    {
      elems := elems + [x];
    }

    /** `addAll` copies `other` as it is when the call starts, so a list may
        be appended to itself. */
    method AddAll(other: List<T>)
      modifies this
      ensures elems == old(elems) + old(other.elems)
    {
      elems := elems + other.elems;
    }

    /** `remove(0)` on a non-empty list. */
    method RemoveFirst() returns (x: T)
      requires elems != []
      modifies this
      ensures x == old(elems)[0] && elems == old(elems)[1..]
    {
      x := elems[0];
      elems := elems[1..];
    }
  }
}
