/** Insertion sort (`ListSorter.insertionSort`).

For each position `i` the element held there is shifted left past every
element of the sorted prefix that it compares strictly below; the first
element it does not compare below stops the shift. `Insert` and
`InsertionSorted` are the same computation on values. */
module Insertion {
  import opened Ordering
  import opened Lists

  /** `x` placed into `p` after the last element it does not compare below. */
  function Insert<T>(cmp: (T, T) -> int, p: seq<T>, x: T): (r: seq<T>)
    ensures |r| == |p| + 1
  {
    if p == [] then [x]
    else if cmp(x, p[|p| - 1]) >= 0 then p + [x]
    else Insert(cmp, p[..|p| - 1], x) + [p[|p| - 1]]
  }

  /** The prefixes inserted one element at a time, left to right. */
  function InsertionSorted<T>(cmp: (T, T) -> int, s: seq<T>): (r: seq<T>)
    ensures |r| == |s|
  {
    if s == [] then [] else Insert(cmp, InsertionSorted(cmp, s[..|s| - 1]), s[|s| - 1])
  }

  lemma {:induction false} InsertPermutes<T>(cmp: (T, T) -> int, p: seq<T>, x: T)
    ensures multiset(Insert(cmp, p, x)) == multiset(p) + multiset{x}
  {
    if p != [] && cmp(x, p[|p| - 1]) < 0 {
      InsertPermutes(cmp, p[..|p| - 1], x);
      assert p == p[..|p| - 1] + [p[|p| - 1]];
    }
  }

  lemma {:induction false} InsertKeepsSorted<T(!new)>(cmp: (T, T) -> int, p: seq<T>, x: T)
    requires Comparator(cmp)
    requires Sorted(cmp, p)
    ensures Sorted(cmp, Insert(cmp, p, x))
  {
    if p != [] {
      var last := p[|p| - 1];
      if cmp(x, last) >= 0 {
        assert forall i :: 0 <= i < |p| ==> cmp(p[i], last) <= 0;
      } else {
        var q := p[..|p| - 1];
        InsertKeepsSorted(cmp, q, x);
        InsertPermutes(cmp, q, x);
        var r := Insert(cmp, q, x);
        forall i | 0 <= i < |r| ensures cmp(r[i], last) <= 0 {
          assert r[i] in multiset(q) + multiset{x};
          if r[i] != x {
            assert r[i] in q;
          }
        }
      }
    }
  }

  /** Inserting `x` adds it at the end of its class and leaves the other
      classes alone: the held element never passes an equal one. */
  lemma {:induction false} InsertSelect<T(!new)>(cmp: (T, T) -> int, p: seq<T>, x: T, y: T)
    requires Comparator(cmp)
    ensures Select(cmp, Insert(cmp, p, x), y)
         == Select(cmp, p, y) + (if cmp(x, y) == 0 then [x] else [])
  {
    if p == [] {
    } else {
      var q, last := p[..|p| - 1], p[|p| - 1];
      assert p == q + [last];
      SelectAppend(cmp, q, [last], y);
      if cmp(x, last) >= 0 {
        SelectAppend(cmp, p, [x], y);
      } else {
        InsertSelect(cmp, q, x, y);
        SelectAppend(cmp, Insert(cmp, q, x), [last], y);
        // x and last are not equal, so at most one of them is in y's class
        assert !(cmp(x, y) == 0 && cmp(last, y) == 0);
      }
    }
  }

  /** Insertion sort yields a sorted, stable permutation of its input. */
  lemma InsertionSortedCorrect<T(!new)>(cmp: (T, T) -> int, s: seq<T>)
    requires Comparator(cmp)
    ensures Sorted(cmp, InsertionSorted(cmp, s))
    ensures Stable(cmp, s, InsertionSorted(cmp, s))
    ensures multiset(InsertionSorted(cmp, s)) == multiset(s)
  {
    InsertionSortedSorted(cmp, s);
    InsertionSortedStable(cmp, s);
    InsertionSortedPermutes(cmp, s);
  }

  lemma {:induction false} InsertionSortedPermutes<T>(cmp: (T, T) -> int, s: seq<T>)
    ensures multiset(InsertionSorted(cmp, s)) == multiset(s)
  {
    if s != [] {
      var q, last := s[..|s| - 1], s[|s| - 1];
      calc {
        multiset(InsertionSorted(cmp, s));
        multiset(Insert(cmp, InsertionSorted(cmp, q), last));
        { InsertPermutes(cmp, InsertionSorted(cmp, q), last); }
        multiset(InsertionSorted(cmp, q)) + multiset{last};
        { InsertionSortedPermutes(cmp, q); }
        multiset(q) + multiset{last};
        { assert s == q + [last]; }
        multiset(s);
      }
    }
  }

  lemma {:induction false} InsertionSortedSorted<T(!new)>(cmp: (T, T) -> int, s: seq<T>)
    requires Comparator(cmp)
    ensures Sorted(cmp, InsertionSorted(cmp, s))
  {
    if s != [] {
      InsertionSortedSorted(cmp, s[..|s| - 1]);
      InsertKeepsSorted(cmp, InsertionSorted(cmp, s[..|s| - 1]), s[|s| - 1]);
    }
  }

  lemma {:induction false} InsertionSortedStable<T(!new)>(cmp: (T, T) -> int, s: seq<T>)
    requires Comparator(cmp)
    ensures Stable(cmp, s, InsertionSorted(cmp, s))
  {
    if s != [] {
      var q, last := s[..|s| - 1], s[|s| - 1];
      InsertionSortedStable(cmp, q);
      assert s == q + [last];
      forall y ensures Select(cmp, InsertionSorted(cmp, s), y) == Select(cmp, s, y) {
        var tail := if cmp(last, y) == 0 then [last] else [];
        calc {
          Select(cmp, InsertionSorted(cmp, s), y);
          { InsertSelect(cmp, InsertionSorted(cmp, q), last, y); }
          Select(cmp, InsertionSorted(cmp, q), y) + tail;
          Select(cmp, q, y) + tail;
          { SelectAppend(cmp, q, [last], y); }
          Select(cmp, s, y);
        }
      }
    }
  }

  /** Sorting a sorted sequence changes nothing: every held element already
      compares at or above its left neighbour. */
  lemma {:induction false} InsertionSortedIdempotent<T(!new)>(cmp: (T, T) -> int, s: seq<T>)
    requires Comparator(cmp)
    requires Sorted(cmp, s)
    ensures InsertionSorted(cmp, s) == s
  {
    if s != [] {
      var q, last := s[..|s| - 1], s[|s| - 1];
      assert Sorted(cmp, q);
      InsertionSortedIdempotent(cmp, q);
      if q != [] {
        assert cmp(q[|q| - 1], last) <= 0;
      }
      calc {
        InsertionSorted(cmp, s);
        Insert(cmp, q, last);
        q + [last];
        s;
      }
    }
  }

  /** Where the shift loop stops: `x` compares below every element from `j`
      on and not below the one before `j`, so it is inserted at `j`. */
  lemma {:induction false} InsertAt<T>(cmp: (T, T) -> int, p: seq<T>, j: nat, x: T)
    requires j <= |p|
    requires j == 0 || cmp(x, p[j - 1]) >= 0
    requires forall k :: j <= k < |p| ==> cmp(x, p[k]) < 0
    ensures Insert(cmp, p, x) == p[..j] + [x] + p[j..]
  {
    if j < |p| {
      var q := p[..|p| - 1];
      InsertAt(cmp, q, j, x);
      assert q[..j] == p[..j] && q[j..] + [p[|p| - 1]] == p[j..];
    } else {
      assert p[..j] == p;
    }
  }

  /** One more element of the input inserted into the sorted prefix. */
  lemma InsertionSortedStep<T>(cmp: (T, T) -> int, s: seq<T>, i: nat)
    requires i < |s|
    ensures |InsertionSorted(cmp, s[..i])| == i
    ensures InsertionSorted(cmp, s[..i + 1]) == Insert(cmp, InsertionSorted(cmp, s[..i]), s[i])
    ensures |InsertionSorted(cmp, s[..i + 1])| == i + 1
  {
    assert s[..i + 1][..i] == s[..i];
    InsertionSortedPermutes(cmp, s[..i]);
    InsertionSortedPermutes(cmp, s[..i + 1]);
    assert |multiset(InsertionSorted(cmp, s[..i]))| == |multiset(s[..i])|;
    assert |multiset(InsertionSorted(cmp, s[..i + 1]))| == |multiset(s[..i + 1])|;
  }

  /** `insertionSort(list, comparator)`: the list becomes the insertion-sorted
      arrangement of its old contents, hence sorted and stable. */
  method InsertionSort<T(!new)>(list: List<T>, cmp: (T, T) -> int)
    modifies list
    ensures list.elems == InsertionSorted(cmp, old(list.elems))
    ensures Comparator(cmp) ==> Sorted(cmp, list.elems) && Stable(cmp, old(list.elems), list.elems)
  {
    ghost var s := list.elems;
    var i := 1;
    while i < list.Size()
      invariant |list.elems| == |s|
      invariant 1 <= i && (i <= |s| || s == [])
      invariant i <= |s| ==> list.elems == InsertionSorted(cmp, s[..i]) + s[i..]
      invariant s == [] ==> list.elems == []
      decreases |s| - i
    {
      ghost var p := InsertionSorted(cmp, s[..i]);
      InsertionSortedStep(cmp, s, i);
      assert list.elems[..i] == p && list.elems[i] == s[i] && list.elems[i + 1..] == s[i + 1..];
      ShiftIntoPlace(list, i, cmp);
      i := i + 1;
    }
    if s != [] {
      assert s[..|s|] == s;
    }
    if Comparator(cmp) {
      InsertionSortedCorrect(cmp, s);
    }
  }

  /** The body of the outer loop of `insertionSort`: the element held at `i`
      moves left past every element of the prefix it compares below, each of
      which moves one place right, and is stored where the shift stops. */
  method ShiftIntoPlace<T>(list: List<T>, i: nat, cmp: (T, T) -> int)
    requires 0 < i < |list.elems|
    modifies list
    ensures list.elems == Insert(cmp, old(list.elems)[..i], old(list.elems)[i]) + old(list.elems)[i + 1..]
  {
    ghost var s := list.elems;
    ghost var p := s[..i];
    var held := list.Get(i);
    var j := i;
    while j > 0
      invariant 0 <= j <= i && |list.elems| == |s|
      invariant forall k :: 0 <= k < j ==> list.elems[k] == s[k]
      invariant forall k :: j < k <= i ==> list.elems[k] == s[k - 1]
      invariant forall k :: i < k < |s| ==> list.elems[k] == s[k]
      invariant forall k :: j <= k < i ==> cmp(held, s[k]) < 0
    {
      var e := list.Get(j - 1);
      if cmp(held, e) >= 0 {
        break;
      }
      list.Set(j, e);
      j := j - 1;
    }
    list.Set(j, held);
    InsertAt(cmp, p, j, held);
    Shifted(list.elems, s, i, j);
  }

  /** The arrangement the shift loop leaves, read as a sequence: the prefix
      up to `j`, the held element, the rest of the prefix, the suffix. */
  lemma Shifted<T>(e: seq<T>, s: seq<T>, i: nat, j: nat)
    requires j <= i < |s| == |e|
    requires forall k :: 0 <= k < j ==> e[k] == s[k]
    requires e[j] == s[i]
    requires forall k :: j < k <= i ==> e[k] == s[k - 1]
    requires forall k :: i < k < |s| ==> e[k] == s[k]
    ensures e == s[..i][..j] + [s[i]] + s[..i][j..] + s[i + 1..]
  {
    var r := s[..i][..j] + [s[i]] + s[..i][j..] + s[i + 1..];
    assert |r| == |e|;
    forall k | 0 <= k < |e| ensures e[k] == r[k] {
      if k < j {
      } else if k == j {
      } else if k <= i {
        assert r[k] == s[..i][j..][k - j - 1];
      } else {
        assert r[k] == s[i + 1..][k - i - 1];
      }
    }
  }
}
