/** Merge sort (`ListSorter.mergeSort`, `merge`, `mergeSortInPlace`).

`Merged` and `MergeSorted` are the value-level meaning of `merge` and
`mergeSort`; the methods work on list objects as the source does, removing
from the front of the two halves and appending to a new list. */
module Merging {
  import opened Ordering
  import opened Lists
  import Insertion

  /** The two lists merged front to front; ties are taken from the left. */
  function Merged<T>(cmp: (T, T) -> int, l: seq<T>, r: seq<T>): (m: seq<T>)
    ensures |m| == |l| + |r|
    decreases |l| + |r|
  {
    if l == [] then r
    else if r == [] then l
    else if cmp(l[0], r[0]) <= 0 then [l[0]] + Merged(cmp, l[1..], r)
    else [r[0]] + Merged(cmp, l, r[1..])
  }

  /** Split at `|s| / 2`, sort both halves, merge; fewer than two elements
      are returned as they are. */
  function MergeSorted<T>(cmp: (T, T) -> int, s: seq<T>): (r: seq<T>)
    ensures |r| == |s|
    decreases |s|
  {
    if |s| < 2 then s
    else
      var half := |s| / 2;
      Merged(cmp, MergeSorted(cmp, s[..half]), MergeSorted(cmp, s[half..]))
  }

  lemma MergedPermutes<T>(cmp: (T, T) -> int, l: seq<T>, r: seq<T>)
    ensures multiset(Merged(cmp, l, r)) == multiset(l) + multiset(r)
    ensures |Merged(cmp, l, r)| == |l| + |r|
  {
    MergedMultiset(cmp, l, r);
    assert |multiset(Merged(cmp, l, r))| == |multiset(l) + multiset(r)|;
  }

  lemma {:induction false} MergedMultiset<T>(cmp: (T, T) -> int, l: seq<T>, r: seq<T>)
    ensures multiset(Merged(cmp, l, r)) == multiset(l) + multiset(r)
    decreases |l| + |r|
  {
    if l != [] && r != [] {
      if cmp(l[0], r[0]) <= 0 {
        MergedMultiset(cmp, l[1..], r);
        assert Merged(cmp, l, r) == [l[0]] + Merged(cmp, l[1..], r);
        assert l == [l[0]] + l[1..];
      } else {
        MergedMultiset(cmp, l, r[1..]);
        assert Merged(cmp, l, r) == [r[0]] + Merged(cmp, l, r[1..]);
        assert r == [r[0]] + r[1..];
      }
    }
  }

  /** Every element of the merge of two sequences lies at or above `x` when
      every element of both does. */
  lemma MergedAbove<T>(cmp: (T, T) -> int, l: seq<T>, r: seq<T>, x: T)
    requires forall i :: 0 <= i < |l| ==> cmp(x, l[i]) <= 0
    requires forall i :: 0 <= i < |r| ==> cmp(x, r[i]) <= 0
    ensures forall i :: 0 <= i < |Merged(cmp, l, r)| ==> cmp(x, Merged(cmp, l, r)[i]) <= 0
  {
    MergedPermutes(cmp, l, r);
    var m := Merged(cmp, l, r);
    forall i | 0 <= i < |m| ensures cmp(x, m[i]) <= 0 {
      assert m[i] in multiset(l) + multiset(r);
      if m[i] in l {
        var k :| 0 <= k < |l| && l[k] == m[i];
      } else {
        assert m[i] in r;
        var k :| 0 <= k < |r| && r[k] == m[i];
      }
    }
  }

  /** Merging two sorted sequences gives a sorted sequence. */
  lemma {:induction false} MergedSorted<T(!new)>(cmp: (T, T) -> int, l: seq<T>, r: seq<T>)
    requires Comparator(cmp)
    requires Sorted(cmp, l) && Sorted(cmp, r)
    ensures Sorted(cmp, Merged(cmp, l, r))
    decreases |l| + |r|
  {
    if l != [] && r != [] {
      if cmp(l[0], r[0]) <= 0 {
        MergedSorted(cmp, l[1..], r);
        MergedAbove(cmp, l[1..], r, l[0]);
      } else {
        MergedSorted(cmp, l, r[1..]);
        MergedAbove(cmp, l, r[1..], r[0]);
      }
    }
  }

  /** The merge keeps each class of the left input ahead of the same class of
      the right input: taking ties from the left makes it stable. */
  lemma {:induction false} MergedSelect<T(!new)>(cmp: (T, T) -> int, l: seq<T>, r: seq<T>, x: T)
    requires Comparator(cmp)
    requires Sorted(cmp, l)
    ensures Select(cmp, Merged(cmp, l, r), x) == Select(cmp, l, x) + Select(cmp, r, x)
    decreases |l| + |r|
  {
    if l == [] {
    } else if r == [] {
    } else if cmp(l[0], r[0]) <= 0 {
      var m := Merged(cmp, l[1..], r);
      assert Merged(cmp, l, r) == [l[0]] + m;
      assert Sorted(cmp, l[1..]);
      MergedSelect(cmp, l[1..], r, x);
      SelectAppend(cmp, [l[0]], m, x);
      assert l == [l[0]] + l[1..];
      SelectAppend(cmp, [l[0]], l[1..], x);
    } else {
      var m := Merged(cmp, l, r[1..]);
      assert Merged(cmp, l, r) == [r[0]] + m;
      MergedSelect(cmp, l, r[1..], x);
      SelectAppend(cmp, [r[0]], m, x);
      assert r == [r[0]] + r[1..];
      SelectAppend(cmp, [r[0]], r[1..], x);
      if cmp(r[0], x) == 0 {
        SelectAbove(cmp, l, x, r[0]);
      }
    }
  }

  /** A sorted sequence whose first element lies strictly above `y` holds
      nothing of the class of `y`. */
  lemma SelectAbove<T(!new)>(cmp: (T, T) -> int, l: seq<T>, x: T, y: T)
    requires Comparator(cmp)
    requires Sorted(cmp, l) && l != []
    requires cmp(y, x) == 0 && cmp(y, l[0]) < 0
    ensures Select(cmp, l, x) == []
  {
    forall i | 0 <= i < |l| ensures cmp(l[i], x) != 0 {
      assert cmp(l[0], l[i]) <= 0;
      TransitiveStrict(cmp, x, y, l[0]);
      TransitiveStrict(cmp, x, l[0], l[i]);
    }
    SelectNone(cmp, l, x);
  }

  /** Merge sort yields a sorted, stable permutation of its input. */
  lemma {:induction false} MergeSortedCorrect<T(!new)>(cmp: (T, T) -> int, s: seq<T>)
    requires Comparator(cmp)
    ensures Sorted(cmp, MergeSorted(cmp, s))
    ensures Stable(cmp, s, MergeSorted(cmp, s))
    ensures multiset(MergeSorted(cmp, s)) == multiset(s)
    decreases |s|
  {
    if |s| >= 2 {
      var half := |s| / 2;
      var left, right := MergeSorted(cmp, s[..half]), MergeSorted(cmp, s[half..]);
      MergeSortedCorrect(cmp, s[..half]);
      MergeSortedCorrect(cmp, s[half..]);
      MergedSorted(cmp, left, right);
      assert s == s[..half] + s[half..];
      forall x ensures Select(cmp, MergeSorted(cmp, s), x) == Select(cmp, s, x) {
        MergedSelect(cmp, left, right, x);
        SelectAppend(cmp, s[..half], s[half..], x);
      }
      StableIsPermutation(cmp, s, MergeSorted(cmp, s));
    }
  }

  /** Merge sort and insertion sort, both stable, agree on every input. */
  lemma MergeSortedIsInsertionSorted<T(!new)>(cmp: (T, T) -> int, s: seq<T>)
    requires Comparator(cmp)
    ensures MergeSorted(cmp, s) == Insertion.InsertionSorted(cmp, s)
  {
    MergeSortedCorrect(cmp, s);
    Insertion.InsertionSortedCorrect(cmp, s);
    SortedStableUnique(cmp, Insertion.InsertionSorted(cmp, s), MergeSorted(cmp, s));
  }

  /** Merge sort leaves a sorted sequence as it is. */
  lemma MergeSortedIdempotent<T(!new)>(cmp: (T, T) -> int, s: seq<T>)
    requires Comparator(cmp)
    requires Sorted(cmp, s)
    ensures MergeSorted(cmp, s) == s
  {
    MergeSortedCorrect(cmp, s);
    SortedStableUnique(cmp, s, MergeSorted(cmp, s));
  }

  /** The first element of a merge, and what is left to merge after it. */
  lemma MergedHead<T>(cmp: (T, T) -> int, l: seq<T>, r: seq<T>)
    requires l != [] || r != []
    ensures r == [] || (l != [] && cmp(l[0], r[0]) <= 0) ==>
              Merged(cmp, l, r) == [l[0]] + Merged(cmp, l[1..], r)
    ensures l == [] || (r != [] && cmp(l[0], r[0]) > 0) ==>
              Merged(cmp, l, r) == [r[0]] + Merged(cmp, l, r[1..])
  {
    if l == [] {
      assert r == [r[0]] + r[1..];
    } else if r == [] {
      assert l == [l[0]] + l[1..];
    }
  }

  /** `merge(leftList, rightList, comparator)`: drains both lists into a new
      one. The outer loop runs at most `size` times; every round that does
      not stop moves at least one element, so `size` rounds always suffice. */
  method Merge<T>(left: List<T>, right: List<T>, cmp: (T, T) -> int) returns (sorted: List<T>)
    requires left != right
    modifies left, right
    ensures fresh(sorted)
    ensures sorted.elems == Merged(cmp, old(left.elems), old(right.elems))
    ensures left.elems == [] && right.elems == []
  {
    sorted := new List.Empty();
    var size := left.Size() + right.Size();
    ghost var goal := Merged(cmp, left.elems, right.elems);
    for i := 0 to size
      invariant sorted.elems + Merged(cmp, left.elems, right.elems) == goal
      invariant left.Size() + right.Size() <= size - i
    {
      MergeWhileBoth(left, right, sorted, cmp);
      if left.Size() == 0 && right.Size() == 0 {
        break;
      }
      if left.Size() == 0 {
        MoveFirst(cmp, right, left, right, sorted);
      } else if right.Size() == 0 {
        MoveFirst(cmp, left, left, right, sorted);
      }
    }
  }

  /** The inner loop of `merge`: while both lists hold elements, the smaller
      front element moves to `sorted`, the left one on a tie. */
  method MergeWhileBoth<T>(left: List<T>, right: List<T>, sorted: List<T>, cmp: (T, T) -> int)
    requires left != right && sorted != left && sorted != right
    modifies left, right, sorted
    ensures sorted.elems + Merged(cmp, left.elems, right.elems)
         == old(sorted.elems) + Merged(cmp, old(left.elems), old(right.elems))
    ensures left.Size() + right.Size() <= old(left.Size() + right.Size())
    ensures left.Size() == 0 || right.Size() == 0
  {
    while left.Size() > 0 && right.Size() > 0
      invariant sorted.elems + Merged(cmp, left.elems, right.elems)
             == old(sorted.elems) + Merged(cmp, old(left.elems), old(right.elems))
      invariant left.Size() + right.Size() <= old(left.Size() + right.Size())
      decreases left.Size() + right.Size()
    {
      var comp := cmp(left.Get(0), right.Get(0));
      if comp < 0 || comp == 0 {
        MoveFirst(cmp, left, left, right, sorted);
      } else {
        MoveFirst(cmp, right, left, right, sorted);
      }
    }
  }

  /** `sorted.add(from.remove(0))` where `from` is the list whose front element
      comes first in the merge of `left` and `right`. */
  method MoveFirst<T>(cmp: (T, T) -> int, from: List<T>, left: List<T>, right: List<T>, sorted: List<T>)
    requires left != right && sorted != left && sorted != right
    requires from == left || from == right
    requires from.elems != []
    requires from == left ==> right.elems == [] || cmp(left.elems[0], right.elems[0]) <= 0
    requires from == right ==> left.elems == [] || cmp(left.elems[0], right.elems[0]) > 0
    modifies from, sorted
    ensures sorted.elems + Merged(cmp, left.elems, right.elems)
         == old(sorted.elems) + Merged(cmp, old(left.elems), old(right.elems))
    ensures |from.elems| == |old(from.elems)| - 1
  {
    MergedHead(cmp, left.elems, right.elems);
    var x := from.RemoveFirst();
    sorted.Add(x);
    assert old(sorted.elems) + [x] + Merged(cmp, left.elems, right.elems)
        == old(sorted.elems) + ([x] + Merged(cmp, left.elems, right.elems));
  }

  /** `mergeSort(list, comparator)`: the result holds the merge-sorted contents
      and `list` is not changed. A list of fewer than two elements is itself
      the result; otherwise the result is a new list. */
  method MergeSort<T>(list: List<T>, cmp: (T, T) -> int) returns (r: List<T>)
    ensures r.elems == MergeSorted(cmp, list.elems)
    ensures |list.elems| < 2 ==> r == list
    ensures |list.elems| >= 2 ==> fresh(r)
    decreases |list.elems|
  {
    var size := list.Size();
    if size < 2 {
      return list;
    }
    var splitPoint := size / 2;
    var leftCopy := new List.FromSeq(list.elems[..splitPoint]);
    var leftList := MergeSort(leftCopy, cmp);
    var rightCopy := new List.FromSeq(list.elems[splitPoint..]);
    var rightList := MergeSort(rightCopy, cmp);
    r := Merge(leftList, rightList, cmp);
  }

  /** `mergeSortInPlace(list, comparator)` as written: `list.clear()` also
      empties `sorted` when `mergeSort` handed back `list` itself, so a list
      of one element ends empty. Every other list ends merge-sorted. */
  method MergeSortInPlaceAsWritten<T>(list: List<T>, cmp: (T, T) -> int)
    modifies list
    ensures |old(list.elems)| != 1 ==> list.elems == MergeSorted(cmp, old(list.elems))
    ensures |old(list.elems)| == 1 ==> list.elems == []
  {
    var sorted := MergeSort(list, cmp);
    list.Clear();
    list.AddAll(sorted);
  }

  /** `mergeSortInPlace(list, comparator)` as intended: the list ends holding
      the merge-sorted arrangement of its old contents, for every length. */
  method MergeSortInPlace<T(!new)>(list: List<T>, cmp: (T, T) -> int)
    modifies list
    ensures list.elems == MergeSorted(cmp, old(list.elems))
    ensures Comparator(cmp) ==> Sorted(cmp, list.elems) && Stable(cmp, old(list.elems), list.elems)
  {
    var sorted := MergeSort(list, cmp);
    if sorted != list {
      list.Clear();
      list.AddAll(sorted);
    }
    if Comparator(cmp) {
      MergeSortedCorrect(cmp, old(list.elems));
    }
  }
}
