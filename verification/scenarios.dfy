/** The example runs from the repository's unit tests, stated as results of
the model: each routine applied to the test's input yields the test's
expected output. Integers are compared with their natural order, as the
tests' comparator does. */
module Scenarios {
  import opened Ordering
  import opened Lists
  import Insertion
  import Merging
  import Heaps
  import Radix

  /** The only ascending arrangement of the five integers the sorting tests use. */
  lemma OnlyArrangement(r: seq<int>)
    requires Sorted(IntCompare, r)
    requires multiset(r) == multiset([3, 5, 1, 4, 2])
    ensures r == [1, 2, 3, 4, 5]
  {
    IntCompareIsComparator();
    ExpectedInts();
    ExpectedIntsPermute();
    SortedPermutationUnique(IntCompare, [1, 2, 3, 4, 5], r);
  }

  lemma ExpectedInts()
    ensures Sorted(IntCompare, [1, 2, 3, 4, 5])
  {
    IntCompareIsComparator();
    SortedByNeighbours(IntCompare, [1, 2, 3, 4, 5]);
  }

  lemma ExpectedIntsPermute()
    ensures multiset([1, 2, 3, 4, 5]) == multiset([3, 5, 1, 4, 2])
  {
  }

  /** `insertionSort` on `3, 5, 1, 4, 2`. */
  method InsertionSortExample() returns (r: seq<int>)
    ensures r == [1, 2, 3, 4, 5]
  {
    var list := new List.FromSeq([3, 5, 1, 4, 2]);
    Insertion.InsertionSort(list, IntCompare);
    IntCompareIsComparator();
    Insertion.InsertionSortedPermutes(IntCompare, [3, 5, 1, 4, 2]);
    OnlyArrangement(list.elems);
    r := list.elems;
  }

  /** `mergeSort` on `3, 5, 1, 4, 2`. */
  method MergeSortExample() returns (r: seq<int>)
    ensures r == [1, 2, 3, 4, 5]
  {
    var list := new List.FromSeq([3, 5, 1, 4, 2]);
    var sorted := Merging.MergeSort(list, IntCompare);
    IntCompareIsComparator();
    Merging.MergeSortedCorrect(IntCompare, [3, 5, 1, 4, 2]);
    OnlyArrangement(sorted.elems);
    r := sorted.elems;
  }

  /** `mergeSort` on the single element `6`: the very list passed in comes
      back, still holding `6`. */
  method MergeSortSingleExample() returns (r: seq<int>, same: bool)
    ensures r == [6] && same
  {
    var list := new List.FromSeq([6]);
    var sorted := Merging.MergeSort(list, IntCompare);
    r := sorted.elems;
    same := sorted == list;
  }

  /** `mergeSortInPlace` on `3, 5, 1, 4, 2`. */
  method MergeSortInPlaceExample() returns (r: seq<int>)
    ensures r == [1, 2, 3, 4, 5]
  {
    var list := new List.FromSeq([3, 5, 1, 4, 2]);
    Merging.MergeSortInPlace(list, IntCompare);
    IntCompareIsComparator();
    Merging.MergeSortedCorrect(IntCompare, [3, 5, 1, 4, 2]);
    OnlyArrangement(list.elems);
    r := list.elems;
  }

  /** `mergeSortInPlace` as written, on the single element `6`: the list ends
      empty, where the sorted arrangement of `6` is `6`. */
  method MergeSortInPlaceAsWrittenSingle() returns (r: seq<int>)
    ensures r == [] && Merging.MergeSorted(IntCompare, [6]) == [6]
  {
    var list := new List.FromSeq([6]);
    Merging.MergeSortInPlaceAsWritten(list, IntCompare);
    r := list.elems;
  }

  /** `heapSort` on `3, 5, 1, 4, 2`. */
  method HeapSortExample() returns (r: seq<int>)
    ensures r == [1, 2, 3, 4, 5]
  {
    var list := new List.FromSeq([3, 5, 1, 4, 2]);
    Heaps.HeapSort(list, IntCompare);
    IntCompareIsComparator();
    OnlyArrangement(list.elems);
    r := list.elems;
  }

  /** `topK(4, …)` on `6, 3, 5, 8, 1, 4, 2, 7`: every answer is `5, 6, 7, 8`. */
  lemma OnlyTopFour(r: seq<int>)
    requires Heaps.IsTopK(IntCompare, 4, [6, 3, 5, 8, 1, 4, 2, 7], r)
    ensures r == [5, 6, 7, 8]
  {
    TopFourBounds(r);
    TopFourStrict(r);
    TopFourValues(r);
    FourValues(r);
  }

  lemma FourValues(r: seq<int>)
    requires |r| == 4 && r[0] == 5 && r[1] == 6 && r[2] == 7 && r[3] == 8
    ensures r == [5, 6, 7, 8]
  {
  }

  /** Each of 5 to 8 is kept, or else it is left out and at or below all
      kept; with four strictly ascending values from 1 to 8 kept, they are
      exactly 5 to 8. */
  lemma TopFourValues(r: seq<int>)
    requires Heaps.IsTopK(IntCompare, 4, [6, 3, 5, 8, 1, 4, 2, 7], r)
    requires |r| == 4 && 1 <= r[0] && r[3] <= 8 && r[0] < r[1] < r[2] < r[3]
    ensures r[0] == 5 && r[1] == 6 && r[2] == 7 && r[3] == 8
  {
    var s := [6, 3, 5, 8, 1, 4, 2, 7];
    LeftOut(r, s, 5);
    LeftOut(r, s, 6);
    LeftOut(r, s, 7);
    LeftOut(r, s, 8);
  }

  /** Four elements are kept, each one of the input's. */
  lemma TopFourBounds(r: seq<int>)
    requires |r| == 4 && multiset(r) <= multiset([6, 3, 5, 8, 1, 4, 2, 7])
    ensures 1 <= r[0] && r[3] <= 8
  {
    KeptFromInput(r, [6, 3, 5, 8, 1, 4, 2, 7], 0);
    KeptFromInput(r, [6, 3, 5, 8, 1, 4, 2, 7], 3);
    InputBounds(r[0]);
    InputBounds(r[3]);
  }

  /** The four kept are strictly ascending: the input holds each value once. */
  lemma TopFourStrict(r: seq<int>)
    requires |r| == 4 && multiset(r) <= multiset([6, 3, 5, 8, 1, 4, 2, 7])
    requires Sorted(IntCompare, r)
    ensures r[0] < r[1] < r[2] < r[3]
  {
    InputOnce();
    KeptOnce(r, [6, 3, 5, 8, 1, 4, 2, 7], 0, 1);
    KeptOnce(r, [6, 3, 5, 8, 1, 4, 2, 7], 1, 2);
    KeptOnce(r, [6, 3, 5, 8, 1, 4, 2, 7], 2, 3);
  }

  lemma KeptFromInput<T>(r: seq<T>, s: seq<T>, i: nat)
    requires multiset(r) <= multiset(s) && i < |r|
    ensures r[i] in s
  {
    assert r[i] in multiset(r);
  }

  lemma InputBounds(x: int)
    requires x in [6, 3, 5, 8, 1, 4, 2, 7]
    ensures 1 <= x <= 8
  {
  }

  lemma InputOnce()
    ensures forall x :: multiset([6, 3, 5, 8, 1, 4, 2, 7])[x] <= 1
  {
  }

  lemma KeptOnce<T>(r: seq<T>, s: seq<T>, i: nat, j: nat)
    requires multiset(r) <= multiset(s) && forall x :: multiset(s)[x] <= 1
    requires i < j < |r|
    ensures r[i] != r[j]
  {
    if r[i] == r[j] {
      Twice(r, i, j);
      assert false;
    }
  }

  lemma Twice<T>(r: seq<T>, i: nat, j: nat)
    requires i < j < |r| && r[i] == r[j]
    ensures multiset(r)[r[j]] >= 2
  {
    assert r == r[..j] + [r[j]] + r[j + 1..];
    assert r[i] in multiset(r[..j]);
  }

  lemma LeftOut(r: seq<int>, s: seq<int>, v: int)
    requires Heaps.IsTopK(IntCompare, 4, s, r) && |s| == 8
    requires v in s
    ensures v == r[0] || v == r[1] || v == r[2] || v == r[3] || v <= r[0]
  {
    if v != r[0] && v != r[1] && v != r[2] && v != r[3] {
      assert v !in r;
      assert v in multiset(s) - multiset(r);
      assert r[0] in r;
      assert IntCompare(v, r[0]) <= 0;
    }
  }

  method TopKExample() returns (r: seq<int>, same: bool)
    ensures r == [5, 6, 7, 8] && same
  {
    var list := new List.FromSeq([6, 3, 5, 8, 1, 4, 2, 7]);
    var res := Heaps.TopK(4, list, IntCompare);
    IntCompareIsComparator();
    OnlyTopFour(res.elems);
    r := res.elems;
    same := res == list;
  }

  /** `LSDradixSort` on the six strings of width 3. */
  method RadixSortExample() returns (r: seq<string>)
    ensures r == ["aaa", "aab", "abc", "bbd", "bbf", "lop"]
  {
    var a := new string[6];
    a[0], a[1], a[2], a[3], a[4], a[5] := "aab", "aaa", "lop", "bbf", "bbd", "abc";
    ghost var s := a[..];
    assert s == ["aab", "aaa", "lop", "bbf", "bbd", "abc"];
    Radix.LSDRadixSort(a, 3);
    OnlyRadixArrangement(a[..]);
    r := a[..];
  }

  /** The only arrangement of the radix test's strings sorted by all three
      positions: no two of them agree in every position. */
  lemma OnlyRadixArrangement(r: seq<string>)
    requires Sorted(Radix.SuffixOrder(0, 3), r)
    requires multiset(r) == multiset(["aab", "aaa", "lop", "bbf", "bbd", "abc"])
    ensures r == ["aaa", "aab", "abc", "bbd", "bbf", "lop"]
  {
    ExpectedStrings();
    DistinctStrings();
    Radix.SuffixOrderIsComparator(0, 3);
    UniqueArrangement(Radix.SuffixOrder(0, 3), "aab", "aaa", "lop", "bbf", "bbd", "abc", r);
  }

  /** The radix test's reordering, for any six elements whose expected order
      is sorted and whose classes are single elements. */
  lemma UniqueArrangement<T(!new)>(cmp: (T, T) -> int, x0: T, x1: T, x2: T, x3: T, x4: T, x5: T, r: seq<T>)
    requires Comparator(cmp)
    requires Sorted(cmp, [x1, x0, x5, x4, x3, x2])
    requires forall x, y :: x in [x1, x0, x5, x4, x3, x2] && y in [x1, x0, x5, x4, x3, x2] && cmp(x, y) == 0 ==> x == y
    requires Sorted(cmp, r) && multiset(r) == multiset([x0, x1, x2, x3, x4, x5])
    ensures r == [x1, x0, x5, x4, x3, x2]
  {
    Rearranged(x0, x1, x2, x3, x4, x5);
    SortedPermutationUnique(cmp, [x1, x0, x5, x4, x3, x2], r);
  }

  lemma ExpectedStrings()
    ensures Sorted(Radix.SuffixOrder(0, 3), ["aaa", "aab", "abc", "bbd", "bbf", "lop"])
  {
    var e := ["aaa", "aab", "abc", "bbd", "bbf", "lop"];
    Radix.SuffixOrderIsComparator(0, 3);
    forall i | 0 <= i < |e| - 1 ensures Radix.SuffixOrder(0, 3)(e[i], e[i + 1]) <= 0 {
      assert Radix.LexCompare(e[i], e[i + 1], 0, 3) < 0;
    }
    SortedByNeighbours(Radix.SuffixOrder(0, 3), e);
  }

  /** The reordering the radix test expects keeps every element. */
  lemma Rearranged<T>(x0: T, x1: T, x2: T, x3: T, x4: T, x5: T)
    ensures multiset([x1, x0, x5, x4, x3, x2]) == multiset([x0, x1, x2, x3, x4, x5])
  {
    LastTwo(x1, x0, x5, x4, x3, x2);
    LastTwo(x0, x1, x2, x3, x4, x5);
    Halves(x1, x0, x5, x4);
    Halves(x0, x1, x2, x3);
    Swapped(x1, x0);
    Swapped(x5, x4);
    Swapped(x3, x2);
  }

  lemma Swapped<T>(a: T, b: T)
    ensures multiset([a, b]) == multiset([b, a])
  {
  }

  lemma Halves<T>(a: T, b: T, c: T, d: T)
    ensures multiset([a, b, c, d]) == multiset([a, b]) + multiset([c, d])
  {
  }

  lemma LastTwo<T>(a: T, b: T, c: T, d: T, e: T, f: T)
    ensures multiset([a, b, c, d, e, f]) == multiset([a, b, c, d]) + multiset([e, f])
  {
  }

  lemma DistinctStrings()
    ensures var e := ["aaa", "aab", "abc", "bbd", "bbf", "lop"];
      forall x, y :: x in e && y in e && Radix.SuffixOrder(0, 3)(x, y) == 0 ==> x == y
  {
    var e := ["aaa", "aab", "abc", "bbd", "bbf", "lop"];
    forall x, y | x in e && y in e && Radix.SuffixOrder(0, 3)(x, y) == 0 ensures x == y {
      Radix.LexEqual(x, y, 0, 3);
      assert x == x[0..] && y == y[0..];
    }
  }
}
