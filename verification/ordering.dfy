/** The caller-supplied ordering shared by every sorting routine.

A comparator is a three-way function `cmp(a, b)` whose sign says whether
`a` comes before, with or after `b`. Sortedness, equivalence classes and
stability are all stated in terms of it. */
module Ordering {

  /** The contract of `java.util.Comparator`: the sign of `cmp(x, y)` is the
      opposite of the sign of `cmp(y, x)`, and "not after" is transitive.
      Together these make `cmp(x, y) <= 0` a total preorder. Transitivity only
      fires on three comparisons already in view, which keeps it from
      generating new ones without end. */
  ghost predicate Comparator<T(!new)>(cmp: (T, T) -> int) {
    && (forall x, y :: cmp(x, y) < 0 <==> cmp(y, x) > 0)
    && (forall x, y, z {:trigger cmp(x, y), cmp(y, z), cmp(x, z)} :: cmp(x, y) <= 0 && cmp(y, z) <= 0 ==> cmp(x, z) <= 0)
  }

  /** Every pair in order, not only the adjacent ones. */
  ghost predicate Sorted<T>(cmp: (T, T) -> int, s: seq<T>) {
    forall i, j :: 0 <= i < j < |s| ==> cmp(s[i], s[j]) <= 0
  }

  /** The elements of `s` that compare equal to `x`, in their order in `s`. */
  function Select<T>(cmp: (T, T) -> int, s: seq<T>, x: T): (r: seq<T>)
    ensures |r| <= |s|
  {
    if s == [] then []
    else (if cmp(s[0], x) == 0 then [s[0]] else []) + Select(cmp, s[1..], x)
  }

  /** `r` keeps, for every class of equal elements, exactly the elements of
      `s` in that class and in their original relative order. */
  ghost predicate Stable<T(!new)>(cmp: (T, T) -> int, s: seq<T>, r: seq<T>) {
    forall x :: Select(cmp, r, x) == Select(cmp, s, x)
  }

  lemma Transitive<T(!new)>(cmp: (T, T) -> int, x: T, y: T, z: T)
    requires Comparator(cmp)
    requires cmp(x, y) <= 0 && cmp(y, z) <= 0
    ensures cmp(x, z) <= 0
  {
  }

  /** A chain of "not after" steps with one strict step is strict. */
  lemma TransitiveStrict<T(!new)>(cmp: (T, T) -> int, x: T, y: T, z: T)
    requires Comparator(cmp)
    requires (cmp(x, y) < 0 && cmp(y, z) <= 0) || (cmp(x, y) <= 0 && cmp(y, z) < 0)
    ensures cmp(x, z) < 0
  {
  }

  /** An element at or below every element of a sorted sequence can go in front. */
  lemma SortedCons<T>(cmp: (T, T) -> int, x: T, s: seq<T>)
    requires Sorted(cmp, s)
    requires forall j :: 0 <= j < |s| ==> cmp(x, s[j]) <= 0
    ensures Sorted(cmp, [x] + s)
  {
    var r := [x] + s;
    forall i, j | 0 <= i < j < |r| ensures cmp(r[i], r[j]) <= 0 {
      if i > 0 {
        assert r[i] == s[i - 1] && r[j] == s[j - 1];
      } else {
        assert r[j] == s[j - 1];
      }
    }
  }

  /** Two sorted sequences, the first at or below the second, make a sorted one. */
  lemma SortedAppend<T>(cmp: (T, T) -> int, a: seq<T>, b: seq<T>)
    requires Sorted(cmp, a) && Sorted(cmp, b)
    requires forall i, j :: 0 <= i < |a| && 0 <= j < |b| ==> cmp(a[i], b[j]) <= 0
    ensures Sorted(cmp, a + b)
  {
    var r := a + b;
    forall i, j | 0 <= i < j < |r| ensures cmp(r[i], r[j]) <= 0 {
      if j < |a| {
        assert r[i] == a[i] && r[j] == a[j];
      } else if i < |a| {
        assert r[i] == a[i] && r[j] == b[j - |a|];
      } else {
        assert r[i] == b[i - |a|] && r[j] == b[j - |a|];
      }
    }
  }

  /** Under a comparator, neighbours in order make every pair in order. */
  lemma {:induction false} SortedByNeighbours<T(!new)>(cmp: (T, T) -> int, s: seq<T>)
    requires Comparator(cmp)
    requires forall i :: 0 <= i < |s| - 1 ==> cmp(s[i], s[i + 1]) <= 0
    ensures Sorted(cmp, s)
    decreases |s|
  {
    if |s| >= 2 {
      var t := s[1..];
      forall i | 0 <= i < |t| - 1 ensures cmp(t[i], t[i + 1]) <= 0 {
        assert t[i] == s[i + 1] && t[i + 1] == s[i + 2];
      }
      SortedByNeighbours(cmp, t);
      forall j | 0 <= j < |t| ensures cmp(s[0], t[j]) <= 0 {
        if j > 0 {
          Transitive(cmp, s[0], t[0], t[j]);
        }
      }
      SortedCons(cmp, s[0], t);
      assert s == [s[0]] + t;
    }
  }

  /** `java.lang.Integer.compareTo`, the comparator of every concrete scenario. */
  function IntCompare(a: int, b: int): (r: int)
    ensures r < 0 <==> a < b
    ensures r == 0 <==> a == b
  {
    if a < b then -1 else if a > b then 1 else 0
  }

  lemma IntCompareIsComparator()
    ensures Comparator(IntCompare)
  {
  }

  lemma {:induction false} SelectAppend<T>(cmp: (T, T) -> int, a: seq<T>, b: seq<T>, x: T)
    ensures Select(cmp, a + b, x) == Select(cmp, a, x) + Select(cmp, b, x)
  {
    if a != [] {
      assert (a + b)[0] == a[0] && (a + b)[1..] == a[1..] + b;
      SelectAppend(cmp, a[1..], b, x);
    } else {
      assert a + b == b;
    }
  }

  /** Nothing is selected from a sequence with no element in the class of `x`. */
  lemma {:induction false} SelectNone<T>(cmp: (T, T) -> int, s: seq<T>, x: T)
    requires forall i :: 0 <= i < |s| ==> cmp(s[i], x) != 0
    ensures Select(cmp, s, x) == []
  {
    if s != [] {
      SelectNone(cmp, s[1..], x);
    }
  }

  /** The class of `x` holds every copy of each member of that class. */
  lemma {:induction false} SelectCount<T>(cmp: (T, T) -> int, s: seq<T>, x: T, y: T)
    requires cmp(y, x) == 0
    ensures multiset(Select(cmp, s, x))[y] == multiset(s)[y]
  {
    if s != [] {
      SelectCount(cmp, s[1..], x, y);
      assert s == [s[0]] + s[1..];
    }
  }

  /** Stability implies permutation: each element is counted in its own class. */
  lemma StableIsPermutation<T(!new)>(cmp: (T, T) -> int, s: seq<T>, r: seq<T>)
    requires Comparator(cmp)
    requires Stable(cmp, s, r)
    ensures multiset(r) == multiset(s)
  {
    forall y ensures multiset(r)[y] == multiset(s)[y] {
      assert cmp(y, y) == 0;
      SelectCount(cmp, r, y, y);
      SelectCount(cmp, s, y, y);
    }
  }

  /** Selecting by a finer class inside a coarser one is selecting by the finer one. */
  lemma {:induction false} SelectRefine<T>(fine: (T, T) -> int, coarse: (T, T) -> int, s: seq<T>, x: T)
    requires forall y :: fine(y, x) == 0 ==> coarse(y, x) == 0
    ensures Select(fine, Select(coarse, s, x), x) == Select(fine, s, x)
  {
    if s != [] {
      SelectRefine(fine, coarse, s[1..], x);
      SelectAppend(fine, if coarse(s[0], x) == 0 then [s[0]] else [], Select(coarse, s[1..], x), x);
    }
  }

  /** Two sorted sequences with the same subsequence in every class are the
      same sequence: a stable sort has exactly one possible result. */
  lemma {:induction false} SortedStableUnique<T(!new)>(cmp: (T, T) -> int, a: seq<T>, b: seq<T>)
    requires Comparator(cmp)
    requires Sorted(cmp, a) && Sorted(cmp, b)
    requires Stable(cmp, a, b)
    ensures a == b
  {
    StableKeepsEmptiness(cmp, a, b);
    if a != [] {
      var a0, b0 := a[0], b[0];
      // the class of b0 is not empty in a, so b0 is equal to some a[m] >= a0
      assert Select(cmp, b, b0) != [];
      var m := SelectWitness(cmp, a, b0);
      assert cmp(a0, a[m]) <= 0;
      assert Select(cmp, a, a0) != [];
      var k := SelectWitness(cmp, b, a0);
      assert cmp(b0, b[k]) <= 0;
      assert cmp(a0, b0) == 0;
      assert Select(cmp, a, a0)[0] == a0;
      assert Select(cmp, b, a0)[0] == b0;
      assert a0 == b0;
      forall x ensures Select(cmp, b[1..], x) == Select(cmp, a[1..], x) {
        var head := if cmp(a0, x) == 0 then [a0] else [];
        assert Select(cmp, b, x) == head + Select(cmp, b[1..], x);
        assert Select(cmp, a, x) == head + Select(cmp, a[1..], x);
        assert Select(cmp, b[1..], x) == Select(cmp, b, x)[|head|..];
      }
      SortedStableUnique(cmp, a[1..], b[1..]);
      assert a == [a0] + a[1..] && b == [b0] + b[1..];
    }
  }

  /** When no two distinct elements compare equal, a sequence has only one
      sorted arrangement: sortedness and the multiset fix it. */
  lemma {:induction false} SortedPermutationUnique<T(!new)>(cmp: (T, T) -> int, a: seq<T>, b: seq<T>)
    requires Comparator(cmp)
    requires Sorted(cmp, a) && Sorted(cmp, b) && multiset(a) == multiset(b)
    requires forall x, y :: x in a && y in a && cmp(x, y) == 0 ==> x == y
    ensures a == b
    decreases |a|
  {
    if a != [] && b != [] {
      UniqueStep(cmp, a, b);
      SortedPermutationUnique(cmp, a[1..], b[1..]);
      ConsEqual(a, b);
    } else {
      EmptyPermutation(a, b);
    }
  }

  /** Removing the equal heads leaves two tails that meet the same
      requirements. */
  lemma UniqueStep<T(!new)>(cmp: (T, T) -> int, a: seq<T>, b: seq<T>)
    requires Comparator(cmp)
    requires Sorted(cmp, a) && Sorted(cmp, b) && multiset(a) == multiset(b)
    requires a != [] && b != []
    requires forall x, y :: x in a && y in a && cmp(x, y) == 0 ==> x == y
    ensures a[0] == b[0]
    ensures Sorted(cmp, a[1..]) && Sorted(cmp, b[1..]) && multiset(a[1..]) == multiset(b[1..])
    ensures forall x, y :: x in a[1..] && y in a[1..] && cmp(x, y) == 0 ==> x == y
  {
    SortedHeads(cmp, a, b);
    TailMultiset(a);
    TailMultiset(b);
    SortedTail(cmp, a);
    SortedTail(cmp, b);
    TailDistinct(cmp, a);
  }

  lemma ConsEqual<T>(a: seq<T>, b: seq<T>)
    requires a != [] && b != [] && a[0] == b[0] && a[1..] == b[1..]
    ensures a == b
  {
    assert a == [a[0]] + a[1..] && b == [b[0]] + b[1..];
  }

  lemma EmptyPermutation<T>(a: seq<T>, b: seq<T>)
    requires multiset(a) == multiset(b) && (a == [] || b == [])
    ensures a == b
  {
    assert |multiset(a)| == |a| && |multiset(b)| == |b|;
  }

  lemma SortedTail<T>(cmp: (T, T) -> int, s: seq<T>)
    requires Sorted(cmp, s) && s != []
    ensures Sorted(cmp, s[1..])
  {
    forall i, j | 0 <= i < j < |s| - 1 ensures cmp(s[1..][i], s[1..][j]) <= 0 {
      assert s[1..][i] == s[i + 1] && s[1..][j] == s[j + 1];
    }
  }

  lemma TailDistinct<T>(cmp: (T, T) -> int, s: seq<T>)
    requires s != []
    requires forall x, y :: x in s && y in s && cmp(x, y) == 0 ==> x == y
    ensures forall x, y :: x in s[1..] && y in s[1..] && cmp(x, y) == 0 ==> x == y
  {
    assert forall x :: x in s[1..] ==> x in s;
  }

  lemma TailMultiset<T>(s: seq<T>)
    requires s != []
    ensures multiset(s[1..]) == multiset(s) - multiset{s[0]}
  {
    assert s == [s[0]] + s[1..];
  }

  /** Two sorted arrangements of the same elements start with equal elements,
      hence with the same one when equal means identical. */
  lemma SortedHeads<T(!new)>(cmp: (T, T) -> int, a: seq<T>, b: seq<T>)
    requires Comparator(cmp)
    requires Sorted(cmp, a) && Sorted(cmp, b) && multiset(a) == multiset(b)
    requires a != [] && b != []
    requires forall x, y :: x in a && y in a && cmp(x, y) == 0 ==> x == y
    ensures a[0] == b[0]
  {
    assert a[0] in multiset(b) && b[0] in multiset(a);
    var k :| 0 <= k < |b| && b[k] == a[0];
    var m :| 0 <= m < |a| && a[m] == b[0];
    assert cmp(b[0], b[k]) <= 0 && cmp(a[0], a[m]) <= 0;
  }

  /** A stable rearrangement of a non-empty sequence is not empty. */
  lemma StableKeepsEmptiness<T(!new)>(cmp: (T, T) -> int, s: seq<T>, r: seq<T>)
    requires Comparator(cmp)
    requires Stable(cmp, s, r)
    ensures s == [] <==> r == []
  {
    if s != [] {
      assert Select(cmp, s, s[0]) != [];
    }
    if r != [] {
      assert Select(cmp, r, r[0]) != [];
    }
  }

  /** A position of `s` holding a member of the class of `x`, when that class
      is not empty in `s`. */
  lemma {:induction false} SelectWitness<T>(cmp: (T, T) -> int, s: seq<T>, x: T) returns (m: nat)
    requires Select(cmp, s, x) != []
    ensures m < |s| && cmp(s[m], x) == 0
  {
    if cmp(s[0], x) == 0 {
      m := 0;
    } else {
      var m' := SelectWitness(cmp, s[1..], x);
      m := m' + 1;
    }
  }
}
