/** Heap sort and top-k selection (`ListSorter.heapSort`, `topK`).

Both fill a priority queue from the list, clear the list and then move the
queue's least element to the end of the list until the queue is empty.
Top-k keeps at most `k` elements in the queue: once it is full, an element
enters only by pushing out the least one held, and only when it compares
strictly above it. */
module Heaps {
  import opened Ordering
  import opened Lists
  import opened PriorityQueues

  /** `r` is an answer to top-k: `min(k, |s|)` elements of `s`, ascending,
      and every element of `s` left out compares at or below every one kept. */
  ghost predicate IsTopK<T(!new)>(cmp: (T, T) -> int, k: int, s: seq<T>, r: seq<T>) {
    && |r| == (if k < |s| then k else |s|)
    && multiset(r) <= multiset(s)
    && Sorted(cmp, r)
    && forall x, y :: x in multiset(s) - multiset(r) && y in r ==> cmp(x, y) <= 0
  }

  /** The closing loop shared by both routines: `list.add(heap.poll())` until
      the queue is empty. Each element added compares at or below all that
      remain, so the list comes out ascending. */
  method Drain<T(!new)>(heap: PriorityQueue<T>, list: List<T>)
    requires list.elems == []
    modifies heap, list
    ensures heap.Contents() == multiset{}
    ensures multiset(list.elems) == old(heap.Contents())
    ensures Comparator(heap.cmp) ==> Sorted(heap.cmp, list.elems)
  {
    ghost var cmp := heap.cmp;
    while heap.Size() > 0
      invariant Draining(cmp, list.elems, heap.Contents(), old(heap.Contents()))
      decreases heap.Size()
    {
      ghost var before := heap.Contents();
      ghost var done := list.elems;
      var x := heap.Poll();
      list.Add(x);
      DrainStep(cmp, done, before, old(heap.Contents()), x);
    }
  }

  /** The state of the closing loop: the list and the queue together hold
      what the queue held at the start, and the list is ascending and below
      everything still queued. */
  ghost predicate Draining<T(!new)>(cmp: (T, T) -> int, l: seq<T>, m: multiset<T>, total: multiset<T>) {
    && multiset(l) + m == total
    && (Comparator(cmp) ==> Sorted(cmp, l) && AllBelow(cmp, multiset(l), m))
  }

  /** Every element of `d` compares at or below every element of `m`. */
  ghost predicate AllBelow<T>(cmp: (T, T) -> int, d: multiset<T>, m: multiset<T>) {
    forall x, y :: x in d && y in m ==> cmp(x, y) <= 0
  }

  /** Moving a least element of the queue to the end of the list keeps the
      state of the closing loop. */
  lemma DrainStep<T(!new)>(cmp: (T, T) -> int, l: seq<T>, m: multiset<T>, total: multiset<T>, x: T)
    requires Draining(cmp, l, m, total)
    requires x in m
    requires Comparator(cmp) ==> forall y :: y in m ==> cmp(x, y) <= 0
    ensures Draining(cmp, l + [x], m - multiset{x}, total)
  {
    assert multiset(l + [x]) == multiset(l) + multiset{x};
    if Comparator(cmp) {
      AppendLeast(cmp, l, m, x);
    }
  }

  /** Appending a least element of what remains keeps the list ascending and
      below what then remains. */
  lemma AppendLeast<T(!new)>(cmp: (T, T) -> int, l: seq<T>, m: multiset<T>, x: T)
    requires Comparator(cmp)
    requires Sorted(cmp, l) && AllBelow(cmp, multiset(l), m)
    requires x in m && forall y :: y in m ==> cmp(x, y) <= 0
    ensures Sorted(cmp, l + [x]) && AllBelow(cmp, multiset(l + [x]), m - multiset{x})
  {
    var l' := l + [x];
    forall i, j | 0 <= i < j < |l'| ensures cmp(l'[i], l'[j]) <= 0 {
      if j == |l| {
        assert cmp(l[i], x) <= 0;
      }
    }
    forall z, y | z in multiset(l') && y in m - multiset{x} ensures cmp(z, y) <= 0 {
      assert z in l';
      if z != x {
        assert z in multiset(l) && y in m;
      }
    }
  }

  /** `heapSort(list, comparator)`: the list ends holding the same elements,
      ascending. The queue is created with the list's size as its initial
      capacity, which the library refuses to be zero. */
  method HeapSort<T(!new)>(list: List<T>, cmp: (T, T) -> int)
    requires |list.elems| >= 1
    modifies list
    ensures multiset(list.elems) == multiset(old(list.elems))
    ensures Comparator(cmp) ==> Sorted(cmp, list.elems)
  {
    ghost var s := list.elems;
    var heap := new PriorityQueue(list.Size(), cmp);
    for i := 0 to list.Size()
      invariant list.elems == s && heap.cmp == cmp && fresh(heap)
      invariant heap.Contents() == multiset(s[..i])
    {
      assert s[..i + 1] == s[..i] + [s[i]];
      heap.Offer(list.Get(i));
    }
    assert s[..|s|] == s;
    list.Clear();
    Drain(heap, list);
  }

  /** `topK(k, list, comparator)`: the list itself is returned, now holding
      the `k` greatest elements (all of them when there are fewer), ascending. */
  method TopK<T(!new)>(k: int, list: List<T>, cmp: (T, T) -> int) returns (r: List<T>)
    requires k >= 1 && |list.elems| >= 1
    modifies list
    ensures r == list
    ensures |list.elems| == if k < |old(list.elems)| then k else |old(list.elems)|
    ensures multiset(list.elems) <= multiset(old(list.elems))
    ensures Comparator(cmp) ==> IsTopK(cmp, k, old(list.elems), list.elems)
  {
    ghost var s := list.elems;
    var heap := new PriorityQueue(list.Size(), cmp);
    ghost var discarded: seq<T> := [];
    for i := 0 to list.Size()
      invariant list.elems == s && heap.cmp == cmp && fresh(heap)
      invariant heap.Contents() + multiset(discarded) == multiset(s[..i])
      invariant |heap.Contents()| == if k < i then k else i
      invariant Comparator(cmp) ==> AllBelow(cmp, multiset(discarded), heap.Contents())
    {
      assert s[..i + 1] == s[..i] + [s[i]];
      assert |heap.Contents()| + |discarded| == i by {
        assert |multiset(s[..i])| == i;
      }
      discarded := Consider(k, heap, list.Get(i), discarded);
    }
    assert s[..|s|] == s;
    ghost var kept := heap.Contents();
    list.Clear();
    Drain(heap, list);
    TopKResult(cmp, k, s, discarded, kept, list.elems);
    r := list;
  }

  /** What the queue holds after the first loop, once drained in order, is an
      answer to top-k. */
  lemma TopKResult<T(!new)>(cmp: (T, T) -> int, k: int, s: seq<T>, d: seq<T>, kept: multiset<T>, r: seq<T>)
    requires kept + multiset(d) == multiset(s)
    requires |kept| == if k < |s| then k else |s|
    requires multiset(r) == kept
    requires Comparator(cmp) ==> AllBelow(cmp, multiset(d), kept) && Sorted(cmp, r)
    ensures |r| == if k < |s| then k else |s|
    ensures multiset(r) <= multiset(s)
    ensures Comparator(cmp) ==> IsTopK(cmp, k, s, r)
  {
    assert |multiset(r)| == |r|;
    assert multiset(s) - multiset(r) == multiset(d);
    if Comparator(cmp) {
      forall x, y | x in multiset(s) - multiset(r) && y in r ensures cmp(x, y) <= 0 {
        assert y in multiset(r);
      }
    }
  }

  /** The body of the first loop of `topK` for one element: offered while the
      queue holds fewer than `k`, otherwise challenged against the least
      element held. The ghost result is what has been dropped so far. */
  method Consider<T(!new)>(k: int, heap: PriorityQueue<T>, elem: T, ghost discarded: seq<T>)
    returns (ghost discarded': seq<T>)
    requires k >= 1 && |heap.Contents()| <= k
    requires |heap.Contents()| < k ==> |discarded| == 0
    modifies heap
    ensures heap.Contents() + multiset(discarded') == old(heap.Contents()) + multiset(discarded) + multiset{elem}
    ensures |heap.Contents()| == if |old(heap.Contents())| < k then |old(heap.Contents())| + 1 else k
    ensures Comparator(heap.cmp) && AllBelow(heap.cmp, multiset(discarded), old(heap.Contents()))
            ==> AllBelow(heap.cmp, multiset(discarded'), heap.Contents())
    ensures |old(heap.Contents())| < k
            ==> heap.Contents() == old(heap.Contents()) + multiset{elem} && discarded' == discarded
    ensures |old(heap.Contents())| >= k && Comparator(heap.cmp)
            ==> Challenged(heap.cmp, old(heap.Contents()), discarded, elem, heap.Contents(), discarded')
  {
    if heap.Size() < k {
      heap.Offer(elem);
      discarded' := discarded;
      assert multiset(discarded) == multiset{};
    } else {
      discarded' := Challenge(heap, elem, discarded);
    }
  }

  /** The outcome of challenging a full queue `held` with `elem`: when `elem`
      compares strictly above nothing held it is dropped; otherwise a least
      element `g` held is dropped and `elem` takes its place. */
  ghost predicate Challenged<T(!new)>(cmp: (T, T) -> int, held: multiset<T>, d: seq<T>, elem: T,
                                      held': multiset<T>, d': seq<T>) {
    if forall y :: y in held ==> cmp(elem, y) <= 0 then
      held' == held && d' == d + [elem]
    else
      exists g :: && g in held
                  && (forall y :: y in held ==> cmp(g, y) <= 0)
                  && held' == held - multiset{g} + multiset{elem}
                  && d' == d + [g]
  }

  /** A full queue meets one more element: `peek()`, and when the element
      compares strictly above the least one held, `poll()` and `offer`. */
  method Challenge<T(!new)>(heap: PriorityQueue<T>, elem: T, ghost discarded: seq<T>)
    returns (ghost discarded': seq<T>)
    requires heap.Contents() != multiset{}
    modifies heap
    ensures heap.Contents() + multiset(discarded') == old(heap.Contents()) + multiset(discarded) + multiset{elem}
    ensures |heap.Contents()| == |old(heap.Contents())|
    ensures Comparator(heap.cmp) && AllBelow(heap.cmp, multiset(discarded), old(heap.Contents()))
            ==> AllBelow(heap.cmp, multiset(discarded'), heap.Contents())
    ensures Comparator(heap.cmp)
            ==> Challenged(heap.cmp, old(heap.Contents()), discarded, elem, heap.Contents(), discarded')
  {
    ghost var cmp := heap.cmp;
    ghost var held := heap.Contents();
    var least := heap.Peek();
    var comp := heap.cmp(elem, least);
    if comp > 0 {
      var gone := heap.Poll();
      heap.Offer(elem);
      discarded' := discarded + [gone];
      EvictCounts(held, discarded, gone, elem);
      if Comparator(cmp) {
        TopKEvict(cmp, held, discarded, least, gone, elem);
      }
    } else {
      discarded' := discarded + [elem];
      assert multiset(discarded') == multiset(discarded) + multiset{elem};
      if Comparator(cmp) {
        TopKSkip(cmp, held, discarded, least, elem);
      }
    }
  }

  /** Swapping `gone` for `elem` in the queue and recording `gone` as
      discarded keeps the queue's size and the total of both. */
  lemma EvictCounts<T>(held: multiset<T>, d: seq<T>, gone: T, elem: T)
    requires gone in held
    ensures multiset(d + [gone]) == multiset(d) + multiset{gone}
    ensures (held - multiset{gone} + multiset{elem}) + multiset(d + [gone]) == held + multiset(d) + multiset{elem}
    ensures |held - multiset{gone} + multiset{elem}| == |held|
  {
    assert held == (held - multiset{gone}) + multiset{gone};
  }

  /** The element polled is discarded for a larger one: that is the
      outcome of the challenge, and whatever was discarded before stays at
      or below everything now held. */
  lemma TopKEvict<T(!new)>(cmp: (T, T) -> int, held: multiset<T>, d: seq<T>, least: T, gone: T, elem: T)
    requires Comparator(cmp)
    requires least in held && gone in held
    requires forall y :: y in held ==> cmp(least, y) <= 0 && cmp(gone, y) <= 0
    requires cmp(elem, least) > 0
    ensures Challenged(cmp, held, d, elem, held - multiset{gone} + multiset{elem}, d + [gone])
    ensures AllBelow(cmp, multiset(d), held)
            ==> AllBelow(cmp, multiset(d + [gone]), held - multiset{gone} + multiset{elem})
  {
    assert !(cmp(elem, least) <= 0);
    assert multiset(d + [gone]) == multiset(d) + multiset{gone};
    TransitiveStrict(cmp, gone, least, elem);
    if AllBelow(cmp, multiset(d), held) {
      forall x | x in multiset(d) ensures cmp(x, elem) <= 0 {
        Transitive(cmp, x, gone, elem);
      }
    }
  }

  /** The element offered is not above the least one held, so it is not
      above anything held: it is dropped, at or below everything held. */
  lemma TopKSkip<T(!new)>(cmp: (T, T) -> int, held: multiset<T>, d: seq<T>, least: T, elem: T)
    requires Comparator(cmp)
    requires least in held
    requires forall y :: y in held ==> cmp(least, y) <= 0
    requires cmp(elem, least) <= 0
    ensures Challenged(cmp, held, d, elem, held, d + [elem])
    ensures AllBelow(cmp, multiset(d), held) ==> AllBelow(cmp, multiset(d + [elem]), held)
  {
    assert multiset(d + [elem]) == multiset(d) + multiset{elem};
    forall y | y in held ensures cmp(elem, y) <= 0 {
      Transitive(cmp, elem, least, y);
    }
  }
}
