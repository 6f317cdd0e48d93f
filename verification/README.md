# ListSorter in Dafny

A model of `ListSorter<T>`, the sorting class of the list-sorting lab. Its
routines:

- `insertionSort`, `mergeSort`, `mergeSortInPlace`, `heapSort` and `topK` work on a
  `java.util.List` through a caller-supplied `Comparator`.
- `LSDradixSort` sorts an array of fixed-width strings by key-indexed counting.
  It makes one pass per character position, from the last position to the first.

The model keeps the shape of the code:

- A Java list is an object whose contents the routines change in place
  (`Lists.List`, a class with a `seq` field). `mergeSort` may hand back the
  very object it was given.
- The priority queue is an object whose contents `offer` and `poll` change
  (`PriorityQueues.PriorityQueue`).
- Loops are `while`/`for` loops with invariants. Loop bodies that need their
  own reasoning are separate methods: the shift of insertion sort, the inner
  loop of `merge`, one element of `topK`, the move step of a counting pass.
- Radix sort works on an `array<string>`. It keeps an auxiliary array and a
  counting array of `R + 1 = 257` entries, as the code does.

The list and array methods of insertion sort, merge sort and radix sort are
each proved equal to a function on values. Heap sort, top-k and the helper
methods of their loops state their results directly: the multiset kept, the
order, the top-k property and the outcome for one element.

The functions on values:

| function | meaning |
|---|---|
| `Insertion.InsertionSorted` | insertion sort |
| `Merging.Merged` | the merge of two lists |
| `Merging.MergeSorted` | merge sort |
| `Radix.KeyPass` | one counting pass |
| `Radix.Passes` | the passes for positions `w - 1` down to `d` |

Lemmas then prove what the routines promise, about those functions or about
the results stated directly:

- The output is sorted.
- It holds the same elements as the input.
- Insertion sort, merge sort and each radix pass are stable.
- Insertion sort, merge sort and radix sort leave sorted input unchanged.
- Merge sort and insertion sort agree.
- `topK` keeps `min(k, n)` elements, ascending, and everything it drops
  compares at or below everything it keeps.

The comparator is any function `cmp: (T, T) -> int`. The ghost predicate
`Ordering.Comparator` states the `java.util.Comparator` contract:

- the signs of `cmp(x, y)` and `cmp(y, x)` are opposite;
- "not after" is transitive.

Every ordering result is stated under that predicate. `Ordering.Select` is
the subsequence of elements equal to a given one. Stability means every such
subsequence is unchanged (`Ordering.Stable`).

The examples of the unit tests are proved as results of the model in module
`Scenarios`.

## Model

| member | source | states |
|---|---|---|
| Ordering.IntCompare | javacs-lab13/src/com/flatironschool/javacs/ListSorterTest.java:32-37 | the tests' comparator: negative exactly when the first integer is smaller, zero exactly when the two are equal |
| Ordering.IntCompareIsComparator | javacs-lab13/src/com/flatironschool/javacs/ListSorterTest.java:32-37 | the integer order meets the comparator contract |
| Ordering.StableIsPermutation | javacs-lab13/src/com/flatironschool/javacs/ListSorter.java:26-41 | an arrangement that keeps every class of equal elements holds the same elements |
| Ordering.SortedStableUnique | javacs-lab13/src/com/flatironschool/javacs/ListSorter.java:105-114 | a stable sort has exactly one possible result: two sorted sequences with the same classes are equal |
| Ordering.SortedPermutationUnique | javacs-lab13/src/com/flatironschool/javacs/ListSorterTest.java:70-77 | when no two distinct elements compare equal, sortedness and the multiset fix the sequence, so a test can check exact positions |
| Ordering.SortedByNeighbours | javacs-lab13/src/com/flatironschool/javacs/ListSorterTest.java:70-77 | under a comparator, adjacent pairs in order make every pair in order |
| Lists.List.FromSeq | javacs-lab13/src/com/flatironschool/javacs/ListSorter.java:110-111 | a new list holds a copy of the given elements |
| Lists.List.Empty | javacs-lab13/src/com/flatironschool/javacs/ListSorter.java:117 | a new list is empty |
| Lists.List.Size | javacs-lab13/src/com/flatironschool/javacs/ListSorter.java:106 | the number of elements held |
| Lists.List.Get | javacs-lab13/src/com/flatironschool/javacs/ListSorter.java:29 | the element at the index |
| Lists.List.Set | javacs-lab13/src/com/flatironschool/javacs/ListSorter.java:36 | only the element at the index changes |
| Lists.List.Clear | javacs-lab13/src/com/flatironschool/javacs/ListSorter.java:91 | the list ends empty |
| Lists.List.Add | javacs-lab13/src/com/flatironschool/javacs/ListSorter.java:186 | the element is appended at the end |
| Lists.List.AddAll | javacs-lab13/src/com/flatironschool/javacs/ListSorter.java:92 | the other list's contents, as they are when the call starts, are appended; this holds when the other list is this one |
| Lists.List.RemoveFirst | javacs-lab13/src/com/flatironschool/javacs/ListSorter.java:124 | the first element is returned and removed; the rest keep their order |
| PriorityQueues.PriorityQueue.constructor | javacs-lab13/src/com/flatironschool/javacs/ListSorter.java:179 | a new queue is empty and uses the given comparator; an initial capacity below one is refused |
| PriorityQueues.PriorityQueue.Size | javacs-lab13/src/com/flatironschool/javacs/ListSorter.java:185 | the number of elements held |
| PriorityQueues.PriorityQueue.Offer | javacs-lab13/src/com/flatironschool/javacs/ListSorter.java:181 | the bag gains the element |
| PriorityQueues.PriorityQueue.LeastIndex | javacs-lab13/src/com/flatironschool/javacs/ListSorter.java:186 | the scan finds an element that no other compares strictly below |
| PriorityQueues.PriorityQueue.Peek | javacs-lab13/src/com/flatironschool/javacs/ListSorter.java:210 | a least element is returned and the queue is unchanged |
| PriorityQueues.PriorityQueue.Poll | javacs-lab13/src/com/flatironschool/javacs/ListSorter.java:186 | a least element is returned and removed once from the bag |
| Insertion.Insert | javacs-lab13/src/com/flatironschool/javacs/ListSorter.java:31-39 | the shift on values: the prefix with the held element placed after the last element it does not compare below; the result is one element longer |
| Insertion.InsertionSorted | javacs-lab13/src/com/flatironschool/javacs/ListSorter.java:26-41 | insertion sort on values: the prefixes inserted one element at a time; it keeps the length |
| Insertion.InsertPermutes | javacs-lab13/src/com/flatironschool/javacs/ListSorter.java:29-39 | inserting the held element adds exactly that element |
| Insertion.InsertKeepsSorted | javacs-lab13/src/com/flatironschool/javacs/ListSorter.java:29-39 | inserting into a sorted prefix leaves it sorted |
| Insertion.InsertSelect | javacs-lab13/src/com/flatironschool/javacs/ListSorter.java:33-35 | the held element goes after every element it ties with, and the other classes are untouched |
| Insertion.InsertionSortedPermutes | javacs-lab13/src/com/flatironschool/javacs/ListSorter.java:26-41 | insertion sort keeps exactly the input's elements |
| Insertion.InsertionSortedSorted | javacs-lab13/src/com/flatironschool/javacs/ListSorter.java:26-41 | insertion sort's output is sorted |
| Insertion.InsertionSortedStable | javacs-lab13/src/com/flatironschool/javacs/ListSorter.java:26-41 | insertion sort keeps the relative order of equal elements |
| Insertion.InsertionSortedCorrect | javacs-lab13/src/com/flatironschool/javacs/ListSorter.java:26-41 | insertion sort yields a sorted, stable permutation |
| Insertion.InsertionSortedIdempotent | javacs-lab13/src/com/flatironschool/javacs/ListSorter.java:26-41 | a sorted input is left as it is |
| Insertion.InsertAt | javacs-lab13/src/com/flatironschool/javacs/ListSorter.java:31-39 | where the shift stops, after an element the held one does not compare below, is where the insertion puts it |
| Insertion.InsertionSortedStep | javacs-lab13/src/com/flatironschool/javacs/ListSorter.java:28 | each outer round inserts the next element into the sorted prefix |
| Insertion.ShiftIntoPlace | javacs-lab13/src/com/flatironschool/javacs/ListSorter.java:29-39 | the shift loop and the final store leave the prefix with the held element inserted; the suffix is unchanged |
| Insertion.InsertionSort | javacs-lab13/src/com/flatironschool/javacs/ListSorter.java:26-41 | the list ends insertion-sorted, hence sorted and stable under a comparator |
| Merging.Merged | javacs-lab13/src/com/flatironschool/javacs/ListSorter.java:116-134 | `merge` on values: the two lists merged front to front, ties from the left; as long as both lists together |
| Merging.MergeSorted | javacs-lab13/src/com/flatironschool/javacs/ListSorter.java:105-114 | `mergeSort` on values: split at half the size, sort both halves, merge; it keeps the length |
| Merging.MergedMultiset | javacs-lab13/src/com/flatironschool/javacs/ListSorter.java:116-134 | a merge holds exactly the elements of both lists |
| Merging.MergedPermutes | javacs-lab13/src/com/flatironschool/javacs/ListSorter.java:116-134 | a merge holds exactly the elements of both lists, and as many |
| Merging.MergedAbove | javacs-lab13/src/com/flatironschool/javacs/ListSorter.java:122-130 | a lower bound of both lists bounds the merge |
| Merging.MergedSorted | javacs-lab13/src/com/flatironschool/javacs/ListSorter.java:116-134 | merging two sorted lists gives a sorted list |
| Merging.MergedSelect | javacs-lab13/src/com/flatironschool/javacs/ListSorter.java:124 | ties are taken from the left, so in every class the left list's elements come first, each list in its own order |
| Merging.MergedHead | javacs-lab13/src/com/flatironschool/javacs/ListSorter.java:124-130 | the front element moved is the left one on a tie or when the right list is empty, the right one otherwise |
| Merging.MergeSortedCorrect | javacs-lab13/src/com/flatironschool/javacs/ListSorter.java:105-114 | merge sort yields a sorted, stable permutation |
| Merging.MergeSortedIsInsertionSorted | javacs-lab13/src/com/flatironschool/javacs/ListSorter.java:105-114 | merge sort and insertion sort give the same result on every input |
| Merging.MergeSortedIdempotent | javacs-lab13/src/com/flatironschool/javacs/ListSorter.java:105-114 | a sorted input is left as it is |
| Merging.MoveFirst | javacs-lab13/src/com/flatironschool/javacs/ListSorter.java:124-130 | `sorted.add(from.remove(0))` appends the next element of the merge |
| Merging.MergeWhileBoth | javacs-lab13/src/com/flatironschool/javacs/ListSorter.java:122-126 | the inner loop keeps the merge made so far and stops with one list empty |
| Merging.Merge | javacs-lab13/src/com/flatironschool/javacs/ListSorter.java:116-134 | the new list holds the merge of the two inputs, which end empty; `size` rounds of the outer loop suffice |
| Merging.MergeSort | javacs-lab13/src/com/flatironschool/javacs/ListSorter.java:105-114 | the result holds the merge-sorted input; fewer than two elements come back as the same object, otherwise the result is new |
| Merging.MergeSortInPlaceAsWritten | javacs-lab13/src/com/flatironschool/javacs/ListSorter.java:89-93 | as written, every list except a one-element one ends merge-sorted; a one-element list ends empty |
| Merging.MergeSortInPlace | javacs-lab13/src/com/flatironschool/javacs/ListSorter.java:89-93 | the list ends merge-sorted, hence sorted and stable under a comparator |
| Heaps.AppendLeast | javacs-lab13/src/com/flatironschool/javacs/ListSorter.java:186 | appending a least remaining element keeps the list sorted and below what remains |
| Heaps.DrainStep | javacs-lab13/src/com/flatironschool/javacs/ListSorter.java:185-187 | one `list.add(heap.poll())` keeps the list and queue together equal to the start, the list ascending |
| Heaps.Drain | javacs-lab13/src/com/flatironschool/javacs/ListSorter.java:184-187 | draining the queue into the empty list yields its elements, ascending |
| Heaps.HeapSort | javacs-lab13/src/com/flatironschool/javacs/ListSorter.java:178-188 | the list ends holding the same elements, sorted |
| Heaps.EvictCounts | javacs-lab13/src/com/flatironschool/javacs/ListSorter.java:211-213 | swapping the polled element for the new one keeps the queue's size and the total |
| Heaps.TopKEvict | javacs-lab13/src/com/flatironschool/javacs/ListSorter.java:210-213 | when the element compares strictly above the least held, swapping the polled least element for it is the challenge's outcome, and everything dropped stays at or below everything kept |
| Heaps.TopKSkip | javacs-lab13/src/com/flatironschool/javacs/ListSorter.java:210-211 | an element not strictly above the least held is above nothing held, so dropping it is the challenge's outcome, and it lies at or below everything kept |
| Heaps.Consider | javacs-lab13/src/com/flatironschool/javacs/ListSorter.java:203-215 | one element: while fewer than `k` are held it is offered and nothing is dropped; on a full queue the outcome is the challenge's; the queue holds `min(k, seen)`, and the dropped elements stay at or below the kept ones |
| Heaps.Challenge | javacs-lab13/src/com/flatironschool/javacs/ListSorter.java:210-214 | on a full queue: an element above nothing held (ties included) is dropped and the queue is unchanged; otherwise a least element held is dropped and the element takes its place; the size and the total are kept |
| Heaps.TopKResult | javacs-lab13/src/com/flatironschool/javacs/ListSorter.java:219-224 | the drained queue is a top-k answer: `min(k, n)` input elements, ascending, none of them below anything dropped |
| Heaps.TopK | javacs-lab13/src/com/flatironschool/javacs/ListSorter.java:200-225 | the list itself is returned, holding `min(k, n)` of its elements, ascending, each at or above every element dropped |
| Radix.LexAntisymmetric | javacs-lab13/src/com/flatironschool/javacs/ListSorter.java:58-78 | comparing positions `d` to `w - 1` is antisymmetric |
| Radix.LexTransitive | javacs-lab13/src/com/flatironschool/javacs/ListSorter.java:58-78 | comparing positions `d` to `w - 1` is transitive |
| Radix.SuffixOrderIsComparator | javacs-lab13/src/com/flatironschool/javacs/ListSorter.java:58-78 | the order a radix sort establishes meets the comparator contract |
| Radix.LexEqual | javacs-lab13/src/com/flatironschool/javacs/ListSorter.java:50 | two strings of width `w` that tie on every position are equal |
| Radix.BucketAppend | javacs-lab13/src/com/flatironschool/javacs/ListSorter.java:71-72 | the strings of a key in two parts are those of the first part, then of the second |
| Radix.BucketMember | javacs-lab13/src/com/flatironschool/javacs/ListSorter.java:71-72 | a bucket holds only input strings whose key is its own |
| Radix.BelowStep | javacs-lab13/src/com/flatironschool/javacs/ListSorter.java:67-68 | raising the bound by one adds the strings of the next key |
| Radix.BucketsBelow | javacs-lab13/src/com/flatironschool/javacs/ListSorter.java:66-68 | the cumulated count of a key, the start of its bucket, is the number of strings whose key is below it |
| Radix.BelowAll | javacs-lab13/src/com/flatironschool/javacs/ListSorter.java:62-64 | when every key is a counter index, every string is below `R` |
| Radix.KeyPassPermutes | javacs-lab13/src/com/flatironschool/javacs/ListSorter.java:70-72 | a pass places each string exactly once |
| Radix.BucketsGrow | javacs-lab13/src/com/flatironschool/javacs/ListSorter.java:66-68 | bucket starts do not decrease with the key |
| Radix.Assembled | javacs-lab13/src/com/flatironschool/javacs/ListSorter.java:70-72 | an array holding each of the first `n` buckets, whole, at its start begins with those buckets, so once every bucket is in place it holds the pass |
| Radix.BucketSorted | javacs-lab13/src/com/flatironschool/javacs/ListSorter.java:70-72 | within one bucket, the order of the later positions is the order from `d` |
| Radix.BucketsSorted | javacs-lab13/src/com/flatironschool/javacs/ListSorter.java:58-78 | after the pass for `d`, the strings are ordered by positions `d` to `w - 1` |
| Radix.BucketKeys | javacs-lab13/src/com/flatironschool/javacs/ListSorter.java:70-72 | every string in the bucket of `c` has key `c` |
| Radix.SortedByKey | javacs-lab13/src/com/flatironschool/javacs/ListSorter.java:70-72 | strings with smaller keys, in order, followed by strings of the next key, in order, are in order |
| Radix.SelectBucket | javacs-lab13/src/com/flatironschool/javacs/ListSorter.java:70-72 | the strings tying with `x` from `d` on all lie in `x`'s bucket, in input order |
| Radix.SelectBuckets | javacs-lab13/src/com/flatironschool/javacs/ListSorter.java:70-72 | only `x`'s bucket contributes strings that tie with `x` |
| Radix.SelectBucketsStep | javacs-lab13/src/com/flatironschool/javacs/ListSorter.java:70-72 | adding one bucket adds the ties of `x` exactly when it is `x`'s bucket |
| Radix.SelectOtherBucket | javacs-lab13/src/com/flatironschool/javacs/ListSorter.java:70-72 | another key's bucket holds nothing that ties with `x` |
| Radix.KeyPassStable | javacs-lab13/src/com/flatironschool/javacs/ListSorter.java:58-78 | a pass over an arrangement stable for positions `d + 1` on is stable for positions `d` on |
| Radix.KeyPass | javacs-lab13/src/com/flatironschool/javacs/ListSorter.java:59-76 | one counting pass on values: the buckets of keys `0` to `R - 1` one after the other; no longer than its input |
| Radix.Passes | javacs-lab13/src/com/flatironschool/javacs/ListSorter.java:58-78 | the passes for positions `w - 1` down to `d`, in that order; no longer than the input |
| Radix.PassesCorrect | javacs-lab13/src/com/flatironschool/javacs/ListSorter.java:58-78 | the passes for positions `w - 1` down to `d` sort by those positions, stably, keeping every string |
| Radix.PassesIdempotent | javacs-lab13/src/com/flatironschool/javacs/ListSorter.java:53-79 | strings already in order by their first `w` characters are left as they are |
| Radix.FitsPermuted | javacs-lab13/src/com/flatironschool/javacs/ListSorter.java:74-76 | a rearranged array still meets the width and alphabet precondition |
| Radix.FitsKeys | javacs-lab13/src/com/flatironschool/javacs/ListSorter.java:64 | every key read is a counter index |
| Radix.BucketSnoc | javacs-lab13/src/com/flatironschool/javacs/ListSorter.java:63-64 | one more string extends its own key's bucket by itself and leaves every other bucket as it was |
| Radix.BucketPrefix | javacs-lab13/src/com/flatironschool/javacs/ListSorter.java:71-72 | the part of a bucket placed so far is no longer than the bucket |
| Radix.PlacedOther | javacs-lab13/src/com/flatironschool/javacs/ListSorter.java:72 | a write outside a placed part leaves it in place |
| Radix.PlacedNext | javacs-lab13/src/com/flatironschool/javacs/ListSorter.java:72 | a write just past a placed part extends it |
| Radix.PlaceBound | javacs-lab13/src/com/flatironschool/javacs/ListSorter.java:72 | the slot written lies inside the string's own bucket, so every write is in range |
| Radix.BucketsNext | javacs-lab13/src/com/flatironschool/javacs/ListSorter.java:68 | the bucket of `c` starts where the buckets below it end |
| Radix.PlaceOne | javacs-lab13/src/com/flatironschool/javacs/ListSorter.java:72 | a move step keeps each bucket in place, extending only the bucket written |
| Radix.PlaceOwn | javacs-lab13/src/com/flatironschool/javacs/ListSorter.java:72 | the bucket written grows by the string placed |
| Radix.PlaceOther | javacs-lab13/src/com/flatironschool/javacs/ListSorter.java:72 | every other bucket is untouched by the write |
| Radix.Missed | javacs-lab13/src/com/flatironschool/javacs/ListSorter.java:72 | the write misses the placed part of every other bucket |
| Radix.Apart | javacs-lab13/src/com/flatironschool/javacs/ListSorter.java:72 | a slot of one bucket lies outside the placed part of any other |
| Radix.PlaceBefore | javacs-lab13/src/com/flatironschool/javacs/ListSorter.java:72 | a bucket below the one written ends before the write |
| Radix.PlaceStep | javacs-lab13/src/com/flatironschool/javacs/ListSorter.java:71-72 | one move step writes in range and keeps every bucket's placed part in place |
| Radix.Frequencies | javacs-lab13/src/com/flatironschool/javacs/ListSorter.java:62-64 | `count[c + 1]` ends as the number of strings whose key at `d` is `c`, and `count[0]` is zero |
| Radix.Cumulate | javacs-lab13/src/com/flatironschool/javacs/ListSorter.java:66-68 | `count[c]` ends as the start of bucket `c`, the total of the buckets below it |
| Radix.PlaceNext | javacs-lab13/src/com/flatironschool/javacs/ListSorter.java:72 | `aux[count[key]++] = a[i]` writes in range, keeps every bucket in place, and advances only its own counter |
| Radix.Distribute | javacs-lab13/src/com/flatironschool/javacs/ListSorter.java:70-72 | `aux` ends holding the pass: the strings grouped by key in key order, each group in input order |
| Radix.CopyBack | javacs-lab13/src/com/flatironschool/javacs/ListSorter.java:74-76 | `a` ends equal to `aux` |
| Radix.CountingPass | javacs-lab13/src/com/flatironschool/javacs/ListSorter.java:59-76 | one counting pass leaves `a` holding the pass for position `d` |
| Radix.NextPass | javacs-lab13/src/com/flatironschool/javacs/ListSorter.java:58-78 | one round of the outer loop adds the pass for `d` on top of those after it |
| Radix.LSDRadixSort | javacs-lab13/src/com/flatironschool/javacs/ListSorter.java:53-79 | `a` ends holding the passes for `w - 1` down to `0`: sorted by the first `w` characters, stably, as a permutation; `w <= 0` leaves it unchanged |
| Scenarios.OnlyArrangement | javacs-lab13/src/com/flatironschool/javacs/ListSorterTest.java:70-77 | `1, 2, 3, 4, 5` is the only sorted arrangement of `3, 5, 1, 4, 2` |
| Scenarios.InsertionSortExample | javacs-lab13/src/com/flatironschool/javacs/ListSorterTest.java:59-64 | `insertionSort` turns `3, 5, 1, 4, 2` into `1, 2, 3, 4, 5` |
| Scenarios.MergeSortExample | javacs-lab13/src/com/flatironschool/javacs/ListSorterTest.java:92-96 | `mergeSort` of `3, 5, 1, 4, 2` is `1, 2, 3, 4, 5` |
| Scenarios.MergeSortSingleExample | javacs-lab13/src/com/flatironschool/javacs/ListSorterTest.java:98-101 | `mergeSort` of `6` is the same list, holding `6` |
| Scenarios.MergeSortInPlaceExample | javacs-lab13/src/com/flatironschool/javacs/ListSorterTest.java:82-87 | `mergeSortInPlace` turns `3, 5, 1, 4, 2` into `1, 2, 3, 4, 5` |
| Scenarios.MergeSortInPlaceAsWrittenSingle | javacs-lab13/src/com/flatironschool/javacs/ListSorter.java:89-93 | as written, `mergeSortInPlace` empties the list `6`, whose sorted arrangement is `6` |
| Scenarios.HeapSortExample | javacs-lab13/src/com/flatironschool/javacs/ListSorterTest.java:107-112 | `heapSort` turns `3, 5, 1, 4, 2` into `1, 2, 3, 4, 5` |
| Scenarios.OnlyTopFour | javacs-lab13/src/com/flatironschool/javacs/ListSorterTest.java:117-127 | the only top-4 answer for `6, 3, 5, 8, 1, 4, 2, 7` is `5, 6, 7, 8` |
| Scenarios.TopKExample | javacs-lab13/src/com/flatironschool/javacs/ListSorterTest.java:117-127 | `topK(4, …)` returns the same list, now `5, 6, 7, 8` |
| Scenarios.RadixSortExample | javacs-lab13/src/com/flatironschool/javacs/ListSorterTest.java:42-54 | `LSDradixSort` with width 3 turns the six strings into `aaa, aab, abc, bbd, bbf, lop` |
| Scenarios.OnlyRadixArrangement | javacs-lab13/src/com/flatironschool/javacs/ListSorterTest.java:44-53 | that is the only arrangement of the six strings sorted by all three positions |

## Left out

- `main` (`ListSorter.java:231-256`) only builds a list and prints it. The model has no I/O.
- The commented-out iterative `mergeSort` (`ListSorter.java:137-166`) is not compiled code.
- Exceptions are not modelled. Each input that would throw becomes a precondition:
  - Heaps.HeapSort: requires a non-empty list. The code passes the list's size as the queue's
    initial capacity, and the library refuses zero. So an empty list throws; it is not a no-op.
  - Heaps.TopK: requires `k >= 1` and a non-empty list. An empty list throws for the same reason.
    With `k <= 0` and a non-empty list, `peek()` on the empty queue returns `null` and the comparator
    receives it. The tests' comparator then throws. For other comparators the result depends on
    what they return for `null`.
  - Radix.LSDRadixSort: requires every string to have at least `w` characters, each below 256.
    Otherwise `charAt` or the counting array is indexed out of bounds.
- Heaps.HeapSort does not state stability, and PriorityQueues.PriorityQueue.Poll does not say
  which of several equal least elements comes out. The library's binary heap fixes no such tie
  order. The model keeps the queue as an unordered bag and promises only "a least element".
- Heaps.HeapSort: idempotence is not stated for heap sort. Its result is a sorted permutation,
  and Ordering.SortedPermutationUnique gives equality only when equal elements are identical.
- Insertion.Insert, Insertion.InsertionSorted, Merging.Merged, Merging.MergeSorted, Radix.KeyPass and
  Radix.Passes state only their length in their own contracts. They are the value-level meaning of the
  routines. What they hold and in what order is proved by the lemmas about them (InsertAt, InsertPermutes,
  InsertionSortedCorrect, MergedSelect, MergeSortedCorrect, KeyPassPermutes, PassesCorrect).
- Radix.Cumulate does not restate, after the loop, that `count[c]` is the number of strings whose
  key is below `c`. It states that `count[c]` is the length of the first `c` buckets, and
  Radix.BucketsBelow proves that the two agree.
- Java's 32-bit `int` is modelled as an unbounded integer. Sizes, indices and counts stay far below
  2^31 for any list or array the JVM can hold.
- `ArrayList` and `LinkedList` are one class; only their contents matter to the routines.
  `new LinkedList<>(list.subList(a, b))` is a fresh list holding that slice.
- The comparator is a pure function of its two arguments. A comparator that throws, has state
  or breaks its contract is outside the model. Every ordering result assumes the contract.
- A list is passed as a class instance. Aliasing is modelled where the source relies on it: the
  object `mergeSort` returns, and the list `topK` returns. Aliasing between arguments of different
  calls is not modelled.

## Findings

| source | as written | input that shows it | evidently intended | confidence | as-written member | corrected member |
|---|---|---|---|---|---|---|
| javacs-lab13/src/com/flatironschool/javacs/ListSorter.java:89-93 | `mergeSort` returns the list itself when it has fewer than two elements; `list.clear()` then empties `sorted` too, and `addAll` adds nothing | a list holding only `6` | the list ends holding `6`, its sorted arrangement | not executed | Merging.MergeSortInPlaceAsWritten | Merging.MergeSortInPlace |
