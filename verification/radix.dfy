/** Least-significant-digit radix sort of fixed-width strings
(`ListSorter.LSDradixSort`).

One pass per character position, from the last position `w - 1` down to
`0`; each pass is a key-indexed counting sort on the character at that
position, over an alphabet of `R = 256` keys. On values a pass is
`KeyPass`: the strings whose key is 0, then those whose key is 1, and so
on, each group in its order before the pass. */
module Radix {
  import opened Ordering

  /** The alphabet size of the source, extended ASCII. */
  const R: nat := 256

  /** The key of `x` at position `d`: its character code there, or -1 past
      either end. The sort itself only reads positions inside every string. */
  function Key(x: string, d: int): int {
    if 0 <= d < |x| then x[d] as int else -1
  }

  /** Every position below `w` holds a character the counting array can index. */
  predicate Fit(x: string, w: int) {
    |x| >= w && forall p :: 0 <= p < w ==> x[p] as int < R
  }

  ghost predicate Fits(s: seq<string>, w: int) {
    forall i :: 0 <= i < |s| ==> Fit(s[i], w)
  }

  /** Every key at position `d` is one of the `R` counters. */
  ghost predicate KeysInRange(s: seq<string>, d: int) {
    forall i :: 0 <= i < |s| ==> 0 <= Key(s[i], d) < R
  }

  /** Lexicographic comparison of positions `d` to `w - 1`. */
  function LexCompare(x: string, y: string, d: int, w: int): int
    decreases w - d
  {
    if d >= w then 0
    else if Key(x, d) != Key(y, d) then IntCompare(Key(x, d), Key(y, d))
    else LexCompare(x, y, d + 1, w)
  }

  /** The order a radix sort has established once it has done the passes
      for positions `d` to `w - 1`. */
  function SuffixOrder(d: int, w: int): (string, string) -> int {
    (x: string, y: string) => LexCompare(x, y, d, w)
  }

  /** The strings of `s` whose key at `d` is `c`, in their order in `s`. */
  function Bucket(s: seq<string>, d: int, c: int): (b: seq<string>)
    ensures |b| <= |s|
  {
    if s == [] then []
    else (if Key(s[0], d) == c then [s[0]] else []) + Bucket(s[1..], d, c)
  }

  /** The buckets of keys `0` to `c - 1`, one after the other. */
  function Buckets(s: seq<string>, d: int, c: nat): seq<string> {
    if c == 0 then [] else Buckets(s, d, c - 1) + Bucket(s, d, c - 1)
  }

  /** The strings of `s` whose key at `d` lies in `0 .. c - 1`, in their order. */
  function Below(s: seq<string>, d: int, c: int): (b: seq<string>)
    ensures |b| <= |s|
  {
    if s == [] then []
    else (if 0 <= Key(s[0], d) < c then [s[0]] else []) + Below(s[1..], d, c)
  }

  /** One counting pass on the character at position `d`. */
  function KeyPass(s: seq<string>, d: int): (p: seq<string>)
    ensures |p| <= |s|
  {
    BucketsBelow(s, d, R);
    Buckets(s, d, R)
  }

  /** The passes for positions `w - 1` down to `d`, in that order. */
  function Passes(s: seq<string>, d: int, w: int): (p: seq<string>)
    ensures |p| <= |s|
    decreases w - d
  {
    if d >= w then s else KeyPass(Passes(s, d + 1, w), d)
  }

  // ---------------------------------------------------------------------
  // The suffix order is a comparator.

  lemma {:induction false} LexAntisymmetric(x: string, y: string, d: int, w: int)
    ensures LexCompare(x, y, d, w) < 0 <==> LexCompare(y, x, d, w) > 0
    decreases w - d
  {
    if d < w && Key(x, d) == Key(y, d) {
      LexAntisymmetric(x, y, d + 1, w);
    }
  }

  lemma {:induction false} LexTransitive(x: string, y: string, z: string, d: int, w: int)
    requires LexCompare(x, y, d, w) <= 0 && LexCompare(y, z, d, w) <= 0
    ensures LexCompare(x, z, d, w) <= 0
    decreases w - d
  {
    if d < w && Key(x, d) == Key(y, d) && Key(y, d) == Key(z, d) {
      LexTransitive(x, y, z, d + 1, w);
    }
  }

  lemma SuffixOrderIsComparator(d: int, w: int)
    ensures Comparator(SuffixOrder(d, w))
  {
    forall x, y ensures LexCompare(x, y, d, w) < 0 <==> LexCompare(y, x, d, w) > 0 {
      LexAntisymmetric(x, y, d, w);
    }
    forall x, y, z | LexCompare(x, y, d, w) <= 0 && LexCompare(y, z, d, w) <= 0
      ensures LexCompare(x, z, d, w) <= 0
    {
      LexTransitive(x, y, z, d, w);
    }
  }

  /** Two strings of width `w` that agree in the suffix order on every
      position are the same string. */
  lemma {:induction false} LexEqual(x: string, y: string, d: nat, w: nat)
    requires |x| == w && |y| == w && d <= w
    requires LexCompare(x, y, d, w) == 0
    ensures x[d..] == y[d..]
    decreases w - d
  {
    if d < w {
      LexEqual(x, y, d + 1, w);
      assert x[d..] == [x[d]] + x[d + 1..] && y[d..] == [y[d]] + y[d + 1..];
    }
  }

  // ---------------------------------------------------------------------
  // Buckets and counts.

  lemma {:induction false} BucketAppend(a: seq<string>, b: seq<string>, d: int, c: int)
    ensures Bucket(a + b, d, c) == Bucket(a, d, c) + Bucket(b, d, c)
  {
    if a != [] {
      assert (a + b)[0] == a[0] && (a + b)[1..] == a[1..] + b;
      BucketAppend(a[1..], b, d, c);
    } else {
      assert a + b == b;
    }
  }

  /** A bucket holds strings of `s` with key `c`, and nothing else. */
  lemma {:induction false} BucketMember(s: seq<string>, d: int, c: int, y: string)
    requires y in Bucket(s, d, c)
    ensures y in s && Key(y, d) == c
  {
    if s != [] {
      if !(Key(s[0], d) == c && y == s[0]) {
        assert y in Bucket(s[1..], d, c);
        BucketMember(s[1..], d, c, y);
      }
    }
  }

  /** A bucket of a key no string has is empty. */
  lemma {:induction false} BucketNone(s: seq<string>, d: int, c: int)
    requires forall i :: 0 <= i < |s| ==> Key(s[i], d) != c
    ensures Bucket(s, d, c) == []
  {
    if s != [] {
      BucketNone(s[1..], d, c);
    }
  }

  /** Raising the bound from `c - 1` to `c` adds the bucket of `c - 1`. */
  lemma {:induction false} BelowStep(s: seq<string>, d: int, c: nat)
    requires c > 0
    ensures multiset(Below(s, d, c)) == multiset(Below(s, d, c - 1)) + multiset(Bucket(s, d, c - 1))
  {
    if s != [] {
      BelowStep(s[1..], d, c);
    }
  }

  /** The first `c` buckets hold exactly the strings with a key below `c`. */
  lemma {:induction false} BucketsBelow(s: seq<string>, d: int, c: nat)
    ensures multiset(Buckets(s, d, c)) == multiset(Below(s, d, c))
    ensures |Buckets(s, d, c)| == |Below(s, d, c)|
  {
    if c == 0 {
      BelowNone(s, d);
    } else {
      var front, here := Buckets(s, d, c - 1), Bucket(s, d, c - 1);
      assert Buckets(s, d, c) == front + here;
      BucketsBelow(s, d, c - 1);
      BelowStep(s, d, c);
      MultisetJoin(front, here, Below(s, d, c - 1), Below(s, d, c));
    }
    SameLength(Buckets(s, d, c), Below(s, d, c));
  }

  /** Joining two parts whose elements are known gives their union. */
  lemma MultisetJoin(front: seq<string>, here: seq<string>, lower: seq<string>, upper: seq<string>)
    requires multiset(front) == multiset(lower)
    requires multiset(upper) == multiset(lower) + multiset(here)
    ensures multiset(front + here) == multiset(upper)
  {
  }

  /** Sequences with the same elements have the same length. */
  lemma SameLength(a: seq<string>, b: seq<string>)
    requires multiset(a) == multiset(b)
    ensures |a| == |b|
  {
    assert |multiset(a)| == |a|;
  }

  lemma {:induction false} BelowNone(s: seq<string>, d: int)
    ensures Below(s, d, 0) == []
  {
    if s != [] {
      BelowNone(s[1..], d);
    }
  }

  /** When every key is in range, every string is below `R`. */
  lemma {:induction false} BelowAll(s: seq<string>, d: int)
    requires KeysInRange(s, d)
    ensures Below(s, d, R) == s
  {
    if s != [] {
      BelowAll(s[1..], d);
      assert s == [s[0]] + s[1..];
    }
  }

  /** A pass places each string exactly once. */
  lemma KeyPassPermutes(s: seq<string>, d: int)
    requires KeysInRange(s, d)
    ensures multiset(KeyPass(s, d)) == multiset(s)
    ensures |KeyPass(s, d)| == |s|
  {
    BucketsBelow(s, d, R);
    BelowAll(s, d);
  }

  lemma {:induction false} BucketsGrow(s: seq<string>, d: int, c: nat, c': nat)
    requires c <= c'
    ensures |Buckets(s, d, c)| <= |Buckets(s, d, c')|
    decreases c' - c
  {
    if c < c' {
      BucketsGrow(s, d, c + 1, c');
    }
  }

  /** A sequence holding each of the first `n` buckets at the bucket's
      offset begins with those buckets. */
  lemma {:induction false} Assembled(s: seq<string>, d: int, n: nat, t: seq<string>)
    requires |Buckets(s, d, n)| <= |t|
    requires forall c :: 0 <= c < n ==> InPlace(s, d, c, t)
    ensures t[..|Buckets(s, d, n)|] == Buckets(s, d, n)
  {
    if n > 0 {
      assert Buckets(s, d, n) == Buckets(s, d, n - 1) + Bucket(s, d, n - 1);
      Assembled(s, d, n - 1, t);
      var lo, hi := |Buckets(s, d, n - 1)|, |Buckets(s, d, n)|;
      assert InPlace(s, d, n - 1, t);
      assert t[..hi] == t[..lo] + t[lo..hi];
    }
  }

  /** Bucket `c` sits, whole, where it starts in `t`. */
  ghost predicate InPlace(s: seq<string>, d: int, c: nat, t: seq<string>) {
    Filled(s, d, c, t, Bucket(s, d, c))
  }

  // ---------------------------------------------------------------------
  // A pass refines the order by one more position, stably.

  /** Within one bucket, the order of the previous passes is the order at `d`. */
  lemma {:induction false} BucketSorted(s: seq<string>, d: int, w: int, c: int)
    requires 0 <= d < w
    requires Sorted(SuffixOrder(d + 1, w), s)
    ensures Sorted(SuffixOrder(d, w), Bucket(s, d, c))
  {
    if s != [] {
      var rest := Bucket(s[1..], d, c);
      assert Sorted(SuffixOrder(d + 1, w), s[1..]);
      BucketSorted(s[1..], d, w, c);
      if Key(s[0], d) == c {
        forall j | 0 <= j < |rest| ensures LexCompare(s[0], rest[j], d, w) <= 0 {
          BucketMember(s[1..], d, c, rest[j]);
          var k :| 0 <= k < |s[1..]| && s[1..][k] == rest[j];
          assert LexCompare(s[0], s[k + 1], d + 1, w) <= 0;
        }
        SortedCons(SuffixOrder(d, w), s[0], rest);
      }
    }
  }

  /** The first `c` buckets of a pass are in order at `d`. */
  lemma {:induction false} BucketsSorted(s: seq<string>, d: int, w: int, c: nat)
    requires 0 <= d < w
    requires Sorted(SuffixOrder(d + 1, w), s)
    ensures Sorted(SuffixOrder(d, w), Buckets(s, d, c))
    ensures forall i :: 0 <= i < |Buckets(s, d, c)| ==> Key(Buckets(s, d, c)[i], d) < c
  {
    if c > 0 {
      var front, back := Buckets(s, d, c - 1), Bucket(s, d, c - 1);
      BucketsSorted(s, d, w, c - 1);
      BucketSorted(s, d, w, c - 1);
      BucketKeys(s, d, c - 1);
      SortedByKey(d, w, front, back, c - 1);
      assert Buckets(s, d, c) == front + back;
    }
  }

  /** Every string of the bucket of `c` has key `c`. */
  lemma BucketKeys(s: seq<string>, d: int, c: int)
    ensures forall j :: 0 <= j < |Bucket(s, d, c)| ==> Key(Bucket(s, d, c)[j], d) == c
  {
    var b := Bucket(s, d, c);
    forall j | 0 <= j < |b| ensures Key(b[j], d) == c {
      BucketMember(s, d, c, b[j]);
    }
  }

  /** Strings with keys below `c` at `d`, in order, followed by strings with
      key `c`, in order, are in order. */
  lemma SortedByKey(d: int, w: int, front: seq<string>, back: seq<string>, c: int)
    requires 0 <= d < w
    requires Sorted(SuffixOrder(d, w), front) && Sorted(SuffixOrder(d, w), back)
    requires forall i :: 0 <= i < |front| ==> Key(front[i], d) < c
    requires forall j :: 0 <= j < |back| ==> Key(back[j], d) == c
    ensures Sorted(SuffixOrder(d, w), front + back)
    ensures forall i :: 0 <= i < |front + back| ==> Key((front + back)[i], d) < c + 1
  {
    forall i, j | 0 <= i < |front| && 0 <= j < |back| ensures LexCompare(front[i], back[j], d, w) <= 0 {
      assert Key(front[i], d) < Key(back[j], d);
    }
    SortedAppend(SuffixOrder(d, w), front, back);
  }

  /** The strings of `s` in the class of `x` at `d` are those of its bucket. */
  lemma {:induction false} SelectBucket(s: seq<string>, d: int, w: int, x: string)
    requires 0 <= d < w
    ensures Select(SuffixOrder(d, w), Bucket(s, d, Key(x, d)), x) == Select(SuffixOrder(d, w), s, x)
  {
    if s != [] {
      SelectBucket(s[1..], d, w, x);
      var head := if Key(s[0], d) == Key(x, d) then [s[0]] else [];
      SelectAppend(SuffixOrder(d, w), head, Bucket(s[1..], d, Key(x, d)), x);
    }
  }

  /** Only the bucket of `x`'s key contributes to the class of `x`. */
  lemma {:induction false} SelectBuckets(s: seq<string>, d: int, w: int, c: nat, x: string)
    requires 0 <= d < w
    ensures Select(SuffixOrder(d, w), Buckets(s, d, c), x)
         == if 0 <= Key(x, d) < c then Select(SuffixOrder(d, w), s, x) else []
  {
    if c > 0 {
      SelectBuckets(s, d, w, c - 1, x);
      SelectBucketsStep(s, d, w, c, x);
    }
  }

  /** Adding the bucket of `c - 1` adds the class of `x` exactly when `x`'s
      key is `c - 1`. */
  lemma SelectBucketsStep(s: seq<string>, d: int, w: int, c: nat, x: string)
    requires 0 <= d < w && c > 0
    requires Select(SuffixOrder(d, w), Buckets(s, d, c - 1), x)
          == if 0 <= Key(x, d) < c - 1 then Select(SuffixOrder(d, w), s, x) else []
    ensures Select(SuffixOrder(d, w), Buckets(s, d, c), x)
         == if 0 <= Key(x, d) < c then Select(SuffixOrder(d, w), s, x) else []
  {
    var cmp := SuffixOrder(d, w);
    var front, here := Buckets(s, d, c - 1), Bucket(s, d, c - 1);
    assert Buckets(s, d, c) == front + here;
    SelectAppend(cmp, front, here, x);
    if Key(x, d) == c - 1 {
      SelectBucket(s, d, w, x);
      assert Select(cmp, front, x) + Select(cmp, here, x) == [] + Select(cmp, s, x) == Select(cmp, s, x);
    } else {
      SelectOtherBucket(s, d, w, c - 1, x);
      assert Select(cmp, front, x) + [] == Select(cmp, front, x);
    }
  }

  /** A bucket of another key holds nothing of the class of `x`. */
  lemma SelectOtherBucket(s: seq<string>, d: int, w: int, c: int, x: string)
    requires 0 <= d < w && Key(x, d) != c
    ensures Select(SuffixOrder(d, w), Bucket(s, d, c), x) == []
  {
    var b := Bucket(s, d, c);
    forall i | 0 <= i < |b| ensures LexCompare(b[i], x, d, w) != 0 {
      BucketMember(s, d, c, b[i]);
    }
    SelectNone(SuffixOrder(d, w), b, x);
  }

  /** A pass keeps the relative order of strings that agree at `d`; after
      passes that were stable for positions `d + 1` on, it is stable for
      positions `d` on. */
  lemma KeyPassStable(s: seq<string>, p: seq<string>, d: int, w: int)
    requires 0 <= d < w
    requires KeysInRange(p, d)
    requires Stable(SuffixOrder(d + 1, w), s, p)
    ensures Stable(SuffixOrder(d, w), s, KeyPass(p, d))
  {
    forall x ensures Select(SuffixOrder(d, w), KeyPass(p, d), x) == Select(SuffixOrder(d, w), s, x) {
      SelectBuckets(p, d, w, R, x);
      if !(0 <= Key(x, d) < R) {
        forall i | 0 <= i < |p| ensures LexCompare(p[i], x, d, w) != 0 { }
        SelectNone(SuffixOrder(d, w), p, x);
      }
      SelectRefine(SuffixOrder(d, w), SuffixOrder(d + 1, w), p, x);
      SelectRefine(SuffixOrder(d, w), SuffixOrder(d + 1, w), s, x);
    }
  }

  /** The passes for positions `d` to `w - 1` sort by those positions,
      stably, and place every string once. */
  lemma {:induction false} PassesCorrect(s: seq<string>, d: nat, w: int)
    requires Fits(s, w)
    ensures Sorted(SuffixOrder(d, w), Passes(s, d, w))
    ensures Stable(SuffixOrder(d, w), s, Passes(s, d, w))
    ensures multiset(Passes(s, d, w)) == multiset(s)
    decreases w - d
  {
    if d < w {
      var p := Passes(s, d + 1, w);
      PassesCorrect(s, d + 1, w);
      FitsPermuted(s, p, w);
      FitsKeys(p, d, w);
      KeyPassPermutes(p, d);
      BucketsSorted(p, d, w, R);
      KeyPassStable(s, p, d, w);
    }
  }

  /** Radix-sorting strings already in order by their first `w` characters
      changes nothing: the passes are a stable sort, and a stable sort has
      only one result. */
  lemma PassesIdempotent(s: seq<string>, w: int)
    requires Fits(s, w)
    requires Sorted(SuffixOrder(0, w), s)
    ensures Passes(s, 0, w) == s
  {
    PassesCorrect(s, 0, w);
    SuffixOrderIsComparator(0, w);
    SortedStableUnique(SuffixOrder(0, w), s, Passes(s, 0, w));
  }

  /** A rearrangement of fitting strings fits. */
  lemma FitsPermuted(s: seq<string>, p: seq<string>, w: int)
    requires Fits(s, w) && multiset(p) == multiset(s)
    ensures Fits(p, w)
  {
    forall i | 0 <= i < |p| ensures Fit(p[i], w) {
      assert p[i] in multiset(s);
      var k :| 0 <= k < |s| && s[k] == p[i];
    }
  }

  /** Fitting strings have their keys below `w` in range. */
  lemma FitsKeys(s: seq<string>, d: nat, w: int)
    requires Fits(s, w) && d < w
    ensures KeysInRange(s, d)
  {
    forall i | 0 <= i < |s| ensures 0 <= Key(s[i], d) < R {
      assert Fit(s[i], w);
    }
  }

  // ---------------------------------------------------------------------
  // The sort itself, one counting pass at a time.

  /** Extending the prefix `s[..i]` by one string adds it to its own bucket
      and to no other. */
  lemma BucketSnoc(s: seq<string>, i: nat, d: int, c: int)
    requires i < |s|
    ensures Bucket(s[..i + 1], d, c) == Bucket(s[..i], d, c) + if Key(s[i], d) == c then [s[i]] else []
  {
    assert s[..i + 1] == s[..i] + [s[i]];
    BucketAppend(s[..i], [s[i]], d, c);
  }

  /** The frequency loop: `count[c + 1]` is the number of strings whose key is `c`. */
  method Frequencies(a: array<string>, d: int) returns (count: array<int>)
    requires KeysInRange(a[..], d)
    ensures fresh(count) && count.Length == R + 1
    ensures count[0] == 0
    ensures forall c :: 0 <= c < R ==> count[c + 1] == |Bucket(a[..], d, c)|
  {
    ghost var s := a[..];
    count := new int[R + 1](_ => 0);
    for i := 0 to a.Length
      invariant count[0] == 0
      invariant forall c :: 0 <= c < R ==> count[c + 1] == |Bucket(s[..i], d, c)|
    {
      assert 0 <= Key(s[i], d) < R;
      var k := a[i][d] as int;
      ghost var before, p := count[..], s[..i + 1];
      count[k + 1] := count[k + 1] + 1;
      forall c | 0 <= c < R ensures count[c + 1] == |Bucket(p, d, c)| {
        BucketSnoc(s, i, d, c);
        assert before[c + 1] == |Bucket(s[..i], d, c)|;
      }
    }
    assert s[..a.Length] == s;
  }

  /** The cumulate loop: afterwards `count[c]` is where the bucket of `c`
      starts, which `BucketsBelow` shows is the number of strings whose key
      is below `c`. */
  method Cumulate(count: array<int>, ghost s: seq<string>, d: int)
    requires count.Length == R + 1
    requires count[0] == 0
    requires forall c :: 0 <= c < R ==> count[c + 1] == |Bucket(s, d, c)|
    modifies count
    ensures forall c {:trigger count[c]} :: 0 <= c <= R ==> count[c] == |Buckets(s, d, c)|
  {
    for r := 0 to R
      invariant forall c {:trigger count[c]} :: 0 <= c <= r ==> count[c] == |Buckets(s, d, c)|
      invariant forall c :: r <= c < R ==> count[c + 1] == |Bucket(s, d, c)|
    {
      ghost var next := r + 1;
      assert Buckets(s, d, next) == Buckets(s, d, r) + Bucket(s, d, r);
      count[r + 1] := count[r + 1] + count[r];
    }
  }

  /** `b` sits in `t` from offset `lo` on. */
  ghost predicate Placed(t: seq<string>, lo: nat, b: seq<string>) {
    lo + |b| <= |t| && t[lo..lo + |b|] == b
  }

  /** The part `b` of bucket `c` placed so far sits where the bucket starts. */
  ghost predicate Filled(s: seq<string>, d: int, c: nat, t: seq<string>, b: seq<string>) {
    Placed(t, |Buckets(s, d, c)|, b)
  }

  /** Every bucket holds, in place, the strings of the prefix `p` it gets. */
  ghost predicate AllFilled(s: seq<string>, d: int, t: seq<string>, p: seq<string>) {
    forall c :: 0 <= c < R ==> Filled(s, d, c, t, Bucket(p, d, c))
  }

  /** A bucket prefix is no longer than the bucket. */
  lemma BucketPrefix(s: seq<string>, i: nat, d: int, c: int)
    requires i <= |s|
    ensures |Bucket(s[..i], d, c)| <= |Bucket(s, d, c)|
  {
    assert s == s[..i] + s[i..];
    BucketAppend(s[..i], s[i..], d, c);
  }

  /** A write outside the placed part of a bucket leaves it in place. */
  lemma PlacedOther(t: seq<string>, lo: nat, b: seq<string>, pos: nat, x: string)
    requires Placed(t, lo, b) && pos < |t|
    requires pos < lo || lo + |b| <= pos
    ensures Placed(t[pos := x], lo, b)
  {
    assert t[pos := x][lo..lo + |b|] == t[lo..lo + |b|];
  }

  /** A write just past the placed part of a bucket extends it. */
  lemma PlacedNext(t: seq<string>, lo: nat, b: seq<string>, x: string)
    requires Placed(t, lo, b) && lo + |b| < |t|
    ensures Placed(t[lo + |b| := x], lo, b + [x])
  {
    assert t[lo + |b| := x][lo..lo + |b| + 1] == t[lo..lo + |b|] + [x];
  }

  /** One step of the move loop on values: string `i` goes to the next free
      slot of its bucket, and every bucket stays in place. */
  lemma PlaceStep(s: seq<string>, d: int, i: nat, t: seq<string>)
    requires KeysInRange(s, d) && i < |s| && |t| == |s|
    requires AllFilled(s, d, t, s[..i])
    ensures |Buckets(s, d, Key(s[i], d))| + |Bucket(s[..i], d, Key(s[i], d))| < |t|
    ensures AllFilled(s, d, t[|Buckets(s, d, Key(s[i], d))| + |Bucket(s[..i], d, Key(s[i], d))| := s[i]], s[..i + 1])
  {
    var k := Key(s[i], d);
    var pos := |Buckets(s, d, k)| + |Bucket(s[..i], d, k)|;
    PlaceBound(s, d, i, k);
    var t', p := t[pos := s[i]], s[..i + 1];
    forall c | 0 <= c < R ensures Filled(s, d, c, t', Bucket(p, d, c)) {
      PlaceOne(s, d, i, t, k, pos, c);
    }
  }

  /** The next free slot of the bucket of string `i` lies inside that bucket. */
  lemma PlaceBound(s: seq<string>, d: int, i: nat, k: nat)
    requires KeysInRange(s, d) && i < |s| && k == Key(s[i], d)
    ensures |Buckets(s, d, k)| + |Bucket(s[..i], d, k)| < |Buckets(s, d, k + 1)| <= |s|
  {
    BucketSnoc(s, i, d, k);
    BucketPrefix(s, i + 1, d, k);
    BucketsNext(s, d, k);
    KeyPassPermutes(s, d);
    BucketsGrow(s, d, k + 1, R);
  }

  /** The bucket of `c` follows the buckets below it. */
  lemma BucketsNext(s: seq<string>, d: int, c: nat)
    ensures |Buckets(s, d, c + 1)| == |Buckets(s, d, c)| + |Bucket(s, d, c)|
  {
    assert Buckets(s, d, c + 1) == Buckets(s, d, c) + Bucket(s, d, c);
  }

  /** The write of one step seen from bucket `c`: it extends bucket `c` when
      that is the bucket written, and misses it otherwise. */
  lemma PlaceOne(s: seq<string>, d: int, i: nat, t: seq<string>, k: nat, pos: nat, c: nat)
    requires i < |s| && |t| == |s|
    requires k == Key(s[i], d) && pos == |Buckets(s, d, k)| + |Bucket(s[..i], d, k)|
    requires |Buckets(s, d, k)| + |Bucket(s[..i], d, k)| < |Buckets(s, d, k + 1)| <= |s|
    requires Filled(s, d, c, t, Bucket(s[..i], d, c))
    ensures Filled(s, d, c, t[pos := s[i]], Bucket(s[..i + 1], d, c))
  {
    if c == k {
      PlaceOwn(s, d, i, t, k, pos);
    } else {
      PlaceOther(s, d, i, t, k, pos, c);
    }
  }

  /** The bucket written grows by the string placed. */
  lemma PlaceOwn(s: seq<string>, d: int, i: nat, t: seq<string>, k: nat, pos: nat)
    requires i < |s| && |t| == |s|
    requires k == Key(s[i], d) && pos == |Buckets(s, d, k)| + |Bucket(s[..i], d, k)|
    requires pos < |t|
    requires Filled(s, d, k, t, Bucket(s[..i], d, k))
    ensures Filled(s, d, k, t[pos := s[i]], Bucket(s[..i + 1], d, k))
  {
    BucketSnoc(s, i, d, k);
    PlacedNext(t, |Buckets(s, d, k)|, Bucket(s[..i], d, k), s[i]);
  }

  /** Every other bucket is missed by the write. */
  lemma PlaceOther(s: seq<string>, d: int, i: nat, t: seq<string>, k: nat, pos: nat, c: nat)
    requires i < |s| && |t| == |s| && c != k
    requires k == Key(s[i], d) && pos == |Buckets(s, d, k)| + |Bucket(s[..i], d, k)|
    requires pos < |Buckets(s, d, k + 1)| <= |s|
    requires Filled(s, d, c, t, Bucket(s[..i], d, c))
    ensures Filled(s, d, c, t[pos := s[i]], Bucket(s[..i + 1], d, c))
  {
    BucketSnoc(s, i, d, c);
    Missed(s, d, i, t, k, pos, c, Bucket(s[..i], d, c));
  }

  /** The write lands outside the placed part `b` of bucket `c`. */
  lemma Missed(s: seq<string>, d: int, i: nat, t: seq<string>, k: nat, pos: nat, c: nat, b: seq<string>)
    requires i < |s| && pos < |t| && c != k && b == Bucket(s[..i], d, c)
    requires |Buckets(s, d, k)| <= pos < |Buckets(s, d, k + 1)|
    requires Filled(s, d, c, t, b)
    ensures Filled(s, d, c, t[pos := s[i]], b + [])
  {
    Apart(s, d, i, k, pos, c);
    PlacedOther(t, |Buckets(s, d, c)|, b, pos, s[i]);
    assert b + [] == b;
  }

  /** A slot of the bucket of `k` lies outside the placed part of any other
      bucket. */
  lemma Apart(s: seq<string>, d: int, i: nat, k: nat, pos: nat, c: nat)
    requires i <= |s| && c != k
    requires |Buckets(s, d, k)| <= pos < |Buckets(s, d, k + 1)|
    ensures pos < |Buckets(s, d, c)| || |Buckets(s, d, c)| + |Bucket(s[..i], d, c)| <= pos
  {
    if c < k {
      PlaceBefore(s, d, i, k, pos, c);
    } else {
      BucketsGrow(s, d, k + 1, c);
    }
  }

  /** A bucket below the one written ends before the write. */
  lemma PlaceBefore(s: seq<string>, d: int, i: nat, k: nat, pos: nat, c: nat)
    requires i <= |s| && c < k && pos >= |Buckets(s, d, k)|
    ensures |Buckets(s, d, c)| + |Bucket(s[..i], d, c)| <= pos
  {
    BucketPrefix(s, i, d, c);
    BucketsNext(s, d, c);
    BucketsGrow(s, d, c + 1, k);
  }

  /** The move loop: each string goes to the next free slot of its bucket,
      so `aux` ends holding the pass. */
  method Distribute(a: array<string>, aux: array<string>, count: array<int>, d: int)
    requires aux != a && aux.Length == a.Length && count.Length == R + 1
    requires KeysInRange(a[..], d)
    requires forall c {:trigger count[c]} :: 0 <= c <= R ==> count[c] == |Buckets(a[..], d, c)|
    modifies aux, count
    ensures aux[..] == KeyPass(a[..], d)
  {
    ghost var s := a[..];
    KeyPassPermutes(s, d);
    forall c | 0 <= c < R ensures Filled(s, d, c, aux[..], Bucket(s[..0], d, c)) {
      BucketsGrow(s, d, c, R);
      assert Bucket(s[..0], d, c) == [];
    }
    for i := 0 to a.Length
      invariant forall c {:trigger count[c]} :: 0 <= c < R ==> count[c] == |Buckets(s, d, c)| + |Bucket(s[..i], d, c)|
      invariant AllFilled(s, d, aux[..], s[..i])
    {
      PlaceNext(a, aux, count, d, i, s);
    }
    assert s[..a.Length] == s;
    assert forall c :: 0 <= c < R ==> InPlace(s, d, c, aux[..]);
    Assembled(s, d, R, aux[..]);
  }

  /** The body of the move loop: `aux[count[key]++] = a[i]`. */
  method PlaceNext(a: array<string>, aux: array<string>, count: array<int>, d: int, i: nat, ghost s: seq<string>)
    requires aux != a && aux.Length == a.Length && count.Length == R + 1
    requires s == a[..] && KeysInRange(s, d) && i < |s|
    requires forall c {:trigger count[c]} :: 0 <= c < R ==> count[c] == |Buckets(s, d, c)| + |Bucket(s[..i], d, c)|
    requires AllFilled(s, d, aux[..], s[..i])
    modifies aux, count
    ensures forall c {:trigger count[c]} :: 0 <= c < R ==> count[c] == |Buckets(s, d, c)| + |Bucket(s[..i + 1], d, c)|
    ensures AllFilled(s, d, aux[..], s[..i + 1])
  {
    assert 0 <= Key(s[i], d) < R;
    var k := a[i][d] as int;
    ghost var t, before, p := aux[..], count[..], s[..i + 1];
    assert count[k] == |Buckets(s, d, k)| + |Bucket(s[..i], d, k)|;
    PlaceStep(s, d, i, t);
    aux[count[k]] := a[i];
    assert aux[..] == t[before[k] := s[i]];
    count[k] := count[k] + 1;
    forall c | 0 <= c < R ensures count[c] == |Buckets(s, d, c)| + |Bucket(p, d, c)| {
      BucketSnoc(s, i, d, c);
      assert before[c] == |Buckets(s, d, c)| + |Bucket(s[..i], d, c)|;
    }
  }

  /** The copy-back loop. */
  method CopyBack(a: array<string>, aux: array<string>)
    requires aux != a && aux.Length == a.Length
    modifies a
    ensures a[..] == aux[..]
  {
    for i := 0 to a.Length
      invariant a[..i] == aux[..i]
    {
      a[i] := aux[i];
      assert a[..i + 1] == a[..i] + [a[i]];
    }
  }

  /** The body of the outer loop for position `d`: one key-indexed counting
      pass, leaving `a` holding the pass. `count` is a fresh counting array
      for each pass, as in the source. */
  method CountingPass(a: array<string>, aux: array<string>, d: int)
    requires aux != a && aux.Length == a.Length
    requires KeysInRange(a[..], d)
    modifies a, aux
    ensures a[..] == KeyPass(old(a[..]), d)
  {
    var count := Frequencies(a, d);
    Cumulate(count, a[..], d);
    Distribute(a, aux, count, d);
    CopyBack(a, aux);
  }

  /** `LSDradixSort(a, w)`: every string must have at least `w` characters,
      each below `R`, at the positions read. The passes run for positions
      `w - 1` down to `0`; with `w <= 0` there are none and `a` is unchanged.
      The result is sorted by the first `w` characters, stably. */
  method LSDRadixSort(a: array<string>, w: int)
    requires Fits(a[..], w)
    modifies a
    ensures a[..] == Passes(old(a[..]), 0, w)
    ensures w <= 0 ==> a[..] == old(a[..])
    ensures Sorted(SuffixOrder(0, w), a[..])
    ensures Stable(SuffixOrder(0, w), old(a[..]), a[..])
    ensures multiset(a[..]) == multiset(old(a[..]))
  {
    ghost var s0 := a[..];
    var n := a.Length;
    var aux := new string[n];
    var d := w - 1;
    while d >= 0
      invariant d < w && (d >= -1 || d == w - 1)
      invariant a[..] == Passes(s0, d + 1, w) && Fits(a[..], w)
      decreases d + 1
    {
      NextPass(a, aux, d, w, s0);
      d := d - 1;
    }
    if w <= 0 {
      assert a[..] == s0 == Passes(s0, 0, w);
    } else {
      assert d + 1 == 0;
    }
    PassesCorrect(s0, 0, w);
  }

  /** One iteration of the outer loop: the pass for position `d` on top of
      the passes for the positions after it. */
  method NextPass(a: array<string>, aux: array<string>, d: int, w: int, ghost s0: seq<string>)
    requires aux != a && aux.Length == a.Length
    requires 0 <= d < w && a[..] == Passes(s0, d + 1, w) && Fits(a[..], w)
    modifies a, aux
    ensures a[..] == Passes(s0, d, w) && Fits(a[..], w)
  {
    ghost var before := a[..];
    FitsKeys(before, d, w);
    CountingPass(a, aux, d);
    KeyPassPermutes(before, d);
    FitsPermuted(before, a[..], w);
  }
}
