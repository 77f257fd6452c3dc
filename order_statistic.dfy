/**
 The order statistic the median filter computes: a value is a median of an
 odd-length sample when at most half of the samples lie strictly below it and
 at most half lie strictly above it. The lemmas show that this description
 picks exactly one value, that it is the middle element of any sorted
 arrangement of the samples, and that it does not depend on the order in
 which the samples were collected.
 */
module OrderStatistic {

  /** Ascending order, ties allowed. */
  predicate Sorted(s: seq<int>) {
    forall a, b :: 0 <= a < b < |s| ==> s[a] <= s[b]
  }

  /** Number of samples strictly below `v`. */
  function CountBelow(s: seq<int>, v: int): (c: nat)
    ensures c <= |s|
  {
    if s == [] then 0 else (if s[0] < v then 1 else 0) + CountBelow(s[1..], v)
  }

  /** Number of samples strictly above `v`. */
  function CountAbove(s: seq<int>, v: int): (c: nat)
    ensures c <= |s|
  {
    if s == [] then 0 else (if s[0] > v then 1 else 0) + CountAbove(s[1..], v)
  }

  /** `v` splits the samples into two halves of at most |s|/2 each. */
  predicate IsMedian(s: seq<int>, v: int) {
    CountBelow(s, v) <= |s| / 2 && CountAbove(s, v) <= |s| / 2
  }

  lemma {:induction false} CountsAppend(s: seq<int>, t: seq<int>, v: int)
    ensures CountBelow(s + t, v) == CountBelow(s, v) + CountBelow(t, v)
    ensures CountAbove(s + t, v) == CountAbove(s, v) + CountAbove(t, v)
  {
    if s != [] {
      assert (s + t)[1..] == s[1..] + t;
      CountsAppend(s[1..], t, v);
    } else {
      assert s + t == t;
    }
  }

  /** Removing the sample at position `k` removes one occurrence of it from the multiset. */
  lemma MultisetRemove(t: seq<int>, k: nat)
    requires k < |t|
    ensures multiset(t[..k] + t[k + 1..]) == multiset(t) - multiset{t[k]}
  {
    assert t == t[..k] + [t[k]] + t[k + 1..];
  }

  /** Dropping the first sample of `s` and a matching sample of `t` keeps them permutations of each other. */
  lemma PermutationRemove(s: seq<int>, t: seq<int>, k: nat)
    requires multiset(s) == multiset(t) && s != [] && k < |t| && t[k] == s[0]
    ensures multiset(s[1..]) == multiset(t[..k] + t[k + 1..])
  {
    MultisetRemove(s, 0);
    MultisetRemove(t, k);
    assert s[..0] + s[1..] == s[1..];
  }

  /** Removing the sample at position `k` removes its contribution to the counts. */
  lemma CountsRemove(t: seq<int>, k: nat, v: int)
    requires k < |t|
    ensures CountBelow(t, v) == (if t[k] < v then 1 else 0) + CountBelow(t[..k] + t[k + 1..], v)
    ensures CountAbove(t, v) == (if t[k] > v then 1 else 0) + CountAbove(t[..k] + t[k + 1..], v)
  {
    var tail := [t[k]] + t[k + 1..];
    assert t == t[..k] + tail;
    assert tail[1..] == t[k + 1..];
    CountsAppend(t[..k], tail, v);
    CountsAppend(t[..k], t[k + 1..], v);
  }

  /** The counts depend only on the multiset of samples. */
  lemma {:induction false} CountsPermutation(s: seq<int>, t: seq<int>, v: int)
    requires multiset(s) == multiset(t)
    ensures CountBelow(s, v) == CountBelow(t, v)
    ensures CountAbove(s, v) == CountAbove(t, v)
  {
    if s == [] {
      assert |t| == |multiset(t)| == 0;
    } else {
      assert s[0] in multiset(t);
      var k :| 0 <= k < |t| && t[k] == s[0];
      var rest := t[..k] + t[k + 1..];
      PermutationRemove(s, t, k);
      CountsPermutation(s[1..], rest, v);
      CountsRemove(t, k, v);
    }
  }

  /** The median does not depend on the order in which the samples were gathered. */
  lemma MedianOrderIndependent(s: seq<int>, t: seq<int>, v: int)
    requires multiset(s) == multiset(t)
    ensures IsMedian(s, v) <==> IsMedian(t, v)
  {
    CountsPermutation(s, t, v);
    assert |s| == |multiset(s)| == |multiset(t)| == |t|;
  }

  /** Every sample is below, above or equal to `v`. */
  lemma {:induction false} CountsPartition(s: seq<int>, v: int)
    ensures CountBelow(s, v) + CountAbove(s, v) + multiset(s)[v] == |s|
  {
    if s != [] {
      assert s == [s[0]] + s[1..];
      CountsPartition(s[1..], v);
    }
  }

  /** If `v < w`, every sample is either below `w` or above `v`. */
  lemma {:induction false} CountsOverlap(s: seq<int>, v: int, w: int)
    requires v < w
    ensures CountBelow(s, w) + CountAbove(s, v) >= |s|
  {
    if s != [] {
      CountsOverlap(s[1..], v, w);
    }
  }

  /** No sample at or after position `lo` is below `v`. */
  lemma {:induction false} CountBelowPrefix(s: seq<int>, v: int, lo: nat)
    requires lo <= |s|
    requires forall q :: lo <= q < |s| ==> v <= s[q]
    ensures CountBelow(s, v) <= lo
  {
    if s != [] {
      CountBelowPrefix(s[1..], v, if lo == 0 then 0 else lo - 1);
    }
  }

  /** No sample before position `hi` is above `v`. */
  lemma {:induction false} CountAboveSuffix(s: seq<int>, v: int, hi: nat)
    requires hi <= |s|
    requires forall q :: 0 <= q < hi ==> s[q] <= v
    ensures CountAbove(s, v) <= |s| - hi
  {
    if s != [] && hi > 0 {
      CountAboveSuffix(s[1..], v, hi - 1);
    }
  }

  /** The middle element of a sorted sequence is a median of it. */
  lemma SortedMiddleIsMedian(s: seq<int>)
    requires Sorted(s) && |s| > 0
    ensures IsMedian(s, s[|s| / 2])
  {
    var m := |s| / 2;
    CountBelowPrefix(s, s[m], m);
    CountAboveSuffix(s, s[m], m + 1);
  }

  /** A median of an odd number of samples is one of the samples. */
  lemma MedianIsSample(s: seq<int>, v: int)
    requires |s| % 2 == 1 && IsMedian(s, v)
    ensures v in s
  {
    CountsPartition(s, v);
    assert v in multiset(s);
  }

  /** An odd number of samples has exactly one median. */
  lemma MedianUnique(s: seq<int>, v: int, w: int)
    requires |s| % 2 == 1 && IsMedian(s, v) && IsMedian(s, w)
    ensures v == w
  {
    if v < w {
      CountsOverlap(s, v, w);
    } else if w < v {
      CountsOverlap(s, w, v);
    }
  }

  /** For odd-length `s`, IsMedian(s, v) holds exactly for the middle of any sorted arrangement. */
  lemma MedianIsSortedMiddle(s: seq<int>, t: seq<int>, v: int)
    requires |s| % 2 == 1 && Sorted(t) && multiset(t) == multiset(s)
    ensures IsMedian(s, v) <==> v == t[|t| / 2]
  {
    assert |t| == |multiset(t)| == |multiset(s)| == |s|;
    SortedMiddleIsMedian(t);
    MedianOrderIndependent(t, s, t[|t| / 2]);
    if IsMedian(s, v) {
      MedianUnique(s, v, t[|t| / 2]);
    }
  }

  /** When every sample equals `c`, the median is `c` and nothing else. */
  lemma ConstantMedian(s: seq<int>, c: int, v: int)
    requires |s| % 2 == 1
    requires forall q :: 0 <= q < |s| ==> s[q] == c
    ensures IsMedian(s, v) <==> v == c
  {
    CountBelowPrefix(s, c, 0);
    CountAboveSuffix(s, c, |s|);
    assert IsMedian(s, c);
    if IsMedian(s, v) {
      MedianUnique(s, v, c);
    }
  }

  /** `x` placed into the ascending sequence `s` before the first element not below it. */
  function InsertSorted(x: int, s: seq<int>): (r: seq<int>)
    requires Sorted(s)
    ensures Sorted(r) && multiset(r) == multiset(s) + multiset{x}
    ensures |r| == |s| + 1 && (r[0] == x || (s != [] && r[0] == s[0]))
  {
    if s == [] || x <= s[0] then
      [x] + s
    else
      assert s == [s[0]] + s[1..];
      [s[0]] + InsertSorted(x, s[1..])
  }

  /** A sorted arrangement of `s`, built by repeated insertion. */
  function SortSeq(s: seq<int>): (t: seq<int>)
    ensures Sorted(t) && multiset(t) == multiset(s)
  {
    if s == [] then [] else
      assert s == [s[0]] + s[1..];
      InsertSorted(s[0], SortSeq(s[1..]))
  }

  /** Every odd-length sample has a median; with MedianUnique it has exactly one. */
  lemma MedianExists(s: seq<int>)
    requires |s| % 2 == 1
    ensures exists v :: IsMedian(s, v)
  {
    var t := SortSeq(s);
    assert |t| == |multiset(t)| == |multiset(s)| == |s|;
    SortedMiddleIsMedian(t);
    MedianOrderIndependent(t, s, t[|t| / 2]);
  }
}
