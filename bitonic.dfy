/**
 The range sort the filter applies to its neighbourhood buffer. On the
 accelerator it is a bitonic sorting network; on the host it is the
 library's range sort. Both promise the same thing, which is all the filter
 relies on: the range `data[from..to)` ends up in ascending order, holds the
 same samples as before, and nothing outside the range moves. The body below
 is an insertion sort proved against that contract.
 */
module Bitonic {
  import opened OrderStatistic

  /** A 16-bit unsigned sample (C# `ushort`). */
  type UShort = x: int | 0 <= x < 0x1_0000

  method Sort(data: array<UShort>, from: int, to: int)
    requires 0 <= from <= to <= data.Length
    modifies data
    ensures Sorted(data[from..to])
    ensures multiset(data[from..to]) == multiset(old(data[from..to]))
    ensures data[..from] == old(data[..from]) && data[to..] == old(data[to..])
  {
    var i := from;
    while i < to
      invariant from <= i <= to
      invariant Sorted(data[from..i])
      invariant multiset(data[..]) == multiset(old(data[..]))
      invariant forall q :: 0 <= q < from || to <= q < data.Length ==> data[q] == old(data[q])
    {
      Insert(data, from, i);
      i := i + 1;
    }
    assert data[..from] == old(data[..from]);
    assert data[to..] == old(data[to..]);
    RangePermutation(old(data[..]), data[..], from, to);
  }

  /** A permutation of a whole sequence that fixes everything outside `[from, to)` permutes that range. */
  lemma RangePermutation(before: seq<int>, after: seq<int>, from: int, to: int)
    requires 0 <= from <= to <= |before| == |after|
    requires multiset(before) == multiset(after)
    requires before[..from] == after[..from] && before[to..] == after[to..]
    ensures multiset(before[from..to]) == multiset(after[from..to])
  {
    assert before == before[..from] + before[from..to] + before[to..];
    assert after == after[..from] + after[from..to] + after[to..];
    calc {
      multiset(before[from..to]);
      multiset(before) - multiset(before[..from]) - multiset(before[to..]);
      multiset(after) - multiset(after[..from]) - multiset(after[to..]);
      multiset(after[from..to]);
    }
  }

  /** Sinks `data[i]` into the ascending run `data[from..i)`, extending it by one. */
  method Insert(data: array<UShort>, from: int, i: int)
    requires 0 <= from <= i < data.Length
    requires Sorted(data[from..i])
    modifies data
    ensures Sorted(data[from..i + 1])
    ensures multiset(data[..]) == multiset(old(data[..]))
    ensures forall q :: 0 <= q < from || i < q < data.Length ==> data[q] == old(data[q])
  {
    assert forall a, b :: from <= a < b < i ==> data[a] <= data[b] by {
      forall a, b | from <= a < b < i
        ensures data[a] <= data[b]
      {
        assert data[a] == data[from..i][a - from] && data[b] == data[from..i][b - from];
      }
    }
    var j := i;
    while from < j && data[j] < data[j - 1]
      invariant from <= j <= i
      invariant forall a, b :: from <= a < b <= i && a != j && b != j ==> data[a] <= data[b]
      invariant forall b :: j < b <= i ==> data[j] <= data[b]
      invariant multiset(data[..]) == multiset(old(data[..]))
      invariant forall q :: 0 <= q < from || i < q < data.Length ==> data[q] == old(data[q])
    {
      Swap(data, j - 1, j);
      j := j - 1;
    }
  }

  method Swap(data: array<UShort>, x: int, y: int)
    requires 0 <= x < y < data.Length
    modifies data
    ensures data[x] == old(data[y]) && data[y] == old(data[x])
    ensures forall q :: 0 <= q < data.Length && q != x && q != y ==> data[q] == old(data[q])
    ensures multiset(data[..]) == multiset(old(data[..]))
  {
    data[x], data[y] := data[y], data[x];
  }
}
