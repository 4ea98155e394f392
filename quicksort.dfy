/**
  In-place randomized quicksort with a Lomuto-style partition, sorting the
  half-open range `[low, high)` of an integer array. The random pivot draw
  is an arbitrary index of the range, so every contract below holds for
  every pivot the draw could produce.
 */
module Quicksort {
  import opened Sorting

  /** Exchanges `a[i]` and `a[j]`, the tuple swap the partition is built from. */
  method Swap(a: array<int>, i: int, j: int)
    requires 0 <= i < a.Length && 0 <= j < a.Length
    modifies a
    ensures a[i] == old(a[j]) && a[j] == old(a[i])
    ensures forall k :: 0 <= k < a.Length && k != i && k != j ==> a[k] == old(a[k])
    ensures multiset(a[..]) == multiset(old(a[..]))
  {
    a[i], a[j] := a[j], a[i];
  }

  /**
    Moves the element at `pivotIndex` to the front of `[low, high)`, scans
    the rest of the range moving every element smaller than the pivot to
    the left, and puts the pivot into the slot just after the smaller ones.
    Returns the pivot's final index.
   */
  method Partition(a: array<int>, low: int, high: int, pivotIndex: int) returns (p: int)
    requires 0 <= low <= pivotIndex < high <= a.Length
    modifies a
    ensures low <= p < high
    ensures a[p] == old(a[pivotIndex])
    ensures forall k :: low <= k < p ==> a[k] < a[p]
    ensures forall k :: p < k < high ==> a[p] <= a[k]
    ensures a[..low] == old(a[..low]) && a[high..] == old(a[high..])
    ensures multiset(a[..]) == multiset(old(a[..]))
  {
    var pivot := a[pivotIndex];
    Swap(a, low, pivotIndex);
    var remembered := low + 1;
    for index := low + 1 to high
      invariant a[low] == pivot
      invariant low + 1 <= remembered <= index
      invariant forall k :: low + 1 <= k < remembered ==> a[k] < pivot
      invariant forall k :: remembered <= k < index ==> pivot <= a[k]
      invariant a[..low] == old(a[..low]) && a[high..] == old(a[high..])
      invariant multiset(a[..]) == multiset(old(a[..]))
    {
      if a[index] < pivot {
        Swap(a, remembered, index);
        remembered := remembered + 1;
      }
    }
    p := remembered - 1;
    Swap(a, low, p);
  }

  /**
    The recursion step on values. `split` is `s` partitioned around the pivot
    at `p`; `mid` is `split` with `[low, p)` sorted in place, and `done` is
    `mid` with `[p + 1, high)` sorted in place. Then `done` is `s` with all of
    `[low, high)` sorted in place: the pivot already sat in its final slot.
   */
  lemma {:induction false} SortBothSides(s: seq<int>, split: seq<int>, mid: seq<int>, done: seq<int>,
                                         low: int, p: int, high: int)
    requires 0 <= low <= p < high <= |s| == |split| == |mid| == |done|
    requires split[..low] == s[..low] && split[high..] == s[high..]
    requires multiset(split[low..high]) == multiset(s[low..high])
    requires forall k :: low <= k < p ==> split[k] < split[p]
    requires forall k :: p < k < high ==> split[p] <= split[k]
    requires mid[..low] == split[..low] && mid[p..] == split[p..]
    requires Sorted(mid[low..p]) && multiset(mid[low..p]) == multiset(split[low..p])
    requires done[..p + 1] == mid[..p + 1] && done[high..] == mid[high..]
    requires Sorted(done[p + 1..high]) && multiset(done[p + 1..high]) == multiset(mid[p + 1..high])
    ensures done[..low] == s[..low] && done[high..] == s[high..]
    ensures Sorted(done[low..high])
    ensures multiset(done[low..high]) == multiset(s[low..high])
  {
    var pivot := split[p];
    var left, right := done[low..p], done[p + 1..high];
    SliceOfSameSuffix(mid, split, p, p + 1, high);
    SliceOfSameSuffix(mid, split, p, high, |s|);
    SliceOfSameSuffix(mid, split, p, p, p + 1);
    SliceOfSamePrefix(done, mid, p + 1, 0, low);
    SliceOfSamePrefix(done, mid, p + 1, low, p);
    SliceOfSamePrefix(done, mid, p + 1, p, p + 1);
    assert done[p] == done[p..p + 1][0] == split[p..p + 1][0] == pivot;
    Around(done, low, p, high);
    Around(split, low, p, high);
    forall k | 0 <= k < |left| ensures left[k] < pivot {
      assert left[k] in multiset(split[low..p]);
    }
    forall k | 0 <= k < |right| ensures pivot <= right[k] {
      assert right[k] in multiset(split[p + 1..high]);
    }
    SortedJoin(left, pivot, right);
  }

  /**
    Whatever pivots are drawn, an array that meets Quicksort's postcondition
    is one and the same: the input with `[low, high)` replaced by the
    reference sort of that range.
   */
  lemma OutcomeIndependentOfPivots(s: seq<int>, r: seq<int>, low: int, high: int)
    requires 0 <= low <= high <= |s| == |r|
    requires Sorted(r[low..high])
    requires multiset(r) == multiset(s)
    requires r[..low] == s[..low] && r[high..] == s[high..]
    ensures r == s[..low] + InsertionSort(s[low..high]) + s[high..]
  {
    SameOutsideRange(r, s, low, high);
    SortedPermutationIsSort(s[low..high], r[low..high]);
    assert r == r[..low] + r[low..high] + r[high..];
  }

  /**
    Sorting a range that is already sorted changes nothing: an array that
    meets Quicksort's postcondition for such an input is the input itself.
   */
  lemma SortingSortedIsIdentity(s: seq<int>, r: seq<int>, low: int, high: int)
    requires 0 <= low <= high <= |s| == |r|
    requires Sorted(s[low..high])
    requires Sorted(r[low..high])
    requires multiset(r) == multiset(s)
    requires r[..low] == s[..low] && r[high..] == s[high..]
    ensures r == s
  {
    SameOutsideRange(r, s, low, high);
    SortedUnique(r[low..high], s[low..high]);
    assert r == r[..low] + r[low..high] + r[high..];
    assert s == s[..low] + s[low..high] + s[high..];
  }

  /**
    Sorts `a[low..high]` in place, whatever pivots are drawn: the range ends
    up in non-decreasing order and holds the same elements as before, the
    rest of the array is left alone, and a range of at most one element is
    not touched at all.
   */
  method Quicksort(a: array<int>, low: int, high: int)
    requires 0 <= low <= high <= a.Length
    modifies a
    ensures Sorted(a[low..high])
    ensures multiset(a[..]) == multiset(old(a[..]))
    ensures a[..low] == old(a[..low]) && a[high..] == old(a[high..])
    ensures high - low <= 1 ==> a[..] == old(a[..])
    decreases high - low
  {
    if high - low <= 1 {
      return;
    }
    ghost var input := a[..];
    var pivotIndex :| low <= pivotIndex < high;
    var p := Partition(a, low, high, pivotIndex);
    ghost var split := a[..];
    SameOutsideRange(split, input, low, high);
    Quicksort(a, low, p);
    ghost var mid := a[..];
    SameOutsideRange(mid, split, low, p);
    Quicksort(a, p + 1, high);
    ghost var done := a[..];
    SameOutsideRange(done, mid, p + 1, high);
    SortBothSides(input, split, mid, done, low, p, high);
    SameOutsideRange(done, input, low, high);
  }
}
