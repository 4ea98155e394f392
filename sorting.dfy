/**
  The specification side of the quicksort model: what "sorted" means, a
  reference sort defined independently of quicksort (insertion sort on
  sequences), and the facts about it that the in-place algorithm relies on.
 */
module Sorting {

  /** `s` is in non-decreasing order. */
  predicate Sorted(s: seq<int>) {
    forall i, j :: 0 <= i < j < |s| ==> s[i] <= s[j]
  }

  /** Puts `x` before the first element of `s` that is not smaller than it. */
  function Insert(x: int, s: seq<int>): seq<int>
  {
    if s == [] || x <= s[0] then [x] + s else [s[0]] + Insert(x, s[1..])
  }

  /** An element no larger than the head of a sorted sequence can go in front of it. */
  lemma SortedCons(h: int, t: seq<int>)
    requires Sorted(t)
    requires t != [] ==> h <= t[0]
    ensures Sorted([h] + t)
  {
    var r := [h] + t;
    forall i, j | 0 <= i < j < |r| ensures r[i] <= r[j] {
      assert r[j] == t[j - 1];
      if 0 < i {
        assert r[i] == t[i - 1];
      }
    }
  }

  /** Inserting adds exactly `x` and nothing else. */
  lemma {:induction false} InsertPermutes(x: int, s: seq<int>)
    ensures multiset(Insert(x, s)) == multiset(s) + multiset{x}
    ensures |Insert(x, s)| == |s| + 1
  {
    if s != [] && s[0] < x {
      InsertPermutes(x, s[1..]);
      assert s == [s[0]] + s[1..];
    }
  }

  /** Inserting into a sorted sequence keeps it sorted. */
  lemma {:induction false} InsertSorted(x: int, s: seq<int>)
    requires Sorted(s)
    ensures Sorted(Insert(x, s))
  {
    if s == [] || x <= s[0] {
      SortedCons(x, s);
    } else {
      var t := Insert(x, s[1..]);
      InsertSorted(x, s[1..]);
      assert t[0] == x || t[0] == s[1];
      SortedCons(s[0], t);
    }
  }

  /**
    The reference sort, defined independently of quicksort. What it means is
    stated by InsertionSortCorrect and SortedUnique: it is the one sorted
    permutation of its input.
   */
  function InsertionSort(s: seq<int>): seq<int>
  {
    if s == [] then
      []
    else
      Insert(s[0], InsertionSort(s[1..]))
  }

  /** The reference sort returns a sorted permutation of its input. */
  lemma {:induction false} InsertionSortCorrect(s: seq<int>)
    ensures Sorted(InsertionSort(s))
    ensures multiset(InsertionSort(s)) == multiset(s)
    ensures |InsertionSort(s)| == |s|
  {
    if s != [] {
      InsertionSortCorrect(s[1..]);
      InsertPermutes(s[0], InsertionSort(s[1..]));
      InsertSorted(s[0], InsertionSort(s[1..]));
      assert s == [s[0]] + s[1..];
    }
  }

  /** Two sorted sequences with the same elements are the same sequence. */
  lemma {:induction false} SortedUnique(s: seq<int>, t: seq<int>)
    requires Sorted(s) && Sorted(t)
    requires multiset(s) == multiset(t)
    ensures s == t
  {
    assert |s| == |multiset(s)| == |multiset(t)| == |t|;
    if s != [] {
      assert s[0] in multiset(t);
      assert t[0] in multiset(s);
      assert s[0] == t[0];
      assert s == [s[0]] + s[1..];
      assert t == [t[0]] + t[1..];
      assert multiset(s[1..]) == multiset(s) - multiset{s[0]};
      assert multiset(t[1..]) == multiset(t) - multiset{t[0]};
      SortedUnique(s[1..], t[1..]);
    }
  }

  /**
    Any sorted permutation of `s` is the reference sort of `s`: which pivots
    quicksort draws cannot change its outcome.
   */
  lemma SortedPermutationIsSort(s: seq<int>, r: seq<int>)
    requires Sorted(r) && multiset(r) == multiset(s)
    ensures r == InsertionSort(s)
  {
    InsertionSortCorrect(s);
    SortedUnique(r, InsertionSort(s));
  }

  /** Sorting keeps every element on the same side of a pivot value. */
  lemma SortKeepsSide(s: seq<int>, pivot: int)
    ensures (forall k :: 0 <= k < |s| ==> s[k] < pivot) ==>
              forall k :: 0 <= k < |InsertionSort(s)| ==> InsertionSort(s)[k] < pivot
    ensures (forall k :: 0 <= k < |s| ==> pivot <= s[k]) ==>
              forall k :: 0 <= k < |InsertionSort(s)| ==> pivot <= InsertionSort(s)[k]
  {
    InsertionSortCorrect(s);
    var r := InsertionSort(s);
    forall k | 0 <= k < |r| ensures exists j :: 0 <= j < |s| && r[k] == s[j] {
      assert r[k] in multiset(s);
    }
  }

  /** Smaller sorted part, pivot, greater-or-equal sorted part: all in order. */
  lemma SortedJoin(left: seq<int>, pivot: int, right: seq<int>)
    requires Sorted(left) && Sorted(right)
    requires forall k :: 0 <= k < |left| ==> left[k] < pivot
    requires forall k :: 0 <= k < |right| ==> pivot <= right[k]
    ensures Sorted(left + [pivot] + right)
  {
  }

  /**
    A pivot that has every smaller element on its left and every
    greater-or-equal element on its right is already in its sorted place:
    sorting the whole is sorting the two sides on their own.
   */
  lemma SortAroundPivot(left: seq<int>, pivot: int, right: seq<int>)
    requires forall k :: 0 <= k < |left| ==> left[k] < pivot
    requires forall k :: 0 <= k < |right| ==> pivot <= right[k]
    ensures InsertionSort(left + [pivot] + right)
         == InsertionSort(left) + [pivot] + InsertionSort(right)
  {
    var whole := left + [pivot] + right;
    var sl, sr := InsertionSort(left), InsertionSort(right);
    InsertionSortCorrect(left);
    InsertionSortCorrect(right);
    InsertionSortCorrect(whole);
    SortKeepsSide(left, pivot);
    SortKeepsSide(right, pivot);
    SortedJoin(sl, pivot, sr);
    assert multiset(whole) == multiset(sl + [pivot] + sr);
    SortedUnique(InsertionSort(whole), sl + [pivot] + sr);
  }

  /** The elements of `s` are those before `lo`, those in `[lo, hi)` and those from `hi` on. */
  lemma MultisetPieces(s: seq<int>, lo: int, hi: int)
    requires 0 <= lo <= hi <= |s|
    ensures multiset(s) == multiset(s[..lo]) + multiset(s[lo..hi]) + multiset(s[hi..])
  {
    assert s == s[..lo] + s[lo..hi] + s[hi..];
  }

  /**
    When two sequences agree outside `[lo, hi)`, they have the same elements
    exactly when their `[lo, hi)` slices do.
   */
  lemma SameOutsideRange(s: seq<int>, t: seq<int>, lo: int, hi: int)
    requires 0 <= lo <= hi <= |s| == |t|
    requires s[..lo] == t[..lo] && s[hi..] == t[hi..]
    ensures multiset(s) == multiset(t) <==> multiset(s[lo..hi]) == multiset(t[lo..hi])
  {
    MultisetPieces(s, lo, hi);
    MultisetPieces(t, lo, hi);
    var outside := multiset(s[..lo]) + multiset(s[hi..]);
    assert multiset(s) - outside == multiset(s[lo..hi]);
    assert multiset(t) - outside == multiset(t[lo..hi]);
  }

  /** `s[lo..hi]` split around the element at `k`. */
  lemma Around(s: seq<int>, lo: int, k: int, hi: int)
    requires 0 <= lo <= k < hi <= |s|
    ensures s[lo..hi] == s[lo..k] + [s[k]] + s[k + 1..hi]
  {
  }

  /** Sequences that agree up to `j` agree on every slice that ends there or earlier. */
  lemma SliceOfSamePrefix(s: seq<int>, t: seq<int>, j: int, lo: int, hi: int)
    requires 0 <= lo <= hi <= j <= |s| && j <= |t|
    requires s[..j] == t[..j]
    ensures s[lo..hi] == t[lo..hi]
  {
    forall k | lo <= k < hi ensures s[k] == t[k] {
      assert s[k] == s[..j][k] && t[k] == t[..j][k];
    }
  }

  /** Sequences that agree from `j` on agree on every slice that starts there or later. */
  lemma SliceOfSameSuffix(s: seq<int>, t: seq<int>, j: int, lo: int, hi: int)
    requires 0 <= j <= lo <= hi <= |s| == |t|
    requires s[j..] == t[j..]
    ensures s[lo..hi] == t[lo..hi]
  {
    forall k | lo <= k < hi ensures s[k] == t[k] {
      assert s[k] == s[j..][k - j] && t[k] == t[j..][k - j];
    }
  }
}
