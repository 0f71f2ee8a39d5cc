/**
 * nd.py's `quick_sort`: a pure three-way quicksort that picks the middle
 * element as pivot, splits the list with three comprehensions and returns a
 * new list, leaving its argument alone (a `seq` is a value).
 */
module Nd {
  import opened Sorting
  import Merging

  /** The list comprehension `[x for x in s if keep(x)]`: each element that passes, as often as in `s`. */
  function Filter(s: seq<int>, keep: int -> bool): (r: seq<int>)
    ensures forall x :: multiset(r)[x] == if keep(x) then multiset(s)[x] else 0
  {
    if s == [] then []
    else
      assert s == [s[0]] + s[1..];
      (if keep(s[0]) then [s[0]] else []) + Filter(s[1..], keep)
  }

  /**
   * The three comprehensions around a pivot taken from the list split it
   * without loss, and the outer two are strictly shorter than the list.
   */
  lemma Partitioned(s: seq<int>, pivot: int, left: seq<int>, middle: seq<int>, right: seq<int>)
    requires pivot in s
    requires forall x :: multiset(left)[x] == if x < pivot then multiset(s)[x] else 0
    requires forall x :: multiset(middle)[x] == if x == pivot then multiset(s)[x] else 0
    requires forall x :: multiset(right)[x] == if x > pivot then multiset(s)[x] else 0
    ensures multiset(s) == multiset(left) + multiset(middle) + multiset(right)
    ensures |left| < |s| && |right| < |s|
    ensures forall x :: x in left ==> x < pivot
    ensures forall x :: x in middle ==> x == pivot
    ensures forall x :: x in right ==> x > pivot
  {
    forall x ensures multiset(s)[x] == (multiset(left) + multiset(middle) + multiset(right))[x] {
      if x < pivot {} else if x == pivot {} else {}
    }
    assert multiset(s) == multiset(left) + multiset(middle) + multiset(right);
    assert multiset(middle)[pivot] > 0;
    assert |multiset(s)| == |multiset(left)| + |multiset(middle)| + |multiset(right)|;
    forall x | x in left ensures x < pivot { assert multiset(left)[x] > 0; }
    forall x | x in middle ensures x == pivot { assert multiset(middle)[x] > 0; }
    forall x | x in right ensures x > pivot { assert multiset(right)[x] > 0; }
  }

  /** A list whose every element is `pivot` is in order. */
  lemma ConstantSorted(s: seq<int>, pivot: int)
    requires forall x :: x in s ==> x == pivot
    ensures Sorted(s)
  {
    forall i, j | 0 <= i < j < |s| ensures s[i] <= s[j] {
      assert s[i] in s && s[j] in s;
    }
  }

  /** Anything in `r` comes from `s`, when the two hold the same elements. */
  lemma SameElements(r: seq<int>, s: seq<int>)
    requires multiset(r) == multiset(s)
    ensures forall x :: x in r ==> x in s
  {
    forall x | x in r ensures x in s { assert x in multiset(r); }
  }

  /**
   * `quick_sort(left) + middle + quick_sort(right)` is sorted and keeps the
   * elements of `s`, given what the recursive calls promise.
   */
  lemma Recombined(s: seq<int>, pivot: int, left: seq<int>, middle: seq<int>, right: seq<int>,
                   sortedLeft: seq<int>, sortedRight: seq<int>)
    requires multiset(s) == multiset(left) + multiset(middle) + multiset(right)
    requires forall x :: x in left ==> x < pivot
    requires forall x :: x in middle ==> x == pivot
    requires forall x :: x in right ==> x > pivot
    requires Sorted(sortedLeft) && multiset(sortedLeft) == multiset(left)
    requires Sorted(sortedRight) && multiset(sortedRight) == multiset(right)
    ensures Sorted(sortedLeft + middle + sortedRight)
    ensures multiset(sortedLeft + middle + sortedRight) == multiset(s)
  {
    SameElements(sortedLeft, left);
    SameElements(sortedRight, right);
    ConstantSorted(middle, pivot);
    SortedConcat(sortedLeft, middle);
    forall x | x in sortedLeft + middle ensures x <= pivot { }
    SortedConcat(sortedLeft + middle, sortedRight);
  }

  /** `quick_sort(arr)`: a sorted list with exactly the elements of `arr`. */
  function QuickSort(s: seq<int>): (r: seq<int>)
    ensures |s| <= 1 ==> r == s
    ensures Sorted(r)
    ensures multiset(r) == multiset(s)
    decreases |s|
  {
    if |s| <= 1 then s
    else
      var pivot := s[|s| / 2];
      var left := Filter(s, x => x < pivot);
      var middle := Filter(s, x => x == pivot);
      var right := Filter(s, x => x > pivot);
      Partitioned(s, pivot, left, middle, right);
      Recombined(s, pivot, left, middle, right, QuickSort(left), QuickSort(right));
      QuickSort(left) + middle + QuickSort(right)
  }

  /** quick_sort and merge_sort give the same list for every input. */
  lemma QuickSortAgreesWithMergeSort(s: seq<int>)
    ensures QuickSort(s) == Merging.MergeSortOf(s)
  {
    SortedUnique(QuickSort(s), Merging.MergeSortOf(s));
  }
}
