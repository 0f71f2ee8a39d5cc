/**
 * eye.py's `run_sorting_analysis`: for each dataset column, in order, the
 * data is copied twice and sorted once by each sort. The script prints the
 * sorted copies; here they are returned, one entry per dataset.
 */
module Eye {
  import opened Sorting
  import Night

  /**
   * Entry `k` of both results is dataset `k` sorted, by bubble sort and by
   * merge sort respectively; the two always agree, and no dataset is changed.
   */
  method RunSortingAnalysis(datasets: seq<array<int>>) returns (bubbledAll: seq<seq<int>>, mergedAll: seq<seq<int>>)
    ensures forall k :: 0 <= k < |datasets| ==> datasets[k][..] == old(datasets[k][..])
    ensures |bubbledAll| == |datasets| && |mergedAll| == |datasets|
    ensures forall k :: 0 <= k < |datasets| ==> bubbledAll[k] == mergedAll[k]
    ensures forall k :: 0 <= k < |datasets| ==>
      Sorted(mergedAll[k]) && multiset(mergedAll[k]) == multiset(datasets[k][..])
  {
    bubbledAll, mergedAll := [], [];
    for i := 0 to |datasets|
      invariant |bubbledAll| == i && |mergedAll| == i
      invariant forall k :: 0 <= k < i ==> bubbledAll[k] == mergedAll[k]
      invariant forall k :: 0 <= k < i ==>
        Sorted(mergedAll[k]) && multiset(mergedAll[k]) == multiset(datasets[k][..])
    {
      var bubbled, merged := Night.BubbleVsMerge(datasets[i]);
      bubbledAll, mergedAll := bubbledAll + [bubbled], mergedAll + [merged];
    }
  }
}
