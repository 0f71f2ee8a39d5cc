/**
 * night.py's "Bubble vs Merge" choice of `run_analysis`: the same random list
 * is copied twice and each copy goes through one of the two sorts, so the
 * list itself is never touched and the two results can be compared.
 */
module Night {
  import opened Sorting
  import Bubble
  import Merging
  import Lists

  /**
   * `bubble_sort(arr.copy())` and `merge_sort(arr.copy())`: both copies end
   * up as the same sorted rearrangement of `arr`, and `arr` itself, which the
   * method may not modify, keeps its contents.
   */
  method BubbleVsMerge(arr: array<int>) returns (bubbled: seq<int>, merged: seq<int>)
    ensures arr[..] == old(arr[..])
    ensures bubbled == merged
    ensures Sorted(bubbled) && multiset(bubbled) == multiset(arr[..])
  {
    var bubbleCopy := Lists.CopyOf(arr[..]);
    Bubble.BubbleSort(bubbleCopy);
    bubbled := bubbleCopy[..];
    var mergeCopy := Lists.CopyOf(arr[..]);
    Merging.MergeSort(mergeCopy);
    merged := mergeCopy[..];
    SortedUnique(bubbled, merged);
  }
}
