/**
 * shree.py: its `bubble_sort` assigns `arr[j], arr[j + 1] = arr[j], arr[j]`
 * where the other scripts swap, so an out-of-order pair copies the larger
 * value forward instead of exchanging the two. One pass then leaves every cell
 * holding the largest value seen so far (`PrefixMax`); the result is sorted,
 * but it is a rearrangement of the input only when the input was sorted
 * already. The script's merge sort is the shared `Merging.MergeSort`.
 */
module Shree {
  import opened Sorting
  import Merging
  import Lists

  /** The larger of two values. */
  function Max(x: int, y: int): (r: int)
    ensures x <= r && y <= r && (r == x || r == y)
  {
    if x < y then y else x
  }

  /** The largest of `s[0..k]`, both ends included. */
  function MaxUpTo(s: seq<int>, k: nat): (m: int)
    requires k < |s|
  {
    if k == 0 then s[0] else Max(MaxUpTo(s, k - 1), s[k])
  }

  /** `MaxUpTo(s, k)` is no smaller than any of `s[0..k]` and is one of them. */
  lemma {:induction false} MaxUpToIsMax(s: seq<int>, k: nat)
    requires k < |s|
    ensures forall p :: 0 <= p <= k ==> s[p] <= MaxUpTo(s, k)
    ensures exists p :: 0 <= p <= k && s[p] == MaxUpTo(s, k)
  {
    if k == 0 {
      assert s[0] == MaxUpTo(s, 0);
    } else {
      MaxUpToIsMax(s, k - 1);
      if MaxUpTo(s, k - 1) <= s[k] {
        assert s[k] == MaxUpTo(s, k);
      } else {
        var p :| 0 <= p <= k - 1 && s[p] == MaxUpTo(s, k - 1);
        assert s[p] == MaxUpTo(s, k);
      }
    }
  }

  /** The first `n` cells of the running maximum of `s`. */
  function RunningMax(s: seq<int>, n: nat): (r: seq<int>)
    requires n <= |s|
    ensures |r| == n
    ensures forall k :: 0 <= k < n ==> r[k] == MaxUpTo(s, k)
  {
    if n == 0 then [] else RunningMax(s, n - 1) + [MaxUpTo(s, n - 1)]
  }

  /** The running maximum: cell `k` holds the largest of `s[0..k]`. */
  function PrefixMax(s: seq<int>): (r: seq<int>)
    ensures |r| == |s|
    ensures forall k :: 0 <= k < |s| ==> r[k] == MaxUpTo(s, k)
  {
    RunningMax(s, |s|)
  }

  /**
   * Pass state after step `j - 1` of a pass over `s[0..m)`: cells `0..j` hold
   * the running maximum, every later cell still holds its input.
   */
  predicate PassAt(t: seq<int>, s: seq<int>, m: nat, j: nat) {
    |t| == |s| && j < m <= |s| &&
    (forall k :: 0 <= k <= j ==> t[k] == MaxUpTo(s, k)) &&
    (forall k :: j < k < |s| ==> t[k] == s[k])
  }

  /** One step `j`: copying `t[j]` forward when it is larger extends the running maximum by a cell. */
  lemma PassStep(t: seq<int>, s: seq<int>, m: nat, j: nat)
    requires PassAt(t, s, m, j) && j + 1 < m
    ensures PassAt(if t[j] > t[j + 1] then t[j + 1 := t[j]] else t, s, m, j + 1)
  {
  }

  /** The assignment `arr[j], arr[j + 1] = arr[j], arr[j]` of shree.py line 13. */
  method CopyForward(a: array<int>, j: nat)
    requires j + 1 < a.Length
    modifies a
    ensures a[..] == old(a[..])[j + 1 := old(a[j])]
  {
    a[j], a[j + 1] := a[j], a[j];
  }

  /** One outer pass, the inner loop `for j in range(0, m - 1)`: `a[0..m)` becomes its running maximum. */
  method Pass(a: array<int>, m: nat)
    requires 0 < m <= a.Length
    modifies a
    ensures forall k :: 0 <= k < m ==> a[k] == MaxUpTo(old(a[..]), k)
    ensures forall k :: m <= k < a.Length ==> a[k] == old(a[k])
  {
    ghost var s := a[..];
    for j := 0 to m - 1
      invariant PassAt(a[..], s, m, j)
    {
      PassStep(a[..], s, m, j);
      if a[j] > a[j + 1] {
        CopyForward(a, j);
      }
    }
  }

  /** On a sorted list the running maximum of each cell is the cell itself. */
  lemma MaxUpToOfSorted(s: seq<int>, k: nat)
    requires Sorted(s) && k < |s|
    ensures MaxUpTo(s, k) == s[k]
  {
    MaxUpToIsMax(s, k);
    var p :| 0 <= p <= k && s[p] == MaxUpTo(s, k);
  }

  /**
   * `bubble_sort(arr)` as written. Pass 0 turns the list into its running
   * maximum; that is sorted, so no later pass changes a cell.
   */
  method BubbleSortAsWritten(a: array<int>)
    modifies a
    ensures a[..] == PrefixMax(old(a[..]))
  {
    var n := a.Length;
    ghost var s := a[..];
    ghost var running := PrefixMax(s);
    PrefixMaxSorted(s);
    for i := 0 to n
      invariant a[..] == if i == 0 then s else running
    {
      ghost var before := a[..];
      Pass(a, n - i);
      forall k | 0 <= k < n ensures a[k] == running[k] {
        if i > 0 && k < n - i {
          MaxUpToOfSorted(before, k);
        }
      }
      assert a[..] == running;
    }
  }

  /** The running maximum never decreases. */
  lemma PrefixMaxSorted(s: seq<int>)
    ensures Sorted(PrefixMax(s))
  {
    var r := PrefixMax(s);
    forall i, j | 0 <= i < j < |s| ensures r[i] <= r[j] {
      MaxUpToIsMax(s, i);
      MaxUpToIsMax(s, j);
      var p :| 0 <= p <= i && s[p] == MaxUpTo(s, i);
    }
  }

  /** Every value of the result occurs in the input, and each cell is at least its input. */
  lemma PrefixMaxFromInput(s: seq<int>)
    ensures forall k :: 0 <= k < |s| ==> PrefixMax(s)[k] in s && s[k] <= PrefixMax(s)[k]
  {
    forall k | 0 <= k < |s| ensures PrefixMax(s)[k] in s && s[k] <= PrefixMax(s)[k] {
      MaxUpToIsMax(s, k);
      var p :| 0 <= p <= k && s[p] == MaxUpTo(s, k);
    }
  }

  /** The first cell is never changed. */
  lemma PrefixMaxKeepsHead(s: seq<int>)
    requires |s| > 0
    ensures PrefixMax(s)[0] == s[0]
  {
  }

  /** On sorted input the running maximum is the input itself. */
  lemma PrefixMaxOfSorted(s: seq<int>)
    requires Sorted(s)
    ensures PrefixMax(s) == s
  {
    forall k | 0 <= k < |s| ensures PrefixMax(s)[k] == s[k] {
      MaxUpToOfSorted(s, k);
    }
  }

  /** A second pass changes nothing: the defective sort is idempotent. */
  lemma PrefixMaxIdempotent(s: seq<int>)
    ensures PrefixMax(PrefixMax(s)) == PrefixMax(s)
  {
    PrefixMaxSorted(s);
    PrefixMaxOfSorted(PrefixMax(s));
  }

  /** The running maximum of a prefix is the prefix of the running maximum. */
  lemma {:induction false} MaxUpToOfPrefix(s: seq<int>, n: nat, k: nat)
    requires k < n <= |s|
    ensures MaxUpTo(s[..n], k) == MaxUpTo(s, k)
  {
    if k > 0 {
      MaxUpToOfPrefix(s, n, k - 1);
    }
  }

  /** Where `a` holds `m`, `b` holds `m` too: then `b` has at least as many `m`s. */
  lemma {:induction false} CountDominated(a: seq<int>, b: seq<int>, m: int)
    requires |a| == |b|
    requires forall k :: 0 <= k < |a| && a[k] == m ==> b[k] == m
    ensures multiset(a)[m] <= multiset(b)[m]
  {
    if |a| > 0 {
      var n := |a| - 1;
      CountDominated(a[..n], b[..n], m);
      assert multiset(a)[m] == multiset(a[..n])[m] + if a[n] == m then 1 else 0 by {
        assert a == a[..n] + [a[n]];
        CountSnoc(a[..n], a[n], m);
      }
      assert multiset(b)[m] == multiset(b[..n])[m] + if b[n] == m then 1 else 0 by {
        assert b == b[..n] + [b[n]];
        CountSnoc(b[..n], b[n], m);
      }
    }
  }

  /** The running maximum of `init + [x]` is that of `init` followed by the overall maximum. */
  lemma PrefixMaxSnoc(s: seq<int>)
    requires |s| > 0
    ensures PrefixMax(s) == PrefixMax(s[..|s| - 1]) + [MaxUpTo(s, |s| - 1)]
  {
    var n := |s| - 1;
    forall k | 0 <= k < n ensures PrefixMax(s[..n])[k] == PrefixMax(s)[k] {
      MaxUpToOfPrefix(s, n, k);
    }
  }

  /** Where the list holds its maximum `m`, so does its running maximum. */
  lemma MaxStays(s: seq<int>, m: int)
    requires forall q :: 0 <= q < |s| ==> s[q] <= m
    ensures forall k :: 0 <= k < |s| && s[k] == m ==> PrefixMax(s)[k] == m
  {
    forall k | 0 <= k < |s| && s[k] == m ensures MaxUpTo(s, k) <= m {
      MaxUpToIsMax(s, k);
      var p :| 0 <= p <= k && s[p] == MaxUpTo(s, k);
    }
  }

  /** Appending `y` adds one `m` exactly when `y` is `m`. */
  lemma CountSnoc(a: seq<int>, y: int, m: int)
    ensures multiset(a + [y])[m] == multiset(a)[m] + if y == m then 1 else 0
  {
    assert multiset(a + [y]) == multiset(a) + multiset{y};
  }

  /**
   * When the last cell does not hold the maximum `m`, the result has more
   * `m`s than the input: the running maximum keeps every earlier `m` and adds
   * one more in the last cell.
   */
  lemma ExtraMax(s: seq<int>)
    requires |s| > 0 && s[|s| - 1] != MaxUpTo(s, |s| - 1)
    ensures multiset(PrefixMax(s))[MaxUpTo(s, |s| - 1)] > multiset(s)[MaxUpTo(s, |s| - 1)]
  {
    var n := |s| - 1;
    var init, x, m := s[..n], s[n], MaxUpTo(s, n);
    assert s == init + [x];
    CountSnoc(init, x, m);
    PrefixMaxSnoc(s);
    CountSnoc(PrefixMax(init), m, m);
    MaxUpToIsMax(s, n);
    assert forall q :: 0 <= q < n ==> init[q] <= m;
    MaxStays(init, m);
    CountDominated(init, PrefixMax(init), m);
  }

  /** If the result has the input's elements, the last cell already held the maximum. */
  lemma LastIsMax(s: seq<int>)
    requires |s| > 0 && multiset(PrefixMax(s)) == multiset(s)
    ensures s[|s| - 1] == MaxUpTo(s, |s| - 1)
  {
    if s[|s| - 1] != MaxUpTo(s, |s| - 1) {
      ExtraMax(s);
      assert false;
    }
  }

  /** The result has the input's elements only when it equals the input. */
  lemma {:induction false} SameElementsOnlyIfUnchanged(s: seq<int>)
    requires multiset(PrefixMax(s)) == multiset(s)
    ensures PrefixMax(s) == s
    decreases |s|
  {
    if |s| > 0 {
      var n := |s| - 1;
      var init, x := s[..n], s[n];
      LastIsMax(s);
      assert s == init + [x];
      PrefixMaxSnoc(s);
      forall y ensures multiset(PrefixMax(init))[y] == multiset(init)[y] {
        CountSnoc(PrefixMax(init), x, y);
        CountSnoc(init, x, y);
      }
      assert multiset(PrefixMax(init)) == multiset(init);
      SameElementsOnlyIfUnchanged(init);
    }
  }

  /** The defective sort is a permutation of its input exactly when the input is sorted. */
  lemma PermutationIffSorted(s: seq<int>)
    ensures multiset(PrefixMax(s)) == multiset(s) <==> Sorted(s)
  {
    if multiset(PrefixMax(s)) == multiset(s) {
      SameElementsOnlyIfUnchanged(s);
      PrefixMaxSorted(s);
    }
    if Sorted(s) {
      PrefixMaxOfSorted(s);
    }
  }

  /** The smallest input that shows the defect: `[2, 1]` comes back as `[2, 2]`. */
  lemma TwoOneBecomesTwoTwo()
    ensures PrefixMax([2, 1]) == [2, 2]
    ensures multiset(PrefixMax([2, 1])) != multiset([2, 1])
  {
    assert MaxUpTo([2, 1], 1) == 2;
    assert multiset([2, 2])[1] == 0;
  }

  /** The "sorted" input of size n: `list(range(n))`. */
  function Ascending(n: nat): (r: seq<int>)
    ensures |r| == n
    ensures forall k :: 0 <= k < n ==> r[k] == k
  {
    if n == 0 then [] else Ascending(n - 1) + [n - 1]
  }

  /** The "reverse_sorted" input of size n: `list(range(n, 0, -1))`. */
  function Descending(n: nat): (r: seq<int>)
    ensures |r| == n
    ensures forall k :: 0 <= k < n ==> r[k] == n - k
  {
    if n == 0 then [] else [n] + Descending(n - 1)
  }

  /** The "sorted" input is sorted, so both sorts leave it as it is. */
  lemma AscendingUntouched(n: nat)
    ensures Sorted(Ascending(n))
    ensures PrefixMax(Ascending(n)) == Ascending(n)
    ensures Merging.MergeSortOf(Ascending(n)) == Ascending(n)
  {
    PrefixMaxOfSorted(Ascending(n));
    SortedUnique(Merging.MergeSortOf(Ascending(n)), Ascending(n));
  }

  /** On the "reverse_sorted" input the defective sort fills every cell with n. */
  lemma DescendingFlattened(n: nat)
    ensures forall k :: 0 <= k < n ==> PrefixMax(Descending(n))[k] == n
  {
    var s := Descending(n);
    forall k | 0 <= k < n ensures PrefixMax(s)[k] == n {
      MaxUpToIsMax(s, k);
      var p :| 0 <= p <= k && s[p] == MaxUpTo(s, k);
      assert s[0] <= MaxUpTo(s, k);
    }
  }

  /** The two sorts of shree.py agree on a list exactly when it is sorted already. */
  lemma AgreeIffSorted(s: seq<int>)
    ensures PrefixMax(s) == Merging.MergeSortOf(s) <==> Sorted(s)
  {
    if PrefixMax(s) == Merging.MergeSortOf(s) {
      PermutationIffSorted(s);
    }
    if Sorted(s) {
      PrefixMaxOfSorted(s);
      SortedUnique(Merging.MergeSortOf(s), s);
    }
  }

  /**
   * One row of `run_analysis`: both sorts run on their own copy of `arr`.
   * The two outputs agree exactly when `arr` was sorted to begin with.
   */
  method AnalyseInput(arr: array<int>) returns (bubbled: seq<int>, merged: seq<int>)
    ensures arr[..] == old(arr[..])
    ensures bubbled == PrefixMax(arr[..])
    ensures merged == Merging.MergeSortOf(arr[..])
    ensures bubbled == merged <==> Sorted(arr[..])
  {
    var bubbleCopy := Lists.CopyOf(arr[..]);
    BubbleSortAsWritten(bubbleCopy);
    bubbled := bubbleCopy[..];
    var mergeCopy := Lists.CopyOf(arr[..]);
    Merging.MergeSort(mergeCopy);
    merged := mergeCopy[..];
    AgreeIffSorted(arr[..]);
  }
}
