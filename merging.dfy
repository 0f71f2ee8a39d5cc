/**
 * The top-down merge sort shared by nd.py, night.py, shree.py and eye.py.
 * `MergeSortOf` is the value the list ends up holding: it splits at
 * `len // 2`, sorts both halves and merges them taking the left head only
 * when it is strictly smaller, exactly as the in-place `MergeSort` does.
 */
module Merging {
  import opened Sorting

  /** The three merge loops as a function: heads compared with strict `<`, then the rest. */
  function Merge(l: seq<int>, r: seq<int>): (m: seq<int>)
    ensures |m| == |l| + |r|
    decreases |l| + |r|
  {
    if |l| == 0 then r
    else if |r| == 0 then l
    else if l[0] < r[0] then [l[0]] + Merge(l[1..], r)
    else [r[0]] + Merge(l, r[1..])
  }

  /** The merge keeps every element of both halves, and nothing else. */
  lemma {:induction false} MergePermutation(l: seq<int>, r: seq<int>)
    ensures |Merge(l, r)| == |l| + |r|
    ensures multiset(Merge(l, r)) == multiset(l) + multiset(r)
    decreases |l| + |r|
  {
    if |l| == 0 || |r| == 0 {
    } else if l[0] < r[0] {
      var rest := Merge(l[1..], r);
      assert |rest| == |l| - 1 + |r| && multiset(rest) == multiset(l[1..]) + multiset(r) by {
        MergePermutation(l[1..], r);
      }
      assert multiset(l) == multiset{l[0]} + multiset(l[1..]) by {
        assert l == [l[0]] + l[1..];
      }
      assert Merge(l, r) == [l[0]] + rest;
    } else {
      var rest := Merge(l, r[1..]);
      assert |rest| == |l| + |r| - 1 && multiset(rest) == multiset(l) + multiset(r[1..]) by {
        MergePermutation(l, r[1..]);
      }
      assert multiset(r) == multiset{r[0]} + multiset(r[1..]) by {
        assert r == [r[0]] + r[1..];
      }
      assert Merge(l, r) == [r[0]] + rest;
    }
  }

  /** Merging two sorted lists gives a sorted list. */
  lemma {:induction false} MergeSorted(l: seq<int>, r: seq<int>)
    requires Sorted(l) && Sorted(r)
    ensures Sorted(Merge(l, r))
    decreases |l| + |r|
  {
    if |l| == 0 || |r| == 0 {
    } else if l[0] < r[0] {
      TailSorted(l);
      MergeSorted(l[1..], r);
      MergePermutation(l[1..], r);
      forall y | y in l[1..] ensures l[0] <= y { HeadIsLeast(l, y); }
      forall y | y in r ensures l[0] <= y { HeadIsLeast(r, y); }
      SortedCons(l[0], l[1..], r, Merge(l[1..], r));
    } else {
      TailSorted(r);
      MergeSorted(l, r[1..]);
      MergePermutation(l, r[1..]);
      forall y | y in l ensures r[0] <= y { HeadIsLeast(l, y); }
      forall y | y in r[1..] ensures r[0] <= y { HeadIsLeast(r, y); }
      SortedCons(r[0], l, r[1..], Merge(l, r[1..]));
    }
  }

  /** A head no larger than anything left in either input keeps the merge sorted. */
  lemma SortedCons(x: int, l: seq<int>, r: seq<int>, rest: seq<int>)
    requires multiset(rest) == multiset(l) + multiset(r)
    requires Sorted(rest)
    requires forall y :: y in l ==> x <= y
    requires forall y :: y in r ==> x <= y
    ensures Sorted([x] + rest)
  {
    forall i | 0 <= i < |rest| ensures x <= rest[i] {
      assert rest[i] in multiset(rest);
      assert rest[i] in l || rest[i] in r;
    }
  }

  /**
   * One step of the merge loops that writes `left_half[i]` at `k`: if what is
   * left to merge is the rest `m[k..]` of the full merge, then `m[k]` is
   * `left_half[i]` and what is left afterwards is `m[k + 1..]`.
   */
  lemma TakeLeft(l: seq<int>, r: seq<int>, i: nat, j: nat, m: seq<int>, k: nat)
    requires i < |l| && j <= |r| && k <= |m|
    requires j == |r| || l[i] < r[j]
    requires Merge(l[i..], r[j..]) == m[k..]
    ensures k < |m| && m[k] == l[i] && Merge(l[i + 1..], r[j..]) == m[k + 1..]
  {
    assert l[i..][1..] == l[i + 1..];
    if j == |r| {
      assert r[j..] == [];
      assert l[i..] == [l[i]] + l[i + 1..];
    }
    assert m[k..] == [l[i]] + Merge(l[i + 1..], r[j..]);
    assert m[k..][1..] == m[k + 1..];
  }

  /** The same step when `right_half[j]` is written. */
  lemma TakeRight(l: seq<int>, r: seq<int>, i: nat, j: nat, m: seq<int>, k: nat)
    requires i <= |l| && j < |r| && k <= |m|
    requires i == |l| || !(l[i] < r[j])
    requires Merge(l[i..], r[j..]) == m[k..]
    ensures k < |m| && m[k] == r[j] && Merge(l[i..], r[j + 1..]) == m[k + 1..]
  {
    assert r[j..][1..] == r[j + 1..];
    if i == |l| {
      assert l[i..] == [];
      assert r[j..] == [r[j]] + r[j + 1..];
    }
    assert m[k..] == [r[j]] + Merge(l[i..], r[j + 1..]);
    assert m[k..][1..] == m[k + 1..];
  }

  /** Once one half is used up, the merge ends with the rest of the other one. */
  lemma RestOfMerge(l: seq<int>, r: seq<int>, i: nat, j: nat, m: seq<int>, k: nat)
    requires i <= |l| && j <= |r| && k <= |m|
    requires i == |l| || j == |r|
    requires Merge(l[i..], r[j..]) == m[k..]
    ensures |m| == k + (|l| - i) + (|r| - j)
    ensures forall p :: k <= p < k + (|l| - i) ==> m[p] == l[i + (p - k)]
    ensures forall p :: k + (|l| - i) <= p < |m| ==> m[p] == r[j + (p - k - (|l| - i))]
  {
    if i == |l| {
      assert l[i..] == [];
      assert m[k..] == r[j..];
      forall p | k <= p < |m| ensures m[p] == r[j + (p - k)] {
        assert m[k..][p - k] == r[j..][p - k];
      }
    } else {
      assert r[j..] == [];
      assert m[k..] == l[i..];
      forall p | k <= p < |m| ensures m[p] == l[i + (p - k)] {
        assert m[k..][p - k] == l[i..][p - k];
      }
    }
  }

  /** What `merge_sort(arr)` leaves in `arr`. */
  function MergeSortOf(s: seq<int>): (r: seq<int>)
    ensures Sorted(r)
    ensures multiset(r) == multiset(s)
    decreases |s|
  {
    if |s| <= 1 then s
    else
      var mid := |s| / 2;
      assert s == s[..mid] + s[mid..];
      MergeSorted(MergeSortOf(s[..mid]), MergeSortOf(s[mid..]));
      MergePermutation(MergeSortOf(s[..mid]), MergeSortOf(s[mid..]));
      Merge(MergeSortOf(s[..mid]), MergeSortOf(s[mid..]))
  }

  /**
   * `merge_sort(arr)`: the halves are copied into fresh arrays (the slices),
   * sorted recursively, and merged back into `a`.
   */
  method MergeSort(a: array<int>)
    modifies a
    ensures a[..] == MergeSortOf(old(a[..]))
    ensures a.Length <= 1 ==> a[..] == old(a[..])
    decreases a.Length
  {
    var n := a.Length;
    if n > 1 {
      var leftHalf, rightHalf := SplitHalves(a);
      MergeSort(leftHalf);
      MergeSort(rightHalf);
      MergeBack(a, leftHalf, rightHalf);
    }
  }

  /**
   * `left_half = arr[:mid]` and `right_half = arr[mid:]` with `mid = len(arr) // 2`:
   * two new lists that together are exactly `arr`.
   */
  method SplitHalves(a: array<int>) returns (leftHalf: array<int>, rightHalf: array<int>)
    ensures fresh(leftHalf) && fresh(rightHalf) && leftHalf != rightHalf
    ensures leftHalf.Length == a.Length / 2 && rightHalf.Length == a.Length - a.Length / 2
    ensures leftHalf[..] == a[..][..a.Length / 2] && rightHalf[..] == a[..][a.Length / 2..]
    ensures leftHalf[..] + rightHalf[..] == a[..]
  {
    var n := a.Length;
    var mid := n / 2;
    leftHalf := new int[mid](p requires 0 <= p < mid reads a => a[p]);
    rightHalf := new int[n - mid](p requires 0 <= p < n - mid reads a => a[mid + p]);
    assert a[..] == a[..][..mid] + a[..][mid..];
  }

  /**
   * The merge phase of `merge_sort`: the indices i, j, k walk the two sorted
   * halves and write every cell of `a` once, in `Merge` order.
   */
  method MergeBack(a: array<int>, leftHalf: array<int>, rightHalf: array<int>)
    requires a != leftHalf && a != rightHalf
    requires a.Length == leftHalf.Length + rightHalf.Length
    modifies a
    ensures a[..] == Merge(leftHalf[..], rightHalf[..])
  {
    var i, j, k := MergeHeads(a, leftHalf, rightHalf);
    MergeTails(a, leftHalf, rightHalf, i, j, k);
  }

  /**
   * The two tail loops of the merge. One half is used up and `a[..k]` is the
   * start of the merge; copying what is left of each half completes it.
   */
  method MergeTails(a: array<int>, leftHalf: array<int>, rightHalf: array<int>, i: nat, j: nat, k: nat)
    requires a != leftHalf && a != rightHalf
    requires a.Length == leftHalf.Length + rightHalf.Length
    requires i <= leftHalf.Length && j <= rightHalf.Length && k == i + j
    requires i == leftHalf.Length || j == rightHalf.Length
    requires k <= |Merge(leftHalf[..], rightHalf[..])|
    requires forall p :: 0 <= p < k ==> a[p] == Merge(leftHalf[..], rightHalf[..])[p]
    requires Merge(leftHalf[..][i..], rightHalf[..][j..]) == Merge(leftHalf[..], rightHalf[..])[k..]
    modifies a
    ensures a[..] == Merge(leftHalf[..], rightHalf[..])
  {
    ghost var left, right := leftHalf[..], rightHalf[..];
    ghost var merged := Merge(left, right);
    MergePermutation(left, right);
    // one half is used up: what is left to merge is the rest of the other one
    RestOfMerge(left, right, i, j, merged, k);
    var end := CopyRest(a, k, leftHalf, i);
    ghost var k1 := end;
    end := CopyRest(a, end, rightHalf, j);
    assert a[..] == merged by {
      forall p | k <= p < end ensures a[p] == merged[p] {
        if p < k1 {
          assert a[p] == left[i + (p - k)];
        } else {
          assert a[p] == right[j + (p - k1)];
        }
      }
    }
  }

  /**
   * The first merge loop, `while i < len(left_half) and j < len(right_half)`:
   * the smaller head (the right one on a tie) goes to `a[k]`. It stops with
   * one half used up, `a[..k]` the start of the merge and the merge of the
   * two rests the remainder.
   */
  method MergeHeads(a: array<int>, leftHalf: array<int>, rightHalf: array<int>) returns (i: nat, j: nat, k: nat)
    requires a != leftHalf && a != rightHalf
    requires a.Length == leftHalf.Length + rightHalf.Length
    modifies a
    ensures i <= leftHalf.Length && j <= rightHalf.Length && k == i + j
    ensures i == leftHalf.Length || j == rightHalf.Length
    ensures k <= |Merge(leftHalf[..], rightHalf[..])|
    ensures forall p :: 0 <= p < k ==> a[p] == Merge(leftHalf[..], rightHalf[..])[p]
    ensures Merge(leftHalf[..][i..], rightHalf[..][j..]) == Merge(leftHalf[..], rightHalf[..])[k..]
    ensures forall p :: k <= p < a.Length ==> a[p] == old(a[p])
  {
    ghost var left, right := leftHalf[..], rightHalf[..];
    ghost var merged := Merge(left, right);
    ghost var initial := a[..];
    i, j, k := 0, 0, 0;
    while i < leftHalf.Length && j < rightHalf.Length
      invariant 0 <= i <= |left| && 0 <= j <= |right| && k == i + j && k <= |merged|
      invariant forall p :: 0 <= p < a.Length ==> a[p] == if p < k then merged[p] else initial[p]
      invariant Merge(left[i..], right[j..]) == merged[k..]
    {
      var next;
      if leftHalf[i] < rightHalf[j] {
        TakeLeft(left, right, i, j, merged, k);
        next := leftHalf[i];
        i := i + 1;
      } else {
        TakeRight(left, right, i, j, merged, k);
        next := rightHalf[j];
        j := j + 1;
      }
      a[k] := next;
      k := k + 1;
    }
  }

  /**
   * Each of the two tail loops of the merge, `while i < len(half): arr[k] =
   * half[i]; i += 1; k += 1`: copy `half[from..]` into `a` from cell `k` on.
   */
  method CopyRest(a: array<int>, k: nat, half: array<int>, from: nat) returns (end: nat)
    requires a != half && from <= half.Length && k + half.Length - from <= a.Length
    modifies a
    ensures end == k + half.Length - from
    ensures forall p :: 0 <= p < k ==> a[p] == old(a[p])
    ensures forall p :: k <= p < end ==> a[p] == half[from + p - k]
    ensures forall p :: end <= p < a.Length ==> a[p] == old(a[p])
  {
    var i := from;
    end := k;
    while i < half.Length
      invariant from <= i <= half.Length && end == k + i - from
      invariant forall p :: 0 <= p < k ==> a[p] == old(a[p])
      invariant forall p :: k <= p < end ==> a[p] == half[from + p - k]
      invariant forall p :: end <= p < a.Length ==> a[p] == old(a[p])
    {
      a[end] := half[i];
      i := i + 1;
      end := end + 1;
    }
  }
}
