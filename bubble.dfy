/**
 * The in-place bubble sort shared, letter for letter, by nd.py, night.py and
 * eye.py: `n` outer passes, each bubbling the largest remaining element to
 * position `n - i - 1` by swapping adjacent cells that are strictly out of order.
 */
module Bubble {
  import opened Sorting

  /** `s` with cells `j` and `j + 1` exchanged. */
  function Swapped(s: seq<int>, j: nat): (t: seq<int>)
    requires j + 1 < |s|
    ensures multiset(t) == multiset(s)
  {
    s[j := s[j + 1]][j + 1 := s[j]]
  }

  /** The tuple assignment `arr[j], arr[j + 1] = arr[j + 1], arr[j]`. */
  method Swap(a: array<int>, j: nat)
    requires j + 1 < a.Length
    modifies a
    ensures a[..] == Swapped(old(a[..]), j)
  {
    a[j], a[j + 1] := a[j + 1], a[j];
  }

  /**
   * `bubble_sort(arr)`: outer pass `i` bubbles the largest element of
   * `arr[0..n - i)` up to cell `n - i - 1`; the cells after it already hold
   * the `i` largest elements in order and are never touched again.
   */
  method BubbleSort(a: array<int>)
    modifies a
    ensures Sorted(a[..])
    ensures multiset(a[..]) == multiset(old(a[..]))
    ensures Sorted(old(a[..])) ==> a[..] == old(a[..])
  {
    var n := a.Length;
    for i := 0 to n
      invariant multiset(a[..]) == multiset(old(a[..]))
      invariant SortedTail(a[..], n - i)
    {
      BubblePass(a, n - i);
    }
    if Sorted(old(a[..])) {
      SortedUnique(a[..], old(a[..]));
    }
  }

  /**
   * `s[m..]` is in order and no element before it is larger than one in it:
   * the state after `|s| - m` outer passes. With `m == 0` it is `Sorted(s)`.
   */
  predicate SortedTail(s: seq<int>, m: nat) {
    m <= |s| &&
    (forall p, q :: m <= p < q < |s| ==> s[p] <= s[q]) &&
    (forall p, q :: 0 <= p < m <= q < |s| ==> s[p] <= s[q])
  }

  /** `s[j]` is the largest of `s[0..j]`. */
  predicate MaxAt(s: seq<int>, j: nat)
    requires j < |s|
  {
    forall p :: 0 <= p < j ==> s[p] <= s[j]
  }

  /** One step of the inner loop keeps the pass invariant, one cell further on. */
  lemma PassStep(s: seq<int>, j: nat, m: nat)
    requires j + 1 < m && SortedTail(s, m) && MaxAt(s, j)
    ensures var t := if s[j] > s[j + 1] then Swapped(s, j) else s;
      |t| == |s| && SortedTail(t, m) && MaxAt(t, j + 1)
  {
  }

  /** One outer pass: the inner loop `for j in range(0, m - 1)` over `a[0..m)`. */
  method BubblePass(a: array<int>, m: nat)
    requires 0 < m && SortedTail(a[..], m)
    modifies a
    ensures SortedTail(a[..], m - 1)
    ensures multiset(a[..]) == multiset(old(a[..]))
    ensures a[m..] == old(a[m..])
  {
    for j := 0 to m - 1
      invariant multiset(a[..]) == multiset(old(a[..]))
      invariant a[m..] == old(a[m..])
      invariant SortedTail(a[..], m)
      invariant MaxAt(a[..], j)
    {
      PassStep(a[..], j, m);
      if a[j] > a[j + 1] {
        Swap(a, j);
      }
    }
  }
}
