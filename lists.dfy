/** Python list operations the benchmark scripts use around their sorts. */
module Lists {

  /** `arr.copy()`: a freshly allocated list with the same contents. */
  method CopyOf(s: seq<int>) returns (a: array<int>)
    ensures fresh(a) && a[..] == s
  {
    a := new int[|s|](k requires 0 <= k < |s| => s[k]);
  }
}
