/** `bisect.bisect_right` on a list of integers, as the scheduler calls it. */
module Bisect {

  predicate Ascending(a: seq<int>) {
    forall i, j :: 0 <= i < j < |a| ==> a[i] <= a[j]
  }

  /** The insertion point of `x` to the right of every entry equal to it:
      every entry before the result is at most `x`, every entry from the
      result on is greater than `x`. */
  method BisectRight(a: seq<int>, x: int) returns (lo: int)
    requires Ascending(a)
    ensures 0 <= lo <= |a|
    ensures forall j :: 0 <= j < lo ==> a[j] <= x
    ensures forall j :: lo <= j < |a| ==> x < a[j]
  {
    lo := 0;
    var hi := |a|;
    while lo < hi
      invariant 0 <= lo <= hi <= |a|
      invariant forall j :: 0 <= j < lo ==> a[j] <= x
      invariant forall j :: hi <= j < |a| ==> x < a[j]
    {
      var mid := (lo + hi) / 2;
      if x < a[mid] {
        hi := mid;
      } else {
        lo := mid + 1;
      }
    }
  }
}
