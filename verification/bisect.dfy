/** Python's `bisect.bisect_left` and `bisect.bisect_right`, the binary searches
    `ref_interval_indexes` (bam_slice/bam_slice.py) runs over reference positions.
    The searches are total, as in Python; what they find is stated for the
    non-decreasing lists they are meant for. */
module Bisect {

  import opened Seqs

  /** How many entries of `a` are strictly below `x`. */
  function CountBelow(a: seq<int>, x: int): (n: nat)
    ensures n <= |a|
  {
    if |a| == 0 then 0 else (if a[0] < x then 1 else 0) + CountBelow(a[1..], x)
  }

  /** How many entries of `a` are at most `x`. */
  function CountAtMost(a: seq<int>, x: int): (n: nat)
    ensures n <= |a|
  {
    if |a| == 0 then 0 else (if a[0] <= x then 1 else 0) + CountAtMost(a[1..], x)
  }

  /** An index that splits `a` into entries below `x` and entries at or above it
      is the number of entries below `x`. */
  lemma {:induction false} CountBelowAtSplit(a: seq<int>, x: int, lo: nat)
    requires lo <= |a|
    requires forall k :: 0 <= k < lo ==> a[k] < x
    requires forall k :: lo <= k < |a| ==> a[k] >= x
    ensures CountBelow(a, x) == lo
  {
    if |a| > 0 {
      if lo == 0 {
        CountBelowAtSplit(a[1..], x, 0);
      } else {
        CountBelowAtSplit(a[1..], x, lo - 1);
      }
    }
  }

  /** An index that splits `a` into entries at most `x` and entries above it is
      the number of entries at most `x`. */
  lemma {:induction false} CountAtMostAtSplit(a: seq<int>, x: int, hi: nat)
    requires hi <= |a|
    requires forall k :: 0 <= k < hi ==> a[k] <= x
    requires forall k :: hi <= k < |a| ==> a[k] > x
    ensures CountAtMost(a, x) == hi
  {
    if |a| > 0 {
      if hi == 0 {
        CountAtMostAtSplit(a[1..], x, 0);
      } else {
        CountAtMostAtSplit(a[1..], x, hi - 1);
      }
    }
  }

  /** `bisect_left(a, x)`: the leftmost place `x` could be inserted keeping `a` sorted. */
  method BisectLeft(a: seq<int>, x: int) returns (lo: nat)
    ensures lo <= |a|
    ensures Sorted(a) ==> lo == CountBelow(a, x)
    ensures Sorted(a) ==> forall k :: 0 <= k < lo ==> a[k] < x
    ensures Sorted(a) ==> forall k :: lo <= k < |a| ==> a[k] >= x
  {
    lo := 0;
    var hi := |a|;
    while lo < hi
      invariant 0 <= lo <= hi <= |a|
      invariant Sorted(a) ==> forall k :: 0 <= k < lo ==> a[k] < x
      invariant Sorted(a) ==> forall k :: hi <= k < |a| ==> a[k] >= x
    {
      var mid := (lo + hi) / 2;
      if a[mid] < x {
        lo := mid + 1;
      } else {
        hi := mid;
      }
    }
    if Sorted(a) {
      CountBelowAtSplit(a, x, lo);
    }
  }

  /** `bisect_right(a, x)`: the rightmost place `x` could be inserted keeping `a` sorted. */
  method BisectRight(a: seq<int>, x: int) returns (lo: nat)
    ensures lo <= |a|
    ensures Sorted(a) ==> lo == CountAtMost(a, x)
    ensures Sorted(a) ==> forall k :: 0 <= k < lo ==> a[k] <= x
    ensures Sorted(a) ==> forall k :: lo <= k < |a| ==> a[k] > x
  {
    lo := 0;
    var hi := |a|;
    while lo < hi
      invariant 0 <= lo <= hi <= |a|
      invariant Sorted(a) ==> forall k :: 0 <= k < lo ==> a[k] <= x
      invariant Sorted(a) ==> forall k :: hi <= k < |a| ==> a[k] > x
    {
      var mid := (lo + hi) / 2;
      if x < a[mid] {
        hi := mid;
      } else {
        lo := mid + 1;
      }
    }
    if Sorted(a) {
      CountAtMostAtSplit(a, x, lo);
    }
  }
}
