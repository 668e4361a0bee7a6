/** Sequence helpers shared by the model: sortedness and Python's slice semantics. */
module Seqs {

  /** Non-decreasing order, the order `bisect` assumes of its list. */
  predicate Sorted(a: seq<int>)
  {
    forall i, j :: 0 <= i <= j < |a| ==> a[i] <= a[j]
  }

  /** Python's normalisation of one slice bound against a length `n`:
      negative bounds count from the end, then the bound is clamped to [0, n]. */
  function SliceBound(i: int, n: nat): (b: nat)
    ensures b <= n
    ensures 0 <= i <= n ==> b == i
    ensures -(n as int) <= i < 0 ==> b == n + i
    ensures i > n ==> b == n
    ensures i < -(n as int) ==> b == 0
  {
    if i < 0 then (if i + n < 0 then 0 else i + n)
    else if i > n then n
    else i
  }

  /** Python's `s[i:j]` for any integers `i` and `j`: total, never fails. */
  function PySlice<T>(s: seq<T>, i: int, j: int): (r: seq<T>)
    ensures 0 <= i <= j <= |s| ==> r == s[i..j]
    ensures 0 <= j <= i ==> r == []
    ensures |r| <= |s|
    ensures |r| == if SliceBound(i, |s|) < SliceBound(j, |s|) then SliceBound(j, |s|) - SliceBound(i, |s|) else 0
    ensures forall k :: 0 <= k < |r| ==> SliceBound(i, |s|) + k < |s| && r[k] == s[SliceBound(i, |s|) + k]
  {
    var lo := SliceBound(i, |s|);
    var hi := SliceBound(j, |s|);
    if lo < hi then s[lo..hi] else []
  }
}
