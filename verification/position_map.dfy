/** Resolution of a reference window into a read index range through a
    gap-filled alignment trace (`ref_interval_indexes` and
    `get_subsequence_indexes` in bam_slice/bam_slice.py). */
module PositionMap {

  import opened Wrappers
  import opened Seqs
  import opened Bisect
  import opened Intervals

  /** Some reference position of the trace lies inside the window. */
  predicate Hits(refPositions: seq<int>, iv: Interval)
  {
    exists k :: 0 <= k < |refPositions| && Contains(iv, refPositions[k])
  }

  /** `f` is the first column whose reference position lies inside the window. */
  predicate FirstHit(refPositions: seq<int>, iv: Interval, f: int)
  {
    && 0 <= f < |refPositions|
    && Contains(iv, refPositions[f])
    && forall k :: 0 <= k < f ==> !Contains(iv, refPositions[k])
  }

  /** `l` is the last column whose reference position lies inside the window. */
  predicate LastHit(refPositions: seq<int>, iv: Interval, l: int)
  {
    && 0 <= l < |refPositions|
    && Contains(iv, refPositions[l])
    && forall k :: l < k < |refPositions| ==> !Contains(iv, refPositions[k])
  }

  /** A read index after the clamp of `get_subsequence_indexes`: the least
      natural number at or above `x`, so a negative (sentinel) start becomes
      zero and any other start is kept. */
  function ClampStart(x: int): (r: nat)
    ensures r >= x
    ensures r == x || r == 0
  {
    if x < 0 then 0 else x
  }

  /** `ref_interval_indexes`: `bisect_left` of the window start and `bisect_right`
      of the window end. On sorted positions the columns from `lo` up to (not
      including) `hi` are exactly those whose position lies in the window. */
  method RefIntervalIndexes(iv: Interval, refPositions: seq<int>) returns (lo: nat, hi: nat)
    ensures lo <= |refPositions| && hi <= |refPositions|
    ensures Sorted(refPositions) ==> lo == CountBelow(refPositions, iv.start)
    ensures Sorted(refPositions) ==> hi == CountAtMost(refPositions, iv.end)
    ensures Sorted(refPositions) ==>
              forall k :: 0 <= k < |refPositions| ==> (lo <= k < hi <==> Contains(iv, refPositions[k]))
    ensures Sorted(refPositions) ==> (lo < hi <==> Hits(refPositions, iv))
  {
    lo := BisectLeft(refPositions, iv.start);
    hi := BisectRight(refPositions, iv.end);
    if Sorted(refPositions) && lo < hi {
      assert Contains(iv, refPositions[lo]);
    }
  }

  /** `get_subsequence_indexes`: the read indexes of the columns the window
      selects, reduced to (first, last) with the first clamped at zero, or `None`
      when the selection is empty. The trace is the output of `handle_nones`,
      so both lists have the same length. */
  method GetSubsequenceIndexes(iv: Interval, readPositions: seq<int>, refPositions: seq<int>)
    returns (r: Option<(int, int)>)
    ensures r.Some? ==> r.value.0 >= 0
    ensures |readPositions| == |refPositions| && Sorted(refPositions) ==>
              (r.None? <==> !Hits(refPositions, iv))
    ensures |readPositions| == |refPositions| && Sorted(refPositions) ==>
              forall f, l :: FirstHit(refPositions, iv, f) && LastHit(refPositions, iv, l) ==>
                r == Some((ClampStart(readPositions[f]), readPositions[l]))
  {
    var lo, hi := RefIntervalIndexes(iv, refPositions);
    var readIndexes := PySlice(readPositions, lo, hi);
    if |readIndexes| == 0 {
      return None;
    }
    var readStart := readIndexes[0];
    var readEnd := readIndexes[|readIndexes| - 1];
    if readStart < 0 {
      readStart := 0;
    }
    r := Some((readStart, readEnd));
    if |readPositions| == |refPositions| && Sorted(refPositions) {
      forall f, l | FirstHit(refPositions, iv, f) && LastHit(refPositions, iv, l)
        ensures f == lo && l == hi - 1
      {
        assert Contains(iv, refPositions[lo]);
        assert Contains(iv, refPositions[hi - 1]);
      }
    }
  }
}
