/** Gap filling of an alignment trace (`handle_nones` in bam_slice/bam_slice.py):
    every absent read or reference index becomes the nearest preceding present
    index of the same component, or -1 when there is none. */
module GapFill {

  import opened Wrappers
  import opened Seqs

  /** One alignment column: (read index, reference index). An insertion has no
      reference index, a deletion has no read index. */
  type AlignedPair = (Option<int>, Option<int>)

  function ReadComponent(pairs: seq<AlignedPair>): (r: seq<Option<int>>)
    ensures |r| == |pairs|
    ensures forall k :: 0 <= k < |r| ==> r[k] == pairs[k].0
  {
    seq(|pairs|, k requires 0 <= k < |pairs| => pairs[k].0)
  }

  function RefComponent(pairs: seq<AlignedPair>): (r: seq<Option<int>>)
    ensures |r| == |pairs|
    ensures forall k :: 0 <= k < |r| ==> r[k] == pairs[k].1
  {
    seq(|pairs|, k requires 0 <= k < |pairs| => pairs[k].1)
  }

  /** No component value is present. */
  predicate NoPresent(xs: seq<Option<int>>)
  {
    forall k :: 0 <= k < |xs| ==> xs[k].None?
  }

  /** Every present value is non-negative. */
  predicate PresentNonNegative(xs: seq<Option<int>>)
  {
    forall k :: 0 <= k < |xs| && xs[k].Some? ==> xs[k].value >= 0
  }

  /** The present values, read left to right, never decrease. */
  predicate PresentSorted(xs: seq<Option<int>>)
  {
    forall i, j :: 0 <= i <= j < |xs| && xs[i].Some? && xs[j].Some? ==> xs[i].value <= xs[j].value
  }

  /** The last present value of `xs`, or the sentinel -1 when nothing is present:
      the "previous position" that `handle_nones` carries along. */
  function LastPresent(xs: seq<Option<int>>): (r: int)
    ensures NoPresent(xs) ==> r == -1
    ensures !NoPresent(xs) ==> exists j :: 0 <= j < |xs| && xs[j] == Some(r)
  {
    if |xs| == 0 then -1
    else if xs[|xs| - 1].Some? then xs[|xs| - 1].value
    else
      var init := xs[..|xs| - 1];
      assert forall k :: 0 <= k < |init| ==> init[k] == xs[k];
      LastPresent(init)
  }

  /** The value `LastPresent` picks is the one at the last present index. */
  lemma {:induction false} LastPresentIsLast(xs: seq<Option<int>>, j: nat)
    requires j < |xs| && xs[j].Some?
    requires forall m :: j < m < |xs| ==> xs[m].None?
    ensures LastPresent(xs) == xs[j].value
  {
    if j < |xs| - 1 {
      var init := xs[..|xs| - 1];
      LastPresentIsLast(init, j);
    }
  }

  /** With sorted present values, the last present value is the largest one. */
  lemma {:induction false} LastPresentDominates(xs: seq<Option<int>>)
    requires PresentSorted(xs)
    ensures forall j :: 0 <= j < |xs| && xs[j].Some? ==> xs[j].value <= LastPresent(xs)
  {
    if |xs| > 0 && xs[|xs| - 1].None? {
      var init := xs[..|xs| - 1];
      assert forall k :: 0 <= k < |init| ==> init[k] == xs[k];
      LastPresentDominates(init);
    }
  }

  /** The reference definition of one gap-filled component: position `k` holds
      the last present value among `xs[0..k]`, or -1. */
  function FillGaps(xs: seq<Option<int>>): (r: seq<int>)
    ensures |r| == |xs|
  {
    seq(|xs|, k requires 0 <= k < |xs| => LastPresent(xs[..k + 1]))
  }

  /** One step of the sweep: the value at `k` is the present value there, or
      else the last present value before it. */
  lemma FillGapsAt(xs: seq<Option<int>>, k: nat)
    requires k < |xs|
    ensures FillGaps(xs)[k] == LastPresent(xs[..k + 1])
    ensures FillGaps(xs)[k] == if xs[k].Some? then xs[k].value else LastPresent(xs[..k])
  {
    assert xs[..k + 1][..k] == xs[..k];
  }

  /** Filling a one-longer prefix appends exactly one value. */
  lemma FillGapsSnoc(xs: seq<Option<int>>, i: nat)
    requires i < |xs|
    ensures FillGaps(xs[..i + 1]) == FillGaps(xs[..i]) + [LastPresent(xs[..i + 1])]
  {
    var a := FillGaps(xs[..i + 1]);
    var b := FillGaps(xs[..i]) + [LastPresent(xs[..i + 1])];
    forall k | 0 <= k < i + 1
      ensures a[k] == b[k]
    {
      assert xs[..i + 1][..k + 1] == xs[..k + 1];
      if k < i { assert xs[..i][..k + 1] == xs[..k + 1]; }
    }
  }

  /** The filled component, stated without the sweep: present values are copied,
      an absent one becomes the nearest preceding present value, or -1 if none. */
  lemma FillGapsSpec(xs: seq<Option<int>>)
    ensures |FillGaps(xs)| == |xs|
    ensures forall k :: 0 <= k < |xs| && xs[k].Some? ==> FillGaps(xs)[k] == xs[k].value
    ensures forall k :: 0 <= k < |xs| && xs[k].None? && NoPresent(xs[..k]) ==> FillGaps(xs)[k] == -1
    ensures forall k, j :: (0 <= j < k < |xs| && xs[k].None? && xs[j].Some? && (forall m :: j < m < k ==> xs[m].None?))
                           ==> FillGaps(xs)[k] == xs[j].value
  {
    forall k | 0 <= k < |xs|
      ensures xs[k].Some? ==> FillGaps(xs)[k] == xs[k].value
      ensures xs[k].None? && NoPresent(xs[..k]) ==> FillGaps(xs)[k] == -1
    {
      FillGapsAt(xs, k);
    }
    forall k, j | 0 <= j < k < |xs| && xs[k].None? && xs[j].Some? && (forall m :: j < m < k ==> xs[m].None?)
      ensures FillGaps(xs)[k] == xs[j].value
    {
      FillGapsAt(xs, k);
      LastPresentIsLast(xs[..k], j);
    }
  }

  /** `handle_nones`: the single forward pass with two running "previous"
      values, both starting at -1. Returns (read positions, reference positions). */
  method HandleNones(pairs: seq<AlignedPair>) returns (readPositions: seq<int>, refPositions: seq<int>)
    ensures readPositions == FillGaps(ReadComponent(pairs))
    ensures refPositions == FillGaps(RefComponent(pairs))
  {
    ghost var readCol := ReadComponent(pairs);
    ghost var refCol := RefComponent(pairs);
    readPositions := [];
    refPositions := [];
    var previousRef := -1;
    var previousRead := -1;
    var i := 0;
    while i < |pairs|
      invariant 0 <= i <= |pairs|
      invariant readPositions == FillGaps(readCol[..i])
      invariant refPositions == FillGaps(refCol[..i])
      invariant previousRead == LastPresent(readCol[..i])
      invariant previousRef == LastPresent(refCol[..i])
    {
      var (readPos, refPos) := pairs[i];
      FillGapsSnoc(readCol, i);
      FillGapsSnoc(refCol, i);
      assert readCol[..i + 1][..i] == readCol[..i];
      assert refCol[..i + 1][..i] == refCol[..i];
      if refPos.None? {
        refPositions := refPositions + [previousRef];
      } else {
        refPositions := refPositions + [refPos.value];
        previousRef := refPos.value;
      }
      if readPos.None? {
        readPositions := readPositions + [previousRead];
      } else {
        readPositions := readPositions + [readPos.value];
        previousRead := readPos.value;
      }
      i := i + 1;
    }
    assert readCol[..i] == readCol && refCol[..i] == refCol;
  }

  /** With non-negative, non-decreasing present values the filled component is
      non-decreasing, and the sentinel -1 appears exactly on the leading run
      that precedes the first present value. */
  lemma FillGapsMonotone(xs: seq<Option<int>>)
    requires PresentNonNegative(xs) && PresentSorted(xs)
    ensures Sorted(FillGaps(xs))
    ensures forall k :: 0 <= k < |xs| ==> FillGaps(xs)[k] >= -1
    ensures forall k :: 0 <= k < |xs| ==> (FillGaps(xs)[k] == -1 <==> NoPresent(xs[..k + 1]))
  {
    var r := FillGaps(xs);
    forall k | 0 <= k < |xs|
      ensures r[k] >= -1 && (r[k] == -1 <==> NoPresent(xs[..k + 1]))
    {
      FillGapsAt(xs, k);
      var p := xs[..k + 1];
      if !NoPresent(p) {
        var j :| 0 <= j < |p| && p[j] == Some(r[k]);
        assert xs[j] == p[j];
      }
    }
    forall i, j | 0 <= i <= j < |r|
      ensures r[i] <= r[j]
    {
      PrefixFillOrdered(xs, i, j);
    }
  }

  lemma PrefixFillOrdered(xs: seq<Option<int>>, i: nat, j: nat)
    requires PresentNonNegative(xs) && PresentSorted(xs)
    requires i <= j < |xs|
    ensures FillGaps(xs)[i] <= FillGaps(xs)[j]
  {
    FillGapsAt(xs, i);
    FillGapsAt(xs, j);
    var pi := xs[..i + 1];
    var pj := xs[..j + 1];
    if NoPresent(pi) {
      if !NoPresent(pj) {
        var b :| 0 <= b < |pj| && pj[b] == Some(LastPresent(pj));
        assert xs[b] == pj[b];
      }
    } else {
      var a :| 0 <= a < |pi| && pi[a] == Some(LastPresent(pi));
      assert pj[a] == xs[a] == pi[a];
      assert PresentSorted(pj) by {
        assert forall m :: 0 <= m < |pj| ==> pj[m] == xs[m];
      }
      LastPresentDominates(pj);
    }
  }

  /** Seen through a non-negative window, filling adds no hits: some filled
      value lies in `[s, e]` exactly when some present value does. */
  lemma FilledHitsIffPresentHits(xs: seq<Option<int>>, s: int, e: int)
    requires s >= 0
    ensures (exists k :: 0 <= k < |xs| && s <= FillGaps(xs)[k] <= e)
        <==> (exists k :: 0 <= k < |xs| && xs[k].Some? && s <= xs[k].value <= e)
  {
    var r := FillGaps(xs);
    if exists k :: 0 <= k < |xs| && s <= r[k] <= e {
      var k :| 0 <= k < |xs| && s <= r[k] <= e;
      FillGapsAt(xs, k);
      var p := xs[..k + 1];
      var j :| 0 <= j < |p| && p[j] == Some(r[k]);
      assert xs[j] == p[j];
    }
    if exists k :: 0 <= k < |xs| && xs[k].Some? && s <= xs[k].value <= e {
      var k :| 0 <= k < |xs| && xs[k].Some? && s <= xs[k].value <= e;
      FillGapsAt(xs, k);
    }
  }
}
