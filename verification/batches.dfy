/** The batching of merged windows in `main` (bam_slice/bam_slice.py): at most
    `fileLimit` output files may be open at once, so the windows are cut into
    `ceil(n / fileLimit)` consecutive batches and the alignment file is read
    once per batch. */
module Batches {

  import opened Seqs

  /** `math.ceil(n / fileLimit)`, computed exactly. */
  function BatchCount(n: nat, fileLimit: nat): (c: nat)
    requires fileLimit > 0
    ensures c * fileLimit >= n
    ensures c == 0 || (c - 1) * fileLimit < n
  {
    (n + fileLimit - 1) / fileLimit
  }

  /** Batch `i`: `merged_intervals[i * FILE_LIMIT:(i + 1) * FILE_LIMIT]`. */
  function Batch<T>(xs: seq<T>, fileLimit: nat, i: nat): seq<T>
    requires fileLimit > 0
  {
    PySlice(xs, i * fileLimit, (i + 1) * fileLimit)
  }

  function MakeBatches<T>(xs: seq<T>, fileLimit: nat): (r: seq<seq<T>>)
    requires fileLimit > 0
    ensures |r| == BatchCount(|xs|, fileLimit)
  {
    seq(BatchCount(|xs|, fileLimit), i requires 0 <= i => Batch(xs, fileLimit, i))
  }

  /** The batches laid end to end. */
  function Flatten<T>(xss: seq<seq<T>>): seq<T>
  {
    if |xss| == 0 then [] else Flatten(xss[..|xss| - 1]) + xss[|xss| - 1]
  }

  lemma BatchBounds(n: nat, fileLimit: nat, i: nat)
    requires fileLimit > 0 && i < BatchCount(n, fileLimit)
    ensures i * fileLimit < n
    ensures (i + 1) * fileLimit == i * fileLimit + fileLimit
  {
    var c := BatchCount(n, fileLimit);
    assert i <= c - 1;
    assert i * fileLimit <= (c - 1) * fileLimit by {
      MulMonotone(i, c - 1, fileLimit);
    }
  }

  lemma MulMonotone(a: nat, b: nat, m: nat)
    requires a <= b
    ensures a * m <= b * m
  {
  }

  /** Every batch is non-empty and holds at most `fileLimit` windows; all
      batches but the last hold exactly `fileLimit`. */
  lemma BatchSizes<T>(xs: seq<T>, fileLimit: nat)
    requires fileLimit > 0
    ensures forall i :: 0 <= i < |MakeBatches(xs, fileLimit)| ==>
              0 < |MakeBatches(xs, fileLimit)[i]| <= fileLimit
    ensures forall i :: 0 <= i < |MakeBatches(xs, fileLimit)| - 1 ==>
              |MakeBatches(xs, fileLimit)[i]| == fileLimit
  {
    var r := MakeBatches(xs, fileLimit);
    forall i | 0 <= i < |r|
      ensures 0 < |r[i]| <= fileLimit
      ensures i < |r| - 1 ==> |r[i]| == fileLimit
    {
      BatchBounds(|xs|, fileLimit, i);
      if i < |r| - 1 {
        BatchBounds(|xs|, fileLimit, i + 1);
      }
    }
  }

  /** The smaller of a batch's end bound and the number of windows. */
  function EndOf(n: nat, bound: nat): nat
  {
    if bound < n then bound else n
  }

  /** Batch `j` is the plain slice from `j * fileLimit` to the next bound or the
      end of the windows. */
  lemma BatchIsSlice<T>(xs: seq<T>, fileLimit: nat, j: nat)
    requires fileLimit > 0 && j < BatchCount(|xs|, fileLimit)
    ensures j * fileLimit <= EndOf(|xs|, (j + 1) * fileLimit)
    ensures MakeBatches(xs, fileLimit)[j] == xs[j * fileLimit..EndOf(|xs|, (j + 1) * fileLimit)]
  {
    BatchBounds(|xs|, fileLimit, j);
    var lo := j * fileLimit;
    var hi := EndOf(|xs|, (j + 1) * fileLimit);
    assert lo < hi;
    assert Batch(xs, fileLimit, j) == PySlice(xs, lo, (j + 1) * fileLimit);
  }

  /** The first `i` batches laid end to end are the first `i * fileLimit`
      windows (or all of them). */
  lemma {:induction false} FlattenPrefix<T>(xs: seq<T>, fileLimit: nat, i: nat)
    requires fileLimit > 0 && i <= BatchCount(|xs|, fileLimit)
    ensures Flatten(MakeBatches(xs, fileLimit)[..i]) == xs[..EndOf(|xs|, i * fileLimit)]
  {
    var r := MakeBatches(xs, fileLimit);
    if i > 0 {
      var j := i - 1;
      FlattenPrefix(xs, fileLimit, j);
      BatchIsSlice(xs, fileLimit, j);
      var lo := j * fileLimit;
      var hi := EndOf(|xs|, i * fileLimit);
      assert lo == EndOf(|xs|, j * fileLimit) by {
        BatchBounds(|xs|, fileLimit, j);
      }
      assert r[..i][..j] == r[..j];
      assert Flatten(r[..i]) == Flatten(r[..j]) + r[j];
      assert xs[..lo] + xs[lo..hi] == xs[..hi];
    }
  }

  /** The batches cover the merged windows exactly, in order, once each. */
  lemma BatchesCoverAll<T>(xs: seq<T>, fileLimit: nat)
    requires fileLimit > 0
    ensures Flatten(MakeBatches(xs, fileLimit)) == xs
  {
    var r := MakeBatches(xs, fileLimit);
    FlattenPrefix(xs, fileLimit, |r|);
    assert r[..|r|] == r;
    assert xs[..|xs|] == xs;
  }
}
