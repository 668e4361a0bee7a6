/** The concrete cases of tests/test_bam_slice.py and of the docstrings in
    bam_slice/bam_slice.py, stated against the model. */
module Examples {

  import opened Wrappers
  import opened Seqs
  import opened Intervals
  import opened GapFill
  import opened PositionMap
  import opened Fastq
  import opened Filename
  import opened SliceExtractor

  function I(start: int, end: int): Interval
  {
    Interval(start, end)
  }

  /** The docstring example: `[1, 4]` and `[3, 7]` overlap, `[10, 14]` stays apart. */
  lemma MergeDocstringCase()
    ensures MergeOverlapIntervals([I(1, 4), I(3, 7), I(10, 14)]) == [I(1, 7), I(10, 14)]
  {
    var xs := [I(1, 4), I(3, 7), I(10, 14)];
    assert xs[1..] == [I(3, 7), I(10, 14)];
    assert xs[1..][1..] == [I(10, 14)];
    assert [I(10, 14)][1..] == [];
    assert MergeFrom(I(1, 7), [I(10, 14)]) == [I(1, 7), I(10, 14)];
  }

  lemma MergeNoOverlapCase()
    ensures MergeOverlapIntervals([I(2, 4), I(6, 9), I(11, 12)]) == [I(2, 4), I(6, 9), I(11, 12)]
  {
    var xs := [I(2, 4), I(6, 9), I(11, 12)];
    assert xs[1..] == [I(6, 9), I(11, 12)];
    assert xs[1..][1..] == [I(11, 12)];
    assert [I(11, 12)][1..] == [];
    assert MergeFrom(I(11, 12), []) == [I(11, 12)];
    assert MergeFrom(I(6, 9), [I(11, 12)]) == [I(6, 9)] + [I(11, 12)];
  }

  /** Touching windows stay apart. */
  lemma MergeTouchingCase()
    ensures MergeOverlapIntervals([I(6, 9), I(9, 12)]) == [I(6, 9), I(9, 12)]
  {
    assert [I(6, 9), I(9, 12)][1..] == [I(9, 12)];
    assert [I(9, 12)][1..] == [];
  }

  lemma MergeTwoOverlapCase()
    ensures MergeOverlapIntervals([I(6, 9), I(8, 12)]) == [I(6, 12)]
  {
    assert [I(6, 9), I(8, 12)][1..] == [I(8, 12)];
    assert [I(8, 12)][1..] == [];
  }

  lemma MergeThreeOverlapCase()
    ensures MergeOverlapIntervals([I(6, 9), I(8, 12), I(11, 14)]) == [I(6, 14)]
  {
    var xs := [I(6, 9), I(8, 12), I(11, 14)];
    assert xs[1..] == [I(8, 12), I(11, 14)];
    assert xs[1..][1..] == [I(11, 14)];
    assert [I(11, 14)][1..] == [];
    assert MergeFrom(I(6, 12), [I(11, 14)]) == [I(6, 14)];
  }

  /** Overlapping windows merge, and the merged window still only touches the next. */
  lemma MergeOverlapThenTouchCase()
    ensures MergeOverlapIntervals([I(6, 9), I(8, 12), I(11, 14), I(14, 16)]) == [I(6, 14), I(14, 16)]
  {
    var xs := [I(6, 9), I(8, 12), I(11, 14), I(14, 16)];
    assert xs[1..] == [I(8, 12), I(11, 14), I(14, 16)];
    assert xs[1..][1..] == [I(11, 14), I(14, 16)];
    assert xs[1..][1..][1..] == [I(14, 16)];
    assert [I(14, 16)][1..] == [];
    assert MergeFrom(I(6, 14), [I(14, 16)]) == [I(6, 14), I(14, 16)];
    assert MergeFrom(I(6, 12), [I(11, 14), I(14, 16)]) == [I(6, 14), I(14, 16)];
  }

  /** Positions 3, 10 and 12 padded by 5: the first start clamps at zero and the
      three windows chain into one. */
  lemma PaddingCase()
    ensures PadPositions([3, 10, 12], 5) == [I(0, 8), I(5, 15), I(7, 17)]
    ensures MergeOverlapIntervals(PadPositions([3, 10, 12], 5)) == [I(0, 17)]
  {
    var xs := PadPositions([3, 10, 12], 5);
    assert xs == [I(0, 8), I(5, 15), I(7, 17)];
    assert xs[1..] == [I(5, 15), I(7, 17)];
    assert xs[1..][1..] == [I(7, 17)];
    assert [I(7, 17)][1..] == [];
    assert MergeFrom(I(0, 15), [I(7, 17)]) == [I(0, 17)];
  }

  /** The read column of the `handle_nones` docstring: the gap repeats 1. */
  lemma FillReadColumnCase()
    ensures FillGaps([Some(1), None, Some(2)]) == [1, 1, 2]
  {
    var xs := [Some(1), None, Some(2)];
    FillGapsAt(xs, 1);
    assert xs[..1] == [Some(1)];
  }

  /** The reference column of the `handle_nones` docstring: the gap repeats 2. */
  lemma FillRefColumnCase()
    ensures FillGaps([Some(1), Some(2), None]) == [1, 2, 2]
  {
    var xs := [Some(1), Some(2), None];
    FillGapsAt(xs, 2);
    assert xs[..2] == [Some(1), Some(2)];
  }

  /** `handle_nones` on its docstring example. */
  method HandleNonesDocstringCase()
  {
    var pairs := [(Some(1), Some(1)), (None, Some(2)), (Some(2), None)];
    var rd, rf := HandleNones(pairs);
    assert ReadComponent(pairs) == [Some(1), None, Some(2)];
    assert RefComponent(pairs) == [Some(1), Some(2), None];
    FillReadColumnCase();
    FillRefColumnCase();
    assert rd == [1, 1, 2] && rf == [1, 2, 2];
  }

  /** `handle_nones` unit test: no gaps, nothing changes. */
  method HandleNonesNoGapCase()
  {
    var pairs := [(Some(1), Some(1)), (Some(2), Some(2))];
    var rd, rf := HandleNones(pairs);
    FillGapsSpec(ReadComponent(pairs));
    FillGapsSpec(RefComponent(pairs));
    assert rd == [1, 2] && rf == [1, 2];
  }

  /** `handle_nones` unit test: a missing reference index repeats the previous one. */
  method HandleNonesRefGapCase()
  {
    var pairs := [(Some(1), Some(1)), (Some(2), None)];
    var rd, rf := HandleNones(pairs);
    FillGapsSpec(ReadComponent(pairs));
    FillGapsSpec(RefComponent(pairs));
    assert RefComponent(pairs)[0].Some? && RefComponent(pairs)[1].None?;
    assert rf[1] == 1;
    assert rd == [1, 2] && rf == [1, 1];
  }

  /** `handle_nones` unit test: a leading missing reference index becomes -1. */
  method HandleNonesLeadingRefGapCase()
  {
    var pairs := [(Some(1), None), (Some(2), Some(1))];
    var rd, rf := HandleNones(pairs);
    FillGapsSpec(ReadComponent(pairs));
    FillGapsSpec(RefComponent(pairs));
    assert RefComponent(pairs)[..0] == [];
    assert rd == [1, 2] && rf == [-1, 1];
  }

  /** `handle_nones` unit test: no reference index at all gives -1 throughout. */
  method HandleNonesAllRefGapCase()
  {
    var pairs := [(Some(1), None), (Some(2), None)];
    var rd, rf := HandleNones(pairs);
    FillGapsSpec(ReadComponent(pairs));
    FillGapsSpec(RefComponent(pairs));
    assert RefComponent(pairs)[..0] == [];
    assert NoPresent(RefComponent(pairs)[..1]);
    assert rd == [1, 2] && rf == [-1, -1];
  }

  /** `handle_nones` unit test: a missing read index repeats the previous one. */
  method HandleNonesReadGapCase()
  {
    var pairs := [(Some(1), Some(1)), (None, Some(2))];
    var rd, rf := HandleNones(pairs);
    FillGapsSpec(ReadComponent(pairs));
    FillGapsSpec(RefComponent(pairs));
    assert ReadComponent(pairs)[0].Some? && ReadComponent(pairs)[1].None?;
    assert rd[1] == 1;
    assert rd == [1, 1] && rf == [1, 2];
  }

  /** `handle_nones` unit test: a leading missing read index becomes -1. */
  method HandleNonesLeadingReadGapCase()
  {
    var pairs := [(None, Some(0)), (Some(0), Some(1))];
    var rd, rf := HandleNones(pairs);
    FillGapsSpec(ReadComponent(pairs));
    FillGapsSpec(RefComponent(pairs));
    assert ReadComponent(pairs)[..0] == [];
    assert rd == [-1, 0] && rf == [0, 1];
  }

  /** `handle_nones` unit test: no read index at all gives -1 throughout. */
  method HandleNonesAllReadGapCase()
  {
    var pairs := [(None, Some(1)), (None, Some(2))];
    var rd, rf := HandleNones(pairs);
    FillGapsSpec(ReadComponent(pairs));
    FillGapsSpec(RefComponent(pairs));
    assert ReadComponent(pairs)[..0] == [];
    assert NoPresent(ReadComponent(pairs)[..1]);
    assert rd == [-1, -1] && rf == [1, 2];
  }

  /** The first docstring example of `ref_interval_indexes` claims (2, 8);
      `bisect_right` of 5 in that list is 9, the length of the list. */
  method RefIntervalIndexesRepeatsCase()
  {
    var a := [1, 1, 2, 2, 2, 3, 4, 5, 5];
    assert Sorted(a);
    var lo, hi := RefIntervalIndexes(I(2, 5), a);
    assert a[1] < 2 <= a[2];
    assert lo == 2 && hi == 9;
  }

  /** The remaining docstring examples of `ref_interval_indexes`. */
  method RefIntervalIndexesInsideCase()
  {
    var a := [2, 3, 4];
    assert Sorted(a);
    var lo, hi := RefIntervalIndexes(I(2, 5), a);
    assert 2 <= a[0];
    assert lo == 0 && hi == 3;
  }

  method RefIntervalIndexesTailCase()
  {
    var a := [3, 4, 4, 4, 4];
    assert Sorted(a);
    var lo, hi := RefIntervalIndexes(I(2, 5), a);
    assert 2 <= a[0];
    assert lo == 0 && hi == 5;
  }

  method RefIntervalIndexesAfterCase()
  {
    var a := [10, 11, 12];
    assert Sorted(a);
    var lo, hi := RefIntervalIndexes(I(2, 5), a);
    assert 2 <= a[0] && 5 < a[0];
    assert lo == 0 && hi == 0;
  }

  /** `get_subsequence_indexes` on its docstring example, which is also the
      first unit test: a one-to-one mapping. */
  method OneToOneCase()
  {
    var ref := [1, 2, 3, 4, 5, 6];
    assert Sorted(ref);
    assert FirstHit(ref, I(2, 5), 1) && LastHit(ref, I(2, 5), 4);
    var r := GetSubsequenceIndexes(I(2, 5), [30, 31, 32, 33, 34, 35], ref);
    assert r == Some((31, 34));
  }

  /** A window at the start of the reference takes the columns after the
      leading sentinels. */
  method StartOfRefCase()
  {
    var read := [30, 31, 32, 33, 34, 35];
    var ref := [-1, -1, -1, 0, 0, 1];
    assert Sorted(ref);
    assert FirstHit(ref, I(0, 2), 3) && LastHit(ref, I(0, 2), 5);
    var r := GetSubsequenceIndexes(I(0, 2), read, ref);
    assert r == Some((33, 35));
  }

  /** Repeated reference positions: the window takes every column of a repeat. */
  method RepeatedRefCase()
  {
    var read := [30, 31, 32, 33, 34, 35];
    var ref := [1, 1, 1, 2, 2, 2];
    assert Sorted(ref);
    assert FirstHit(ref, I(2, 5), 3) && LastHit(ref, I(2, 5), 5);
    var r := GetSubsequenceIndexes(I(2, 5), read, ref);
    assert r == Some((33, 35));
  }

  /** A repeat on the window's end is taken whole. */
  method RepeatOnEndCase()
  {
    var read := [30, 31, 32, 33, 34, 35];
    var ref := [4, 5, 5, 5, 5, 5];
    assert Sorted(ref);
    assert FirstHit(ref, I(2, 5), 0) && LastHit(ref, I(2, 5), 5);
    var r := GetSubsequenceIndexes(I(2, 5), read, ref);
    assert r == Some((30, 35));
  }

  /** Every reference position lies before the window: no range. */
  method NoOverlapCase()
  {
    var ref := [-1, -1, -1, 0, 0, 1];
    assert Sorted(ref);
    assert !Hits(ref, I(2, 5));
    var r := GetSubsequenceIndexes(I(2, 5), [30, 31, 32, 33, 34, 35], ref);
    assert r == None;
  }

  /** Repeated read positions (deletions), and the clamp of a sentinel start. */
  method RepeatedReadCases()
  {
    var ref := [1, 2, 3, 4, 5, 6];
    assert Sorted(ref);
    assert FirstHit(ref, I(2, 5), 1) && LastHit(ref, I(2, 5), 4);
    var r := GetSubsequenceIndexes(I(2, 5), [29, 30, 30, 30, 30, 31], ref);
    assert r == Some((30, 30));
    r := GetSubsequenceIndexes(I(2, 5), [30, 30, 30, 31, 31, 31], ref);
    assert r == Some((30, 31));
    r := GetSubsequenceIndexes(I(2, 5), [-1, -1, -1, 0, 0, 1], ref);
    assert r == Some((0, 0));
  }

  /** When every read position the window selects is the sentinel -1, the range
      is (0, -1) and the record written for it has no bases and no qualities. */
  method SentinelOnlyWindow()
  {
    var readPositions := [-1, -1, 0];
    var refPositions := [1, 2, 3];
    assert Sorted(refPositions);
    assert FirstHit(refPositions, I(1, 2), 0) && LastHit(refPositions, I(1, 2), 1);
    var r := GetSubsequenceIndexes(I(1, 2), readPositions, refPositions);
    assert r == Some((0, -1));
    var read := Read("r", "ACG", [30, 30, 30]);
    var record := DumpIntervalFastq(I(1, 2), readPositions, refPositions, read);
    assert PySlice(read.sequence, 0, 0) == "" && PySlice(read.quality, 0, 0) == [];
    assert record == Some(FastqRecord("r", "", []));
    assert FastqRecord("r", "", []) == "@r\n\n+\n\n";
  }

  lemma RecordCase()
    ensures FastqRecord("read1", "ACGT", [0, 9, 40, 93]) == "@read1\nACGT\n+\n!*I~\n"
  {
    assert QualityString([0, 9, 40, 93]) == "!*I~";
  }

  /** `RFind` is pinned down by its contract. */
  lemma RFindIs(s: string, c: char, r: int)
    requires -1 <= r < |s|
    requires r >= 0 ==> s[r] == c
    requires forall k :: r < k < |s| ==> s[k] != c
    ensures RFind(s, c) == r
  {
  }

  /** The docstring example of `get_filename_prefix`. */
  lemma FilenamePrefixCase()
    ensures FilenamePrefix("path/to/my.fastq.gz") == "my"
  {
    var f := "path/to/my.fastq.gz";
    assert f[|f| - 3..] == ".gz";
    var s := StripGz(f);
    assert s == "path/to/my.fastq";
    RFindIs(s, '/', 7);
    var b := Basename(s);
    assert b == "my.fastq";
    RFindIs(b, '/', -1);
    RFindIs(b, '.', 2);
    assert b[0] != '.';
  }

  /** A name that is all dots before its only dot keeps that dot. */
  lemma HiddenFileCase()
    ensures FilenamePrefix("dir/.hidden") == ".hidden"
  {
    var f := "dir/.hidden";
    assert StripGz(f) == f;
    RFindIs(f, '/', 3);
    var b := Basename(f);
    assert b == ".hidden";
    RFindIs(b, '/', -1);
    RFindIs(b, '.', 0);
  }
}
