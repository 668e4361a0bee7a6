/** The per-read work of `main` and `dump_interval_fastq` (bam_slice/bam_slice.py):
    fill the gaps of one read's alignment trace once, then, for every window of
    the current batch, resolve the read range and produce the FASTQ record text
    that would be appended to that window's file. */
module SliceExtractor {

  import opened Wrappers
  import opened Seqs
  import opened Intervals
  import opened GapFill
  import opened PositionMap
  import opened Fastq

  /** What the model needs of one primary, mapped alignment: its name, its
      bases and its quality scores. */
  datatype Read = Read(name: string, sequence: string, quality: seq<byte>)

  /** Some present reference index of the raw trace lies inside the window. */
  predicate AlignsInto(pairs: seq<AlignedPair>, iv: Interval)
  {
    exists k :: 0 <= k < |pairs| && pairs[k].1.Some? && Contains(iv, pairs[k].1.value)
  }

  /** The record `dump_interval_fastq` writes when the window's first hit
      column is `f` and its last is `l`: the bases and qualities from the clamped
      read index of `f` through the read index of `l`. The slice `[start:end + 1]`
      is Python's, so an end of -1 yields empty bases and qualities. */
  function HitRecord(read: Read, readPositions: seq<int>, f: nat, l: nat): string
    requires f < |readPositions| && l < |readPositions|
  {
    var start := ClampStart(readPositions[f]);
    var end := readPositions[l];
    FastqRecord(read.name, PySlice(read.sequence, start, end + 1), PySlice(read.quality, start, end + 1))
  }

  /** `dump_interval_fastq`: the record text for this window, or `None` when the
      window misses the read. */
  method DumpIntervalFastq(iv: Interval, readPositions: seq<int>, refPositions: seq<int>, read: Read)
    returns (record: Option<string>)
    ensures |readPositions| == |refPositions| && Sorted(refPositions) ==>
              (record.None? <==> !Hits(refPositions, iv))
    ensures |readPositions| == |refPositions| && Sorted(refPositions) ==>
              forall f, l :: FirstHit(refPositions, iv, f) && LastHit(refPositions, iv, l) ==>
                record == Some(HitRecord(read, readPositions, f, l))
  {
    var range := GetSubsequenceIndexes(iv, readPositions, refPositions);
    if range.None? {
      return None;
    }
    var (start, end) := range.value;
    var subsequence := PySlice(read.sequence, start, end + 1);
    var subquality := PySlice(read.quality, start, end + 1);
    record := Some(FastqRecord(read.name, subsequence, subquality));
  }

  /** `record` is what `dump_interval_fastq` produces for the window over a
      gap-filled trace with sorted reference positions: nothing when no column
      hits, otherwise the record of the first and last hit columns. */
  ghost predicate WindowRecord(iv: Interval, readPositions: seq<int>, refPositions: seq<int>, read: Read,
                         record: Option<string>)
    requires |readPositions| == |refPositions|
  {
    && (record.None? <==> !Hits(refPositions, iv))
    && forall f, l :: FirstHit(refPositions, iv, f) && LastHit(refPositions, iv, l) ==>
         record == Some(HitRecord(read, readPositions, f, l))
  }

  /** The trace conditions pysam meets: present reference indexes are
      non-negative and non-decreasing. */
  predicate WellFormedTrace(pairs: seq<AlignedPair>)
  {
    PresentNonNegative(RefComponent(pairs)) && PresentSorted(RefComponent(pairs))
  }

  /** One read against every window of a batch: one entry per window, in window
      order. On a well-formed trace each window gets the record of its own first
      and last hit column in the gap-filled trace, and nothing when no column
      hits; a non-negative window gets a record exactly when a present
      reference index of the raw trace lies inside it. */
  method SliceRead(intervals: seq<Interval>, read: Read, pairs: seq<AlignedPair>)
    returns (records: seq<Option<string>>)
    ensures |records| == |intervals|
    ensures WellFormedTrace(pairs) ==>
              forall i :: 0 <= i < |intervals| ==>
                WindowRecord(intervals[i], FillGaps(ReadComponent(pairs)), FillGaps(RefComponent(pairs)),
                             read, records[i])
    ensures WellFormedTrace(pairs) ==>
              forall i :: 0 <= i < |intervals| && intervals[i].start >= 0 ==>
                (records[i].Some? <==> AlignsInto(pairs, intervals[i]))
  {
    var readPositions, refPositions := HandleNones(pairs);
    ghost var wellFormed := WellFormedTrace(pairs);
    if wellFormed {
      FillGapsMonotone(RefComponent(pairs));
    }
    records := [];
    var i := 0;
    while i < |intervals|
      invariant 0 <= i <= |intervals|
      invariant |records| == i
      invariant wellFormed ==>
                  forall j :: 0 <= j < i ==>
                    WindowRecord(intervals[j], readPositions, refPositions, read, records[j])
      invariant wellFormed ==>
                  forall j :: 0 <= j < i && intervals[j].start >= 0 ==>
                    (records[j].Some? <==> AlignsInto(pairs, intervals[j]))
    {
      var record := DumpIntervalFastq(intervals[i], readPositions, refPositions, read);
      if wellFormed {
        assert WindowRecord(intervals[i], readPositions, refPositions, read, record);
        if intervals[i].start >= 0 {
          FilledHitsIffPresentHits(RefComponent(pairs), intervals[i].start, intervals[i].end);
        }
      }
      records := records + [record];
      i := i + 1;
    }
  }
}
