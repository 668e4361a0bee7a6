# bam_slice coordinate mapping, in Dafny

`bam_slice` cuts, for a list of target reference positions, the matching
pieces out of every primary aligned read of a SAM/BAM file. It is meant to
write one gzipped FASTQ file per window. (What the output code does as written
is described under "Left out".) This project models the pure logic that does
the coordinate work:

- **Windows.** Each sorted target position is padded into the window
  `[max(pos - padding, 0), pos + padding]`. The windows are then merged in one
  left-to-right sweep (`merge_overlap_intervals`). The sweep keeps one cached
  window. It flushes that window when the next one starts at or after its end
  (`outside_interval`; touching windows stay apart). Otherwise it overwrites the
  cached end with the next window's end (`extend_interval`; no `max`).
- **Gap filling.** `handle_nones` turns a read's alignment trace, a list of
  `(read index?, reference index?)` columns, into two dense lists. A missing
  index repeats the previous present index of the same component. Before the
  first present index it is `-1`.
- **Range resolution.** `ref_interval_indexes` finds the columns of a window
  with `bisect_left` on the window start and `bisect_right` on the window end.
  `get_subsequence_indexes` takes the read indexes of those columns and
  returns `(first, last)`, with a negative first clamped to 0. It returns
  `None` when no column is selected.
- **Glue.** The per-read loop of `main` and `dump_interval_fastq` use the
  same pieces. So do the cutting of the merged windows into batches of at
  most `FILE_LIMIT`, the FASTQ record text of `append_fastq`, and
  `get_filename_prefix`.

Modules: `Wrappers` (Option), `Seqs` (sortedness and Python's slice semantics),
`Intervals`, `GapFill`, `Bisect`, `PositionMap`, `Fastq`, `Filename`,
`Batches`, `SliceExtractor`, and `Examples` (the unit-test and docstring cases).

Design choices:

- **Closed windows.** A window holds its start and its end. That is how the
  code uses a window: `bisect_left(start)` and `bisect_right(end)` select
  reference positions `p` with `start <= p <= end`. The merge still keeps
  touching windows apart (`[6, 9]` and `[9, 12]` stay two windows), as the
  docstring of `outside_interval` says (bam_slice/bam_slice.py:69-71).
- **Which windows merge.** A window list cuts, in exactly one way, into
  maximal chains. Inside a chain, each window starts before the end of the one
  before it. Between chains, a window starts at or after the previous end
  (`MaximalRuns`, `MaximalRunsExist`, `MaximalRunsUnique`). The merge returns
  one window per chain, from the chain's first start to its last end
  (`MergeIsSpansOfMaximalRuns`). For example, `[6, 9], [8, 12], [11, 14],
  [14, 16]` has the chains `[6, 9], [8, 12], [11, 14]` and `[14, 16]`.
- **Extension overwrites the end.** `Extend` is modelled exactly as written.
  `ExtendLosesPointsWhenEndsUnsorted` shows that this loses points when ends
  are not sorted. `PaddedIsSorted` shows that padding sorted positions always
  gives sorted starts and ends. Under that condition the merge keeps the union
  (`MergeCovers`, `PaddedMergeCovers`).
- **Bisection is Python's loop.** `BisectLeft` and `BisectRight` use Python's
  loop, `mid = (lo + hi) // 2`, and they are total. On a non-decreasing list
  they are proved equal to counting functions (`CountBelow`, `CountAtMost`).
- **Python slicing is total.** Negative bounds count from the end, and bounds
  are clamped. So `get_subsequence_indexes` and `dump_interval_fastq` are
  total too. A range `(0, -1)` turns into the empty slice `[0:0]`.
- **No malformed-input checks.** The code does not check that windows are
  sorted, and it lets a column with both indexes absent through. The model
  does the same: nothing fails fast. Sorting is a hypothesis of the lemmas
  that need it.
- **A docstring example is off by one.** The first docstring example of
  `ref_interval_indexes` gives `(2, 8)` for the window `[2, 5]` over
  `[1, 1, 2, 2, 2, 3, 4, 5, 5]`. `bisect_right` returns 9 there, and the model
  follows the code (`Examples.RefIntervalIndexesRepeatsCase`).

## Model

| member | source | states |
|---|---|---|
| Intervals.PadPosition | bam_slice/bam_slice.py:335-338 | a padded window never starts below 0; it ends `padding` after the position; it holds the position when both are non-negative; unclamped, it starts `padding` before the position; when `pos - padding` is negative it starts at exactly 0 |
| Intervals.PadPositions | bam_slice/bam_slice.py:334-338 | one window per position, in position order, window `i` being position `i` padded |
| Intervals.PaddedIsSorted | bam_slice/bam_slice.py:327-338 | padding a sorted position list gives windows whose starts and whose ends are both non-decreasing |
| Intervals.OutsideIffSharesAtMostEnd | bam_slice/bam_slice.py:57-79 | `outside_interval` holds of two non-empty windows, the first starting no later, exactly when the only point they may share is the first window's end, so touching windows count as apart |
| Intervals.Outside | bam_slice/bam_slice.py:79 | no ensures: a predicate; its meaning is stated by `OutsideIffSharesAtMostEnd` |
| Intervals.Extend | bam_slice/bam_slice.py:82-96 | no ensures: keeps the first start and overwrites the end; `ExtendCoversBoth` and `ExtendLosesPointsWhenEndsUnsorted` state when that covers both windows |
| Intervals.ExtendCoversBoth | bam_slice/bam_slice.py:82-96 | extending an overlapped window by a later window with no smaller start or end covers exactly the points of the two windows |
| Intervals.ExtendLosesPointsWhenEndsUnsorted | bam_slice/bam_slice.py:95 | when the later window ends earlier, the end-overwriting extension drops covered points (`[0,10]` by `[2,5]` loses 7) |
| Intervals.MergeFrom | bam_slice/bam_slice.py:40-52 | the sweep from a cached window returns at least one and at most one-more-than-remaining windows; it starts at the cached start; consecutive outputs never strictly overlap; every output start and end is a start and end of the input |
| Intervals.MergeOverlapIntervals | bam_slice/bam_slice.py:37-54 | output is empty exactly when input is; it is no longer than the input; it starts at the first input start; consecutive outputs satisfy `b.start >= a.end`; starts and ends are drawn from the input (which windows merge is stated by `MergeIsSpansOfMaximalRuns`) |
| Intervals.MaximalRunsTail | bam_slice/bam_slice.py:40-52 | a cut of a window list into maximal chains is its first chain, a prefix, followed by a cut of the rest, and the next chain starts right after the prefix |
| Intervals.MaximalRunsUnique | bam_slice/bam_slice.py:45-50 | a window list has at most one cut into chains in which each window starts before the previous one ends and each cut falls where a window starts at or after the previous end |
| Intervals.MaximalRunsExist | bam_slice/bam_slice.py:45-50 | every window list has such a cut |
| Intervals.FlushRuns | bam_slice/bam_slice.py:45-47 | when the next window starts at or after the cached end, the cached window is a chain of its own and the result gains one spanning window in front |
| Intervals.ExtendRuns | bam_slice/bam_slice.py:48-49 | when the next window starts before the cached end, the two join the first chain of the rest, and the same windows still span the chains |
| Intervals.MergeFromRuns | bam_slice/bam_slice.py:40-52 | the sweep from a cached window returns one window per maximal chain of the cached window followed by the rest, running from the chain's first start to its last end |
| Intervals.MergeIsSpansOfMaximalRuns | bam_slice/bam_slice.py:18-29 | the merge result has one window per maximal chain of the input, spanning the chain: windows that overlap their predecessor join its window, and windows that start at or after it (touching ones included, as at line 79) start a new one |
| Intervals.MergeFromCovers | bam_slice/bam_slice.py:40-52 | on windows sorted by start and by end, the sweep covers exactly the points the windows cover |
| Intervals.MergeCovers | bam_slice/bam_slice.py:37-54 | on windows sorted by start and by end, merging preserves the union of covered points |
| Intervals.MergeFromKeepsDisjoint | bam_slice/bam_slice.py:45-47 | windows that already do not overlap pass through the sweep unchanged |
| Intervals.MergeIdempotent | bam_slice/bam_slice.py:37-54 | merging a merged list changes nothing |
| Intervals.PaddedMergeCovers | bam_slice/bam_slice.py:334-339 | the merged padded windows of sorted positions cover a point exactly when it is non-negative and within `padding` of some target position |
| GapFill.LastPresent | bam_slice/bam_slice.py:119-132 | the carried "previous" value is -1 when nothing is present so far, and otherwise a value that is present |
| GapFill.LastPresentIsLast | bam_slice/bam_slice.py:119-132 | the carried value is the one at the last present index |
| GapFill.FillGaps | bam_slice/bam_slice.py:117-132 | the reference definition of one filled component; its ensures gives only the length, and `FillGapsSpec` states its content |
| GapFill.FillGapsSpec | bam_slice/bam_slice.py:99-133 | a filled component has the input's length; present values are copied; an absent value becomes the nearest preceding present value of that component, or -1 when there is none |
| GapFill.HandleNones | bam_slice/bam_slice.py:117-133 | the two-accumulator loop returns exactly the filled read component and the filled reference component |
| GapFill.FillGapsMonotone | bam_slice/bam_slice.py:119-132 | with non-negative, non-decreasing present values, the filled component is non-decreasing and at least -1; it is -1 exactly on the leading run before the first present value |
| GapFill.LastPresentDominates | bam_slice/bam_slice.py:119-132 | with sorted present values, the carried value is at least every present value seen |
| GapFill.FilledHitsIffPresentHits | bam_slice/bam_slice.py:121-126 | for a window starting at 0 or later, some filled reference value lies in it exactly when some present reference index does |
| Bisect.CountBelowAtSplit | bam_slice/bam_slice.py:165 | an index that splits a list into entries below `x` and entries at or above `x` is the count of entries below `x` |
| Bisect.BisectLeft | bam_slice/bam_slice.py:165 | `bisect_left` returns an index within the list; on a sorted list it is the number of entries `< x`, with everything before it `< x` and everything from it on `>= x` |
| Bisect.BisectRight | bam_slice/bam_slice.py:165 | `bisect_right` returns an index within the list; on a sorted list it is the number of entries `<= x`, with everything before it `<= x` and everything from it on `> x` |
| PositionMap.RefIntervalIndexes | bam_slice/bam_slice.py:136-165 | on sorted reference positions, `lo` counts entries `< start` and `hi` counts entries `<= end`; a column lies in `[lo, hi)` exactly when its position lies in the window; `lo < hi` exactly when some position does |
| PositionMap.ClampStart | bam_slice/bam_slice.py:212-215 | the clamped start is the least natural number at or above the read index: at least the index, and either the index itself or 0 |
| PositionMap.GetSubsequenceIndexes | bam_slice/bam_slice.py:168-217 | the start index is never negative; for a gap-filled trace with sorted reference positions, the result is `None` exactly when no reference position lies in the window; otherwise it is the clamped read index of the first hit column and the read index of the last hit column |
| Seqs.PySlice | bam_slice/bam_slice.py:203 | Python's `s[i:j]` for any integers: the plain slice when `0 <= i <= j <= len(s)`; empty when `0 <= j <= i`; otherwise the run between the two normalised bounds (`SliceBound`), with that length (0 when the bounds cross) and element `k` being element `k` after the normalised start |
| Seqs.SliceBound | bam_slice/bam_slice.py:203 | Python's bound normalisation: a bound in `[0, n]` is kept; a negative bound down to `-n` counts from the end; a bound above `n` becomes `n`; a bound below `-n` becomes 0 |
| Fastq.QualityString | bam_slice/bam_slice.py:258 | each quality score `q` becomes the character with code `q + 33`; the string has one character per score and no newline |
| Fastq.DecodeQualityString | bam_slice/bam_slice.py:258 | the quality line decodes back to the scores |
| Fastq.SplitLineAfter | bam_slice/bam_slice.py:259-260 | a line free of newlines followed by a newline is split off exactly |
| Fastq.FastqRecord | bam_slice/bam_slice.py:259-260 | no ensures: the four-line record text; `RecordRoundTrip` states that it parses back to its parts |
| Fastq.RecordRoundTrip | bam_slice/bam_slice.py:247-260 | the written record `@name`, bases, `+`, qualities parses back to the name, bases and scores whenever name and bases hold no newline |
| Filename.StripGz | bam_slice/bam_slice.py:279-282 | a trailing `.gz` is removed, and only that |
| Filename.Basename | bam_slice/bam_slice.py:280-282 | the base name holds no `/`; it is a suffix of the path, preceded by a `/` when shorter |
| Filename.SplitExt | bam_slice/bam_slice.py:280-282 | `os.path.splitext`: root and extension put back together give the path; a non-empty extension is a dot followed by no dot or `/`, and is split off only when some character before it in the last component is not a dot; an empty extension means everything between the last `/` and the last dot is dots |
| Filename.SplitExtOfName | bam_slice/bam_slice.py:280-282 | within one path component, the kept root is a prefix with no `/` followed by at most one extension, a dot and then no other dot; the extension is dropped only when some character of the root is not a dot, and kept only when all before the last dot are dots |
| Filename.FilenamePrefix | bam_slice/bam_slice.py:263-284 | no ensures: `splitext(basename(...))[0]` after `.gz` removal; `FilenamePrefixSpec` states what it keeps |
| Filename.FilenamePrefixSpec | bam_slice/bam_slice.py:263-284 | the prefix holds no `/`; it is the base name (after `.gz` removal) minus at most one extension, with the leading-dot rule of `splitext` |
| Batches.BatchCount | bam_slice/bam_slice.py:343 | `ceil(n / limit)`: enough batches to hold every window, and no more |
| Batches.MakeBatches | bam_slice/bam_slice.py:343-349 | there are exactly `ceil(n / FILE_LIMIT)` batches; `BatchSizes`, `BatchIsSlice` and `BatchesCoverAll` state their content |
| Batches.Batch | bam_slice/bam_slice.py:348-349 | no ensures: the Python slice `[i * FILE_LIMIT:(i + 1) * FILE_LIMIT]`; `BatchIsSlice` states which windows it holds |
| Batches.BatchSizes | bam_slice/bam_slice.py:343-349 | every batch is non-empty and holds at most `FILE_LIMIT` windows; all but the last hold exactly `FILE_LIMIT` |
| Batches.BatchIsSlice | bam_slice/bam_slice.py:348-349 | batch `i` is the windows from `i * FILE_LIMIT` up to the next bound or the end, never past the end |
| Batches.FlattenPrefix | bam_slice/bam_slice.py:346-349 | the first `i` batches, laid end to end, are the first `i * FILE_LIMIT` windows |
| Batches.BatchesCoverAll | bam_slice/bam_slice.py:343-349 | the batches, laid end to end, are exactly the merged windows, in order |
| SliceExtractor.HitRecord | bam_slice/bam_slice.py:240-244 | no ensures: the record for a window whose first and last hit columns are given, with bases and qualities sliced `[start:end + 1]`; `DumpIntervalFastq` and `SliceRead` state when it is the one produced |
| SliceExtractor.DumpIntervalFastq | bam_slice/bam_slice.py:220-244 | on a gap-filled trace with sorted reference positions, nothing is written exactly when no reference position lies in the window; otherwise the record holds the bases and qualities from the clamped first hit to the last hit, inclusive, in Python's slice semantics |
| SliceExtractor.SliceRead | bam_slice/bam_slice.py:360-377 | one result per window of the batch, in order; for a trace whose present reference indexes are non-negative and non-decreasing, window `i` gets nothing exactly when no filled reference position lies in it, and otherwise the record of its own first and last hit columns (`WindowRecord`); a window at 0 or later gets a record exactly when a present reference index of the raw trace lies inside it |
| Examples.MergeDocstringCase | bam_slice/bam_slice.py:31-34 | `[[1,4],[3,7],[10,14]]` merges to `[[1,7],[10,14]]` |
| Examples.MergeNoOverlapCase | tests/test_bam_slice.py:6-19 | windows that do not overlap are returned unchanged |
| Examples.MergeTouchingCase | tests/test_bam_slice.py:21-32 | `[6,9]` and `[9,12]` stay apart |
| Examples.MergeTwoOverlapCase | tests/test_bam_slice.py:34-44 | `[6,9]` and `[8,12]` merge to `[6,12]` |
| Examples.MergeThreeOverlapCase | tests/test_bam_slice.py:46-57 | three chained windows merge to `[6,14]` |
| Examples.MergeOverlapThenTouchCase | tests/test_bam_slice.py:59-72 | the chain merges to `[6,14]`, and the touching `[14,16]` stays apart |
| Examples.FillReadColumnCase | bam_slice/bam_slice.py:111-114 | the read column of the `handle_nones` docstring fills to `[1, 1, 2]` |
| Examples.FillRefColumnCase | bam_slice/bam_slice.py:111-114 | the reference column of the `handle_nones` docstring fills to `[1, 2, 2]` |
| Examples.PaddingCase | bam_slice/bam_slice.py:334-339 | positions 3, 10, 12 padded by 5 give `[0,8],[5,15],[7,17]`, which merge to `[0,17]` |
| Examples.RecordCase | bam_slice/bam_slice.py:258-260 | scores 0, 9, 40, 93 are written as `!*I~` in the four-line record |
| Examples.FilenamePrefixCase | bam_slice/bam_slice.py:273-276 | `path/to/my.fastq.gz` gives `my` |
| Examples.HiddenFileCase | bam_slice/bam_slice.py:282 | `dir/.hidden` keeps its leading dot: `.hidden` |

The unit tests of `handle_nones` and `get_subsequence_indexes` are checked as
assertions in the methods of `Examples`, since the operations are methods
there. Those methods are `HandleNonesDocstringCase`, `HandleNones*GapCase`,
`RefIntervalIndexes*Case`, `OneToOneCase`, `StartOfRefCase`, `RepeatedRefCase`,
`RepeatOnEndCase`, `NoOverlapCase`,
`RepeatedReadCases` and `SentinelOnlyWindow`.

## Left out

- pysam: opening the alignment file, iterating reads, the unmapped, secondary
  and supplementary filter, and `get_aligned_pairs` are a foreign library. The
  alignment trace and the read's name, bases and qualities are parameters.
- gzip and file output. The model returns the record text that
  `append_fastq` passes to `write`; `DumpIntervalFastq` returns it instead of
  writing it. As written, the output code does not produce the intended files:
  - Every `GzipFile` gets `fileobj=OUT` (bam_slice/bam_slice.py:370-371). That
    is the one module-level `io.StringIO` of line 15, so no file named
    `filename` is opened; `filename` only names the stream.
  - In write mode, `GzipFile`'s constructor writes its bytes header to that
    text buffer at once. A text buffer accepts only `str`, so it raises
    `TypeError`.
  - The run therefore stops at line 370, at the first window of the first
    primary read, before any record is written.
  - Even past that point, `append_fastq` passes a `str` to `GzipFile.write`,
    which takes bytes.
- The output file name `{prefix}_{start}-{end}.fastq.gz` and the
  `os.path.join` with the output directory are not modelled. They are string
  formatting with no effect on which bases are cut.
- The command line (click) and reading the positions (pandas CSV, or stdin).
  Sorting and de-duplicating the positions is not modelled. The lemmas that
  need sorted positions take sortedness as a hypothesis. Stdin positions are
  unparsed strings in the source; that belongs to this I/O layer.
- `resource.getrlimit`: the source sets `FILE_LIMIT` to the soft open-file
  limit minus 5 (bam_slice/bam_slice.py:14). Here it is the parameter
  `fileLimit`, assumed positive. Smaller limits are not modelled:
  - A soft limit of exactly 5 makes `FILE_LIMIT` 0, and line 343 divides by
    zero.
  - A soft limit below 5 makes `FILE_LIMIT` negative. Then
    `ceil(n / FILE_LIMIT) <= 0`, `range` is empty, and no batch is processed.
- `math.ceil` on a float quotient is modelled as exact integer ceiling
  division. Rounding of very large counts is not modelled.
- Intervals.MergeOverlapIntervals: `extend_interval` mutates the cached list
  in place. That list is the caller's own first window of each merged run,
  so the source also rewrites its input list. The model returns new values
  and does not model this aliasing.
- Intervals.MergeCovers: union preservation is proved only for windows sorted
  by both start and end. That is what `main` supplies (`PaddedIsSorted`).
  Other inputs lose points, as `ExtendLosesPointsWhenEndsUnsorted` shows.
- Bisect.BisectLeft: what the returned index means is stated only for
  non-decreasing lists, which is the documented precondition of `bisect`. On
  other lists only the bound `lo <= |a|` is stated.
- Bisect.BisectRight: as for `BisectLeft`.
- PositionMap.GetSubsequenceIndexes: the hit-based description is stated only
  when the read and reference lists have equal length and the reference list
  is sorted, as `handle_nones` output of a pysam trace is. Otherwise only the
  non-negative start is stated.
- SliceExtractor.DumpIntervalFastq: same conditions as
  `GetSubsequenceIndexes`.
- SliceExtractor.SliceRead: what each window gets is stated for traces with
  non-negative, non-decreasing reference indexes, as pysam traces are. The
  comparison with the raw trace is stated for windows starting at 0 or later,
  as padded windows do.
- A read without bases (SEQ `*`, so `query_sequence` is `None`) or without
  qualities (`query_qualities` is `None`) makes line 241 or 242 fail. That is
  not modelled: a read's bases are always a string and its qualities always a
  byte list.
