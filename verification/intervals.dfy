/** Target positions padded into windows, and the one-pass merge of those
    windows (`merge_overlap_intervals`, `outside_interval`, `extend_interval`
    and the padding loop of `main` in bam_slice/bam_slice.py). */
module Intervals {

  import opened Seqs

  /** A window `[start, end]` in reference coordinates; both ends are later
      looked up inclusively with `bisect_left` / `bisect_right`. */
  datatype Interval = Interval(start: int, end: int)

  /** The point `p` lies in the window, both ends included. */
  predicate Contains(iv: Interval, p: int)
  {
    iv.start <= p <= iv.end
  }

  /** Some window of `xs` contains `p`. */
  predicate Covers(xs: seq<Interval>, p: int)
  {
    exists i :: 0 <= i < |xs| && Contains(xs[i], p)
  }

  predicate StartsSorted(xs: seq<Interval>)
  {
    forall i, j :: 0 <= i <= j < |xs| ==> xs[i].start <= xs[j].start
  }

  predicate EndsSorted(xs: seq<Interval>)
  {
    forall i, j :: 0 <= i <= j < |xs| ==> xs[i].end <= xs[j].end
  }

  /** Consecutive windows never strictly overlap; touching (`b.start == a.end`) is allowed. */
  predicate NoOverlap(xs: seq<Interval>)
  {
    forall i :: 0 < i < |xs| ==> xs[i].start >= xs[i - 1].end
  }

  /** `x` is the start of some window of `xs`. */
  predicate IsStartOf(x: int, xs: seq<Interval>)
  {
    exists j :: 0 <= j < |xs| && xs[j].start == x
  }

  /** `x` is the end of some window of `xs`. */
  predicate IsEndOf(x: int, xs: seq<Interval>)
  {
    exists j :: 0 <= j < |xs| && xs[j].end == x
  }

  // ---------------------------------------------------------------------
  // Padding (the loop of `main` that builds `intervals`)
  // ---------------------------------------------------------------------

  /** One position padded on both sides, the start clamped at zero. */
  function PadPosition(pos: int, padding: int): (r: Interval)
    ensures r.start >= 0
    ensures r.end - pos == padding
    ensures padding >= 0 && pos >= 0 ==> Contains(r, pos)
    ensures pos - padding >= 0 ==> pos - r.start == padding
    ensures pos - padding < 0 ==> r.start == 0
  {
    var start := if pos - padding >= 0 then pos - padding else 0;
    Interval(start, pos + padding)
  }

  function PadPositions(positions: seq<int>, padding: int): (r: seq<Interval>)
    ensures |r| == |positions|
    ensures forall i :: 0 <= i < |r| ==> r[i] == PadPosition(positions[i], padding)
  {
    seq(|positions|, i requires 0 <= i < |positions| => PadPosition(positions[i], padding))
  }

  /** Padding a sorted position list gives windows whose starts and ends are
      both non-decreasing: exactly what the merge needs for its end-overwriting
      extension to be sound. */
  lemma PaddedIsSorted(positions: seq<int>, padding: int)
    requires Sorted(positions)
    ensures StartsSorted(PadPositions(positions, padding))
    ensures EndsSorted(PadPositions(positions, padding))
  {
    var r := PadPositions(positions, padding);
    forall i, j | 0 <= i <= j < |r|
      ensures r[i].start <= r[j].start && r[i].end <= r[j].end
    {
      assert positions[i] <= positions[j];
    }
  }

  // ---------------------------------------------------------------------
  // The merge
  // ---------------------------------------------------------------------

  /** `outside_interval`: the second window starts at or after the end of the
      first, so the two are kept apart (touching windows are not merged). */
  predicate Outside(first: Interval, second: Interval)
  {
    second.start >= first.end
  }

  /** What `outside_interval` decides, in terms of points: for non-empty
      windows with the first starting no later, the two are kept apart exactly
      when the only point they may share is the first window's end. */
  lemma OutsideIffSharesAtMostEnd(a: Interval, b: Interval)
    requires a.start <= a.end && b.start <= b.end && a.start <= b.start
    ensures Outside(a, b) <==> forall p :: Contains(a, p) && Contains(b, p) ==> p == a.end
  {
    if !Outside(a, b) {
      assert Contains(a, b.start) && Contains(b, b.start);
    }
  }

  /** `extend_interval`: keeps the start of the first window and OVERWRITES its
      end with the end of the second; there is no `max`. */
  function Extend(toExtend: Interval, other: Interval): Interval
  {
    Interval(toExtend.start, other.end)
  }

  /** When the second window starts inside the first, and neither its start nor
      its end is smaller, the extension covers exactly the points of both. */
  lemma ExtendCoversBoth(a: Interval, b: Interval, p: int)
    requires !Outside(a, b)
    requires a.start <= b.start && a.end <= b.end
    ensures Contains(Extend(a, b), p) <==> Contains(a, p) || Contains(b, p)
  {
  }

  /** Without ordered ends the overwrite loses points: `[0, 10]` extended by
      `[2, 5]` is `[0, 5]`, which no longer holds 7. */
  lemma ExtendLosesPointsWhenEndsUnsorted()
    ensures !Outside(Interval(0, 10), Interval(2, 5))
    ensures Contains(Interval(0, 10), 7)
    ensures !Contains(Extend(Interval(0, 10), Interval(2, 5)), 7)
  {
  }

  /** The sweep of `merge_overlap_intervals` once `cached_interval` holds
      `cached` and `rest` is still to be read. */
  function MergeFrom(cached: Interval, rest: seq<Interval>): (r: seq<Interval>)
    decreases |rest|
    ensures 1 <= |r| <= |rest| + 1
    ensures r[0].start == cached.start
    ensures NoOverlap(r)
    ensures forall i :: 0 <= i < |r| ==> IsStartOf(r[i].start, [cached] + rest)
    ensures forall i :: 0 <= i < |r| ==> IsEndOf(r[i].end, [cached] + rest)
  {
    assert ([cached] + rest)[0] == cached;
    assert IsStartOf(cached.start, [cached] + rest) && IsEndOf(cached.end, [cached] + rest);
    if |rest| == 0 then
      [cached]
    else if Outside(cached, rest[0]) then
      var tail := MergeFrom(rest[0], rest[1..]);
      StartOfShift(tail, cached, rest);
      [cached] + tail
    else
      var tail := MergeFrom(Extend(cached, rest[0]), rest[1..]);
      ExtendShift(tail, cached, rest);
      tail
  }

  /** Bookkeeping for the flush branch: the starts and ends found in `rest`
      are found in `[cached] + rest` too. */
  lemma StartOfShift(tail: seq<Interval>, cached: Interval, rest: seq<Interval>)
    requires |rest| > 0
    requires forall i :: 0 <= i < |tail| ==> IsStartOf(tail[i].start, [rest[0]] + rest[1..])
    requires forall i :: 0 <= i < |tail| ==> IsEndOf(tail[i].end, [rest[0]] + rest[1..])
    ensures forall i :: 0 <= i < |tail| ==> IsStartOf(tail[i].start, [cached] + rest)
    ensures forall i :: 0 <= i < |tail| ==> IsEndOf(tail[i].end, [cached] + rest)
  {
    assert [rest[0]] + rest[1..] == rest;
    var all := [cached] + rest;
    forall i | 0 <= i < |tail|
      ensures IsStartOf(tail[i].start, all) && IsEndOf(tail[i].end, all)
    {
      var j :| 0 <= j < |rest| && rest[j].start == tail[i].start;
      assert all[j + 1] == rest[j];
      var k :| 0 <= k < |rest| && rest[k].end == tail[i].end;
      assert all[k + 1] == rest[k];
    }
  }

  /** Bookkeeping for the extend branch: the accumulator's start is `cached`'s,
      its end is `rest[0]`'s. */
  lemma ExtendShift(tail: seq<Interval>, cached: Interval, rest: seq<Interval>)
    requires |rest| > 0
    requires forall i :: 0 <= i < |tail| ==> IsStartOf(tail[i].start, [Extend(cached, rest[0])] + rest[1..])
    requires forall i :: 0 <= i < |tail| ==> IsEndOf(tail[i].end, [Extend(cached, rest[0])] + rest[1..])
    ensures forall i :: 0 <= i < |tail| ==> IsStartOf(tail[i].start, [cached] + rest)
    ensures forall i :: 0 <= i < |tail| ==> IsEndOf(tail[i].end, [cached] + rest)
  {
    var acc := [Extend(cached, rest[0])] + rest[1..];
    var all := [cached] + rest;
    forall i | 0 <= i < |tail|
      ensures IsStartOf(tail[i].start, all) && IsEndOf(tail[i].end, all)
    {
      var j :| 0 <= j < |acc| && acc[j].start == tail[i].start;
      if j == 0 { assert all[0].start == tail[i].start; } else { assert all[j + 1] == acc[j]; }
      var k :| 0 <= k < |acc| && acc[k].end == tail[i].end;
      if k == 0 { assert all[1].end == tail[i].end; } else { assert all[k + 1] == acc[k]; }
    }
  }

  /** `merge_overlap_intervals`: empty in, empty out; otherwise the sweep
      starts with the first window as the accumulator. */
  function MergeOverlapIntervals(xs: seq<Interval>): (r: seq<Interval>)
    ensures |r| == 0 <==> |xs| == 0
    ensures |r| <= |xs|
    ensures |xs| > 0 ==> r[0].start == xs[0].start
    ensures NoOverlap(r)
    ensures forall i :: 0 <= i < |r| ==> IsStartOf(r[i].start, xs) && IsEndOf(r[i].end, xs)
  {
    if |xs| == 0 then []
    else
      assert [xs[0]] + xs[1..] == xs;
      MergeFrom(xs[0], xs[1..])
  }

  // ---------------------------------------------------------------------
  // Which windows merge: the maximal chains of the input
  // ---------------------------------------------------------------------

  function Last<T>(s: seq<T>): T
    requires |s| > 0
  {
    s[|s| - 1]
  }

  /** The runs laid end to end. */
  function Concat(runs: seq<seq<Interval>>): seq<Interval>
  {
    if |runs| == 0 then [] else runs[0] + Concat(runs[1..])
  }

  /** Every window of `run` after the first starts before the end of the one
      before it, so the sweep extends rather than flushes. */
  predicate Chained(run: seq<Interval>)
  {
    forall j :: 0 < j < |run| ==> !Outside(run[j - 1], run[j])
  }

  /** `runs` cuts `xs`, in order, into non-empty chains, with a cut exactly
      where a window starts at or after the end of the window before it. */
  predicate MaximalRuns(xs: seq<Interval>, runs: seq<seq<Interval>>)
  {
    && Concat(runs) == xs
    && (forall i :: 0 <= i < |runs| ==> |runs[i]| > 0 && Chained(runs[i]))
    && (forall i :: 0 < i < |runs| ==> Outside(Last(runs[i - 1]), runs[i][0]))
  }

  /** `r` holds one window per run, from the run's first start to its last end. */
  predicate SpansOf(r: seq<Interval>, runs: seq<seq<Interval>>)
  {
    && |r| == |runs|
    && forall i :: 0 <= i < |r| && |runs[i]| > 0 ==> r[i] == Interval(runs[i][0].start, Last(runs[i]).end)
  }

  /** The first run of a cut is a prefix of `xs`, and the remaining runs cut
      the rest of `xs`. */
  lemma MaximalRunsTail(xs: seq<Interval>, runs: seq<seq<Interval>>)
    requires MaximalRuns(xs, runs) && |runs| > 0
    ensures |runs[0]| <= |xs| && runs[0] == xs[..|runs[0]|]
    ensures MaximalRuns(xs[|runs[0]|..], runs[1..])
    ensures |runs| > 1 <==> |runs[0]| < |xs|
    ensures |runs| > 1 ==> runs[1][0] == xs[|runs[0]|]
  {
    var n := |runs[0]|;
    var more := Concat(runs[1..]);
    assert xs == runs[0] + more;
    assert xs[n..] == more;
    var tail := runs[1..];
    forall i | 0 < i < |tail|
      ensures Outside(Last(tail[i - 1]), tail[i][0])
    {
      assert tail[i - 1] == runs[i] && tail[i] == runs[i + 1];
    }
    if |runs| > 1 {
      assert more == runs[1] + Concat(runs[2..]);
    }
  }

  /** A window list has only one cut into maximal chains. */
  lemma {:induction false} MaximalRunsUnique(xs: seq<Interval>, a: seq<seq<Interval>>, b: seq<seq<Interval>>)
    requires MaximalRuns(xs, a) && MaximalRuns(xs, b)
    ensures a == b
    decreases |xs|
  {
    if |a| == 0 || |b| == 0 {
      if |a| > 0 {
        MaximalRunsTail(xs, a);
      } else if |b| > 0 {
        MaximalRunsTail(xs, b);
      }
    } else {
      MaximalRunsTail(xs, a);
      MaximalRunsTail(xs, b);
      var n, m := |a[0]|, |b[0]|;
      if n != m {
        assert false;
      }
      MaximalRunsUnique(xs[n..], a[1..], b[1..]);
      assert a == [a[0]] + a[1..];
      assert b == [b[0]] + b[1..];
    }
  }

  /** A flush: `cached` alone is a chain of its own in front of the cut of `rest`. */
  lemma FlushRuns(cached: Interval, rest: seq<Interval>, tailRuns: seq<seq<Interval>>)
    requires |rest| > 0 && Outside(cached, rest[0]) && MaximalRuns(rest, tailRuns)
    ensures MaximalRuns([cached] + rest, [[cached]] + tailRuns)
    ensures forall r :: SpansOf(r, tailRuns) ==> SpansOf([cached] + r, [[cached]] + tailRuns)
  {
    MaximalRunsTail(rest, tailRuns);
    var runs := [[cached]] + tailRuns;
    assert runs[1..] == tailRuns;
    assert Concat(runs) == [cached] + rest;
    forall i | 0 < i < |runs|
      ensures Outside(Last(runs[i - 1]), runs[i][0])
    {
      if i > 1 {
        assert runs[i - 1] == tailRuns[i - 2] && runs[i] == tailRuns[i - 1];
      }
    }
    forall r | SpansOf(r, tailRuns)
      ensures SpansOf([cached] + r, runs)
    {
      var r' := [cached] + r;
      forall i | 0 <= i < |r'| && |runs[i]| > 0
        ensures r'[i] == Interval(runs[i][0].start, Last(runs[i]).end)
      {
        if i > 0 {
          assert r'[i] == r[i - 1] && runs[i] == tailRuns[i - 1];
        }
      }
    }
  }

  /** The cut of `[cached] + rest` when `rest[0]` overlaps `cached`: the first
      chain of the extended window's cut, with `cached, rest[0]` in place of
      the extended window. */
  function ExtendedRuns(cached: Interval, x: Interval, tailRuns: seq<seq<Interval>>): seq<seq<Interval>>
    requires |tailRuns| > 0 && |tailRuns[0]| > 0
  {
    [[cached, x] + tailRuns[0][1..]] + tailRuns[1..]
  }

  lemma ExtendedRunsConcat(cached: Interval, rest: seq<Interval>, tailRuns: seq<seq<Interval>>)
    requires |rest| > 0 && MaximalRuns([Extend(cached, rest[0])] + rest[1..], tailRuns)
    ensures |tailRuns| > 0 && |tailRuns[0]| > 0
    ensures tailRuns[0][0] == Extend(cached, rest[0])
    ensures Concat(ExtendedRuns(cached, rest[0], tailRuns)) == [cached] + rest
  {
    var ext := Extend(cached, rest[0]);
    MaximalRunsTail([ext] + rest[1..], tailRuns);
    var t0 := tailRuns[0];
    var more := t0[1..];
    var c := Concat(tailRuns[1..]);
    assert t0 == [ext] + more;
    assert [ext] + rest[1..] == t0 + c == [ext] + (more + c);
    assert ([ext] + rest[1..])[1..] == rest[1..];
    assert ([ext] + (more + c))[1..] == more + c;
    var runs := ExtendedRuns(cached, rest[0], tailRuns);
    assert runs[1..] == tailRuns[1..];
    assert Concat(runs) == [cached, rest[0]] + more + c;
    assert [cached] + rest == [cached] + ([rest[0]] + rest[1..]);
  }

  lemma ExtendedRunsChained(cached: Interval, rest: seq<Interval>, tailRuns: seq<seq<Interval>>)
    requires |rest| > 0 && !Outside(cached, rest[0])
    requires MaximalRuns([Extend(cached, rest[0])] + rest[1..], tailRuns)
    requires |tailRuns| > 0 && |tailRuns[0]| > 0 && tailRuns[0][0] == Extend(cached, rest[0])
    ensures Chained(ExtendedRuns(cached, rest[0], tailRuns)[0])
    ensures Last(ExtendedRuns(cached, rest[0], tailRuns)[0]).end == Last(tailRuns[0]).end
  {
    var t0 := tailRuns[0];
    var first := ExtendedRuns(cached, rest[0], tailRuns)[0];
    assert first == [cached, rest[0]] + t0[1..];
    forall j | 0 < j < |first|
      ensures !Outside(first[j - 1], first[j])
    {
      if j >= 2 {
        assert first[j] == t0[j - 1];
        if j == 2 {
          assert !Outside(t0[0], t0[1]);
        } else {
          assert first[j - 1] == t0[j - 2];
        }
      }
    }
  }

  /** An extension: `cached` and `rest[0]` join the first chain of the
      extended window's cut, and the sweep's windows still span the chains. */
  lemma ExtendRuns(cached: Interval, rest: seq<Interval>, tailRuns: seq<seq<Interval>>)
    requires |rest| > 0 && !Outside(cached, rest[0])
    requires MaximalRuns([Extend(cached, rest[0])] + rest[1..], tailRuns)
    ensures |tailRuns| > 0 && |tailRuns[0]| > 0
    ensures MaximalRuns([cached] + rest, ExtendedRuns(cached, rest[0], tailRuns))
    ensures forall r :: SpansOf(r, tailRuns) ==> SpansOf(r, ExtendedRuns(cached, rest[0], tailRuns))
  {
    ExtendedRunsConcat(cached, rest, tailRuns);
    ExtendedRunsChained(cached, rest, tailRuns);
    var runs := ExtendedRuns(cached, rest[0], tailRuns);
    forall i | 0 < i < |runs|
      ensures Outside(Last(runs[i - 1]), runs[i][0])
    {
      assert runs[i] == tailRuns[i];
      if i > 1 {
        assert runs[i - 1] == tailRuns[i - 1];
      }
    }
    forall r | SpansOf(r, tailRuns)
      ensures SpansOf(r, runs)
    {
      forall i | 0 <= i < |r| && |runs[i]| > 0
        ensures r[i] == Interval(runs[i][0].start, Last(runs[i]).end)
      {
        if i > 0 {
          assert runs[i] == tailRuns[i];
        }
      }
    }
  }

  /** The sweep from `cached` returns one window per maximal chain of
      `[cached] + rest`: a flush exactly at each cut, and each window spans its
      chain from the first start to the last end. */
  lemma {:induction false} MergeFromRuns(cached: Interval, rest: seq<Interval>)
    ensures exists runs :: MaximalRuns([cached] + rest, runs) && SpansOf(MergeFrom(cached, rest), runs)
    decreases |rest|
  {
    if |rest| == 0 {
      var runs := [[cached]];
      assert Concat(runs[1..]) == [];
      assert MaximalRuns([cached] + rest, runs) && SpansOf(MergeFrom(cached, rest), runs);
    } else if Outside(cached, rest[0]) {
      assert [rest[0]] + rest[1..] == rest;
      MergeFromRuns(rest[0], rest[1..]);
      var tailRuns :| MaximalRuns(rest, tailRuns) && SpansOf(MergeFrom(rest[0], rest[1..]), tailRuns);
      FlushRuns(cached, rest, tailRuns);
      assert SpansOf(MergeFrom(cached, rest), [[cached]] + tailRuns);
    } else {
      var ext := Extend(cached, rest[0]);
      MergeFromRuns(ext, rest[1..]);
      var tailRuns :| MaximalRuns([ext] + rest[1..], tailRuns) && SpansOf(MergeFrom(ext, rest[1..]), tailRuns);
      ExtendRuns(cached, rest, tailRuns);
      assert SpansOf(MergeFrom(cached, rest), ExtendedRuns(cached, rest[0], tailRuns));
    }
  }

  /** Which windows `merge_overlap_intervals` merges: for any cut of `xs` into
      maximal chains (there is exactly one, by `MaximalRunsUnique`), the result
      has one window per chain, spanning it. Overlapping neighbours end up in
      one window and touching ones in different windows. */
  lemma MergeIsSpansOfMaximalRuns(xs: seq<Interval>, runs: seq<seq<Interval>>)
    requires MaximalRuns(xs, runs)
    ensures SpansOf(MergeOverlapIntervals(xs), runs)
  {
    if |xs| == 0 {
      if |runs| > 0 {
        MaximalRunsTail(xs, runs);
      }
    } else {
      assert [xs[0]] + xs[1..] == xs;
      MergeFromRuns(xs[0], xs[1..]);
      var found :| MaximalRuns(xs, found) && SpansOf(MergeFrom(xs[0], xs[1..]), found);
      MaximalRunsUnique(xs, found, runs);
    }
  }

  /** Every window list has a cut into maximal chains. */
  lemma MaximalRunsExist(xs: seq<Interval>)
    ensures exists runs :: MaximalRuns(xs, runs)
  {
    if |xs| == 0 {
      assert MaximalRuns(xs, []);
    } else {
      assert [xs[0]] + xs[1..] == xs;
      MergeFromRuns(xs[0], xs[1..]);
    }
  }

  /** On windows sorted by start and by end, the sweep covers exactly the
      points the windows cover. */
  lemma {:induction false} MergeFromCovers(cached: Interval, rest: seq<Interval>, p: int)
    requires StartsSorted([cached] + rest) && EndsSorted([cached] + rest)
    ensures Covers(MergeFrom(cached, rest), p) <==> Covers([cached] + rest, p)
    decreases |rest|
  {
    var all := [cached] + rest;
    if |rest| == 0 {
      assert all == [cached];
    } else {
      var next := rest[0];
      assert all[1] == next;
      assert forall k :: 0 <= k < |rest| ==> all[k + 1] == rest[k];
      var tailIn := [next] + rest[1..];
      assert tailIn == rest;
      if Outside(cached, next) {
        var tail := MergeFrom(next, rest[1..]);
        MergeFromCovers(next, rest[1..], p);
        assert MergeFrom(cached, rest) == [cached] + tail;
        CoversCons(cached, tail, p);
        CoversCons(cached, rest, p);
      } else {
        var ext := Extend(cached, next);
        var extIn := [ext] + rest[1..];
        forall i, j | 0 <= i <= j < |extIn|
          ensures extIn[i].start <= extIn[j].start && extIn[i].end <= extIn[j].end
        {
          if i == 0 {
            assert all[0].start <= all[j + 1].start;
            assert all[1].end <= all[j + 1].end;
          } else {
            assert extIn[i] == all[i + 1] && extIn[j] == all[j + 1];
          }
        }
        MergeFromCovers(ext, rest[1..], p);
        CoversCons(ext, rest[1..], p);
        CoversCons(cached, rest, p);
        CoversCons(next, rest[1..], p);
        assert all[0].start <= all[1].start && all[0].end <= all[1].end;
        ExtendCoversBoth(cached, next, p);
      }
    }
  }

  /** Covering by a window list with one window in front. */
  lemma CoversCons(head: Interval, tail: seq<Interval>, p: int)
    ensures Covers([head] + tail, p) <==> Contains(head, p) || Covers(tail, p)
  {
    var all := [head] + tail;
    if Contains(head, p) {
      assert all[0] == head;
    }
    if Covers(tail, p) {
      var i :| 0 <= i < |tail| && Contains(tail[i], p);
      assert all[i + 1] == tail[i];
    }
    if Covers(all, p) {
      var i :| 0 <= i < |all| && Contains(all[i], p);
      if i > 0 { assert all[i] == tail[i - 1]; assert Contains(tail[i - 1], p); }
    }
  }

  /** The merge preserves the union of covered points on start- and end-sorted input. */
  lemma MergeCovers(xs: seq<Interval>, p: int)
    requires StartsSorted(xs) && EndsSorted(xs)
    ensures Covers(MergeOverlapIntervals(xs), p) <==> Covers(xs, p)
  {
    if |xs| > 0 {
      assert [xs[0]] + xs[1..] == xs;
      MergeFromCovers(xs[0], xs[1..], p);
    }
  }

  /** Windows that already do not overlap go through the sweep unchanged. */
  lemma {:induction false} MergeFromKeepsDisjoint(cached: Interval, rest: seq<Interval>)
    requires NoOverlap([cached] + rest)
    ensures MergeFrom(cached, rest) == [cached] + rest
    decreases |rest|
  {
    if |rest| > 0 {
      var all := [cached] + rest;
      assert all[0] == cached && all[1] == rest[0];
      assert all[1].start >= all[0].end;
      assert [rest[0]] + rest[1..] == rest;
      forall i | 0 < i < |rest|
        ensures rest[i].start >= rest[i - 1].end
      {
        assert all[i + 1] == rest[i] && all[i] == rest[i - 1];
      }
      MergeFromKeepsDisjoint(rest[0], rest[1..]);
    }
  }

  /** Merging is idempotent: a merged list is a fixed point of the merge. */
  lemma MergeIdempotent(xs: seq<Interval>)
    ensures MergeOverlapIntervals(MergeOverlapIntervals(xs)) == MergeOverlapIntervals(xs)
  {
    var m := MergeOverlapIntervals(xs);
    if |m| > 0 {
      assert [m[0]] + m[1..] == m;
      MergeFromKeepsDisjoint(m[0], m[1..]);
    }
  }

  /** End to end for `main`: merging the padded windows of sorted positions
      covers a point exactly when it is non-negative and within `padding` of
      some target position. */
  lemma PaddedMergeCovers(positions: seq<int>, padding: int, p: int)
    requires Sorted(positions)
    ensures Covers(MergeOverlapIntervals(PadPositions(positions, padding)), p)
        <==> p >= 0 && exists i :: 0 <= i < |positions| && positions[i] - padding <= p <= positions[i] + padding
  {
    var padded := PadPositions(positions, padding);
    PaddedIsSorted(positions, padding);
    MergeCovers(padded, p);
    if Covers(padded, p) {
      var i :| 0 <= i < |padded| && Contains(padded[i], p);
      assert positions[i] - padding <= p <= positions[i] + padding;
    }
    if p >= 0 && exists i :: 0 <= i < |positions| && positions[i] - padding <= p <= positions[i] + padding {
      var i :| 0 <= i < |positions| && positions[i] - padding <= p <= positions[i] + padding;
      assert Contains(padded[i], p);
    }
  }
}
