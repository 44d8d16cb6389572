/** The scheduler's report over the serial line: tested frames are collected and now and then written as ranges. */
module Reporting {
  import Report

  /** Both bounds inclusive. */
  datatype Range = Range(first: nat, last: nat)

  function Frames(r: Range): seq<nat>
    decreases r.last
  {
    if r.last < r.first then []
    else if r.last == 0 then [0]
    else Frames(Range(r.first, r.last - 1)) + [r.last]
  }

  /** A range stands for the frames from its first to its last. */
  lemma {:induction false} FramesAre(r: Range, i: nat)
    requires r.first <= r.last
    ensures |Frames(r)| == r.last - r.first + 1
    ensures i < |Frames(r)| ==> Frames(r)[i] == r.first + i
    decreases r.last
  {
    if r.first < r.last {
      FramesAre(Range(r.first, r.last - 1), i);
    }
  }

  function Expand(ranges: seq<Range>): seq<nat> {
    if ranges == [] then [] else Expand(ranges[..|ranges| - 1]) + Frames(ranges[|ranges| - 1])
  }

  function Insert(s: seq<nat>, x: nat): seq<nat> {
    if s == [] || s[|s| - 1] <= x then s + [x] else Insert(s[..|s| - 1], x) + [s[|s| - 1]]
  }

  /** The list in ascending order. */
  function Sorted(s: seq<nat>): seq<nat> {
    if s == [] then [] else Insert(Sorted(s[..|s| - 1]), s[|s| - 1])
  }

  predicate Ascending(s: seq<nat>) {
    forall i, j :: 0 <= i < j < |s| ==> s[i] <= s[j]
  }

  lemma {:induction false} InsertKeeps(s: seq<nat>, x: nat)
    ensures multiset(Insert(s, x)) == multiset(s) + multiset{x}
  {
    if s != [] && s[|s| - 1] > x {
      InsertKeeps(s[..|s| - 1], x);
      assert s == s[..|s| - 1] + [s[|s| - 1]];
    }
  }

  lemma {:induction false} InsertSorts(s: seq<nat>, x: nat)
    requires Ascending(s)
    ensures Ascending(Insert(s, x))
  {
    if s != [] && s[|s| - 1] > x {
      var rest := s[..|s| - 1];
      InsertSorts(rest, x);
      InsertKeeps(rest, x);
      forall i | 0 <= i < |Insert(rest, x)|
        ensures Insert(rest, x)[i] <= s[|s| - 1]
      {
        assert Insert(rest, x)[i] in multiset(Insert(rest, x));
        assert Insert(rest, x)[i] == x || Insert(rest, x)[i] in rest;
      }
      AscendingEnd(Insert(rest, x), s[|s| - 1]);
    }
  }

  lemma AscendingEnd(s: seq<nat>, x: nat)
    requires Ascending(s) && forall i :: 0 <= i < |s| ==> s[i] <= x
    ensures Ascending(s + [x])
  {
  }

  lemma {:induction false} SortedSorts(s: seq<nat>)
    ensures Ascending(Sorted(s)) && multiset(Sorted(s)) == multiset(s)
  {
    if s != [] {
      SortedSorts(s[..|s| - 1]);
      InsertSorts(Sorted(s[..|s| - 1]), s[|s| - 1]);
      InsertKeeps(Sorted(s[..|s| - 1]), s[|s| - 1]);
      assert s == s[..|s| - 1] + [s[|s| - 1]];
    }
  }

  lemma ExpandNext(ranges: seq<Range>, r: Range)
    ensures Expand(ranges + [r]) == Expand(ranges) + Frames(r)
  {
    assert (ranges + [r])[..|ranges|] == ranges;
  }

  /** No range can be joined with the next one. */
  ghost predicate Maximal(ranges: seq<Range>) {
    && (forall i :: 0 <= i < |ranges| ==> ranges[i].first <= ranges[i].last)
    && forall i :: 0 <= i < |ranges| - 1 ==> ranges[i + 1].first != ranges[i].last + 1
  }

  /** The written ranges and the one begun, from `first` to `prev`, stand for `frames`. */
  ghost predicate Stands(ranges: seq<Range>, first: Report.Option<nat>, prev: int, frames: seq<nat>) {
    match first
    case None => ranges == [] && frames == [] && prev == -2
    case Some(f) =>
      && f <= prev && Maximal(ranges + [Range(f, prev)]) && Expand(ranges + [Range(f, prev)]) == frames
  }

  lemma StandsNext(ranges: seq<Range>, first: Report.Option<nat>, prev: int, frames: seq<nat>, pfn: nat)
    requires Stands(ranges, first, prev, frames)
    ensures pfn == prev + 1 ==> Stands(ranges, first, pfn, frames + [pfn])
    ensures pfn != prev + 1 ==>
      Stands(if first.Some? then ranges + [Range(first.value, prev)] else ranges, Report.Some(pfn), pfn, frames + [pfn])
  {
    hide Expand, Frames;
    NothingExpanded();
    FramesEnd(pfn, pfn);
    if first.Some? {
      var f := first.value;
      ExpandNext(ranges, Range(f, prev));
      ExpandNext(ranges, Range(f, pfn));
      ExpandNext(ranges + [Range(f, prev)], Range(pfn, pfn));
      if pfn == prev + 1 {
        FramesEnd(f, pfn);
        var before, now := ranges + [Range(f, prev)], ranges + [Range(f, pfn)];
        assert forall i :: 0 <= i < |now| ==> now[i].first == before[i].first;
        assert forall i :: 0 <= i < |ranges| ==> now[i].last == before[i].last;
      }
    } else {
      ExpandNext([], Range(pfn, pfn));
    }
  }

  /** The ranges of a list: expanding them gives the list back, repeated frames included. */
  method Compress(frames: seq<nat>) returns (ranges: seq<Range>)
    ensures Expand(ranges) == frames
    ensures Maximal(ranges)
  {
    hide Expand, Frames, Maximal;
    NothingExpanded();
    ranges := [];
    var rangeStart: Report.Option<nat>, prev: int := Report.None, -2;
    var i := 0;
    while i < |frames|
      invariant 0 <= i <= |frames|
      invariant Stands(ranges, rangeStart, prev, frames[..i])
    {
      var pfn := frames[i];
      assert frames[..i + 1] == frames[..i] + [pfn];
      StandsNext(ranges, rangeStart, prev, frames[..i], pfn);
      if pfn != prev + 1 {
        if rangeStart.Some? {
          ranges := ranges + [Range(rangeStart.value, prev)];
        }
        rangeStart := Report.Some(pfn);
      }
      prev := pfn;
      i := i + 1;
    }
    if rangeStart.Some? {
      ranges := ranges + [Range(rangeStart.value, prev)];
    }
    assert frames[..|frames|] == frames;
  }

  lemma NothingExpanded()
    ensures Expand([]) == [] && Maximal([])
  {
  }

  lemma FramesEnd(first: nat, last: nat)
    requires first <= last
    ensures Frames(Range(first, last)) == (if last == first then [] else Frames(Range(first, last - 1))) + [last]
  {
  }

  function ExpandAll(lines: seq<seq<Range>>): seq<nat> {
    if lines == [] then [] else ExpandAll(lines[..|lines| - 1]) + Expand(lines[|lines| - 1])
  }

  /** With a serial line, one more line is written, whose ranges are the frames in ascending order. */
  ghost predicate Written(before: seq<seq<Range>>, after: seq<seq<Range>>, serdev: bool, frames: seq<nat>) {
    if serdev && frames != [] then
      |after| == |before| + 1 && after[..|before|] == before && Maximal(after[|before|]) && Expand(after[|before|]) == Sorted(frames)
    else after == before
  }

  class PrintSchedulerReporting {
    const chunksize: nat
    const serdev: bool
    var framesTested: nat
    var testedFrames: seq<nat>
    var lines: seq<seq<Range>>  // what was written
    ghost var reported: seq<nat>

    constructor (chunksize: nat, serdev: bool)
      ensures Valid() && this.chunksize == chunksize && this.serdev == serdev && reported == [] && lines == []
    {
      this.chunksize, this.serdev := chunksize, serdev;
      framesTested, testedFrames, lines, reported := 0, [], [], [];
    }

    /** With a serial line, every reported frame was written or still waits to be, as often as it was reported. */
    ghost predicate Valid()
      reads this
    {
      && framesTested == |reported|
      && (serdev ==> multiset(ExpandAll(lines)) + multiset(testedFrames) == multiset(reported))
    }

    method ReportFrameTested(pfn: nat)
      requires Valid()
      modifies this
      ensures Valid() && reported == old(reported) + [pfn]
      ensures if chunksize != 0 && |reported| % chunksize == 0
              then testedFrames == [] && Written(old(lines), lines, serdev, old(testedFrames) + [pfn])
              else testedFrames == old(testedFrames) + [pfn] && lines == old(lines)
    {
      framesTested := framesTested + 1;
      testedFrames := testedFrames + [pfn];
      reported := reported + [pfn];
      if chunksize != 0 {
        if framesTested % chunksize == 0 {
          PrintStats();
        }
      }
    }

    /** The tested frames are written in ascending order, and forgotten. */
    method PrintStats()
      requires Valid()
      modifies `testedFrames, `lines
      ensures Valid() && testedFrames == []
      ensures Written(old(lines), lines, serdev, old(testedFrames))
    {
      hide Sorted, Expand, Maximal;
      if serdev && |testedFrames| > 0 {
        SortedSorts(testedFrames);
        var ranges := Compress(Sorted(testedFrames));
        assert (lines + [ranges])[..|lines|] == lines;
        lines := lines + [ranges];
      }
      testedFrames := [];
    }
  }
}
