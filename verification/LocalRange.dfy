/** The choice of the frames for a local scan, from the lines of the memory map. */
module LocalRange {
  import opened Records

  /** A line of the memory map: a System RAM range with inclusive bounds, or any line that is skipped. */
  datatype Line = SystemRam(start: nat, end: int) | Other

  datatype Error = NoUsableRange | BudgetTooSmall
  datatype Result<+T> = Success(value: T) | Failure(error: Error)
  datatype Selection = Selection(first: nat, last: nat, systemRamLast: nat)

  /** All bytes of frame `f` lie in the line's range, and the machine knows the frame. */
  predicate Whole(l: Line, numFrames: nat, f: nat) {
    l.SystemRam? && f < numFrames && l.start <= f * PAGE_SIZE && f * PAGE_SIZE + PAGE_SIZE - 1 <= l.end
  }

  function WholeFrames(l: Line, numFrames: nat): set<nat> {
    set f | 0 <= f < numFrames && Whole(l, numFrames, f)
  }

  function FirstPfn(l: Line): nat
    requires l.SystemRam?
  {
    (l.start + PAGE_SIZE - 1) / PAGE_SIZE
  }

  function LastPfn(l: Line, numFrames: nat): int
    requires l.SystemRam?
  {
    var last := (l.end + 1) / PAGE_SIZE;
    if last < numFrames then last else numFrames
  }

  function Interval(a: nat, b: nat): (r: set<nat>)
    ensures forall f: nat :: f in r <==> a <= f < b
    ensures |r| == if a < b then b - a else 0
    decreases b
  {
    if a < b then Interval(a, b - 1) + {b - 1} else {}
  }

  lemma WholeIff(l: Line, numFrames: nat, f: nat)
    requires l.SystemRam?
    ensures Whole(l, numFrames, f) <==> FirstPfn(l) <= f < LastPfn(l, numFrames)
  {
  }

  /** The whole frames of a line are an interval. */
  lemma WholeFramesAre(l: Line, numFrames: nat)
    ensures l.SystemRam? && FirstPfn(l) < LastPfn(l, numFrames) ==>
      WholeFrames(l, numFrames) == Interval(FirstPfn(l), LastPfn(l, numFrames))
    ensures !(l.SystemRam? && FirstPfn(l) < LastPfn(l, numFrames)) ==> WholeFrames(l, numFrames) == {}
  {
    hide FirstPfn, LastPfn, Whole;
    forall f: nat
      ensures f in WholeFrames(l, numFrames) <==> l.SystemRam? && FirstPfn(l) <= f < LastPfn(l, numFrames)
    {
      WholeMeans(l, numFrames, f);
      if l.SystemRam? {
        WholeIff(l, numFrames, f);
      }
    }
  }

  lemma WholeMeans(l: Line, numFrames: nat, f: nat)
    ensures Whole(l, numFrames, f) ==> l.SystemRam? && f < numFrames
  {
  }

  /** The best line so far: no line has more whole frames, and no earlier one as many. */
  predicate Best(lines: seq<Line>, numFrames: nat, n: nat, i: nat)
    requires n <= |lines|
  {
    && i < n && WholeFrames(lines[i], numFrames) != {}
    && (forall k :: 0 <= k < n ==> |WholeFrames(lines[k], numFrames)| <= |WholeFrames(lines[i], numFrames)|)
    && (forall k :: 0 <= k < i ==> |WholeFrames(lines[k], numFrames)| < |WholeFrames(lines[i], numFrames)|)
  }

  /** The usable ranges of the lines, in order. */
  method UsableRanges(lines: seq<Line>, numFrames: nat) returns (ranges: seq<(nat, nat)>, ghost origin: seq<nat>)
    ensures |origin| == |ranges|
    ensures forall k :: 0 <= k < |origin| ==>
      && origin[k] < |lines| && ranges[k].0 < ranges[k].1
      && WholeFrames(lines[origin[k]], numFrames) == Interval(ranges[k].0, ranges[k].1)
    ensures forall j, k :: 0 <= j < k < |origin| ==> origin[j] < origin[k]
    ensures forall i :: 0 <= i < |lines| && WholeFrames(lines[i], numFrames) != {} ==> i in origin
  {
    hide *;
    ranges, origin := [], [];
    var i := 0;
    while i < |lines|
      invariant 0 <= i <= |lines| && |origin| == |ranges|
      invariant forall k :: 0 <= k < |origin| ==>
        && origin[k] < i && ranges[k].0 < ranges[k].1
        && WholeFrames(lines[origin[k]], numFrames) == Interval(ranges[k].0, ranges[k].1)
      invariant forall j, k :: 0 <= j < k < |origin| ==> origin[j] < origin[k]
      invariant forall k :: 0 <= k < i && WholeFrames(lines[k], numFrames) != {} ==> k in origin
    {
      WholeFramesAre(lines[i], numFrames);
      if lines[i].SystemRam? && lines[i].end >= lines[i].start {
        var firstPfn, lastPfn := FirstPfn(lines[i]), LastPfn(lines[i], numFrames);
        if lastPfn > firstPfn {
          ranges, origin := ranges + [(firstPfn, lastPfn)], origin + [i];
        }
      } else if lines[i].SystemRam? {
        NoFrames(lines[i], numFrames);
      }
      i := i + 1;
    }
  }

  lemma NoFrames(l: Line, numFrames: nat)
    requires l.SystemRam? && l.end < l.start
    ensures WholeFrames(l, numFrames) == {}
  {
  }

  function Size(r: (nat, nat)): int {
    r.1 - r.0
  }

  /** The first of the largest ranges. */
  function FirstLargest(ranges: seq<(nat, nat)>): (m: nat)
    requires ranges != []
    ensures m < |ranges|
    ensures forall k :: 0 <= k < |ranges| ==> Size(ranges[k]) <= Size(ranges[m])
    ensures forall k :: 0 <= k < m ==> Size(ranges[k]) < Size(ranges[m])
  {
    if |ranges| == 1 then 0
    else
      var m := FirstLargest(ranges[..|ranges| - 1]);
      if Size(ranges[|ranges| - 1]) > Size(ranges[m]) then |ranges| - 1 else m
  }

  lemma LargestIsBest(lines: seq<Line>, numFrames: nat, ranges: seq<(nat, nat)>, origin: seq<nat>, m: nat)
    requires |origin| == |ranges| && m < |ranges|
    requires forall k :: 0 <= k < |origin| ==>
      && origin[k] < |lines| && ranges[k].0 < ranges[k].1
      && WholeFrames(lines[origin[k]], numFrames) == Interval(ranges[k].0, ranges[k].1)
    requires forall j, k :: 0 <= j < k < |origin| ==> origin[j] < origin[k]
    requires forall i :: 0 <= i < |lines| && WholeFrames(lines[i], numFrames) != {} ==> i in origin
    requires forall k :: 0 <= k < |ranges| ==> Size(ranges[k]) <= Size(ranges[m])
    requires forall k :: 0 <= k < m ==> Size(ranges[k]) < Size(ranges[m])
    ensures Best(lines, numFrames, |lines|, origin[m])
  {
    hide WholeFrames;
    var best := WholeFrames(lines[origin[m]], numFrames);
    forall i | 0 <= i < |lines|
      ensures |WholeFrames(lines[i], numFrames)| <= |best|
      ensures i < origin[m] ==> |WholeFrames(lines[i], numFrames)| < |best|
    {
      if WholeFrames(lines[i], numFrames) != {} {
        var k :| 0 <= k < |origin| && origin[k] == i;
        assert Size(ranges[k]) <= Size(ranges[m]);
        assert i < origin[m] ==> k < m;
      }
    }
  }

  /** The selection is the beginning of the frames of line `i`, up to `pages` of them. */
  ghost predicate Selects(sel: Selection, l: Line, numFrames: nat, pages: int) {
    && sel.first < sel.last <= sel.systemRamLast <= numFrames
    && WholeFrames(l, numFrames) == Interval(sel.first, sel.systemRamLast)
    && sel.last - sel.first == if pages < |WholeFrames(l, numFrames)| then pages else |WholeFrames(l, numFrames)|
  }

  /**
   The selection fails exactly when no line has a whole frame of the machine, or the budget is below one page.
   Otherwise it takes as many frames as the budget allows from the beginning of the best line's.
   */
  method SelectLocalPfnRange(maxMemoryBytes: int, numFrames: nat, lines: seq<Line>) returns (r: Result<Selection>)
    ensures r == Failure(NoUsableRange) <==> forall i :: 0 <= i < |lines| ==> WholeFrames(lines[i], numFrames) == {}
    ensures r == Failure(BudgetTooSmall) ==> maxMemoryBytes < PAGE_SIZE
    ensures r.Success? ==> maxMemoryBytes >= PAGE_SIZE
    ensures r.Success? ==>
      exists i: nat :: Best(lines, numFrames, |lines|, i) && Selects(r.value, lines[i], numFrames, maxMemoryBytes / PAGE_SIZE)
  {
    hide WholeFrames, FirstLargest;
    var ranges;
    ghost var origin;
    ranges, origin := UsableRanges(lines, numFrames);
    if ranges == [] {
      return Failure(NoUsableRange);
    }
    var m := FirstLargest(ranges);
    LargestIsBest(lines, numFrames, ranges, origin, m);
    var firstPfn, systemRamLastPfn := ranges[m].0, ranges[m].1;
    ghost var l := lines[origin[m]];
    assert |WholeFrames(l, numFrames)| == systemRamLastPfn - firstPfn > 0;
    var maxPages := maxMemoryBytes / PAGE_SIZE;
    if maxPages < 1 {
      return Failure(BudgetTooSmall);
    }
    var lastPfn := if systemRamLastPfn < firstPfn + maxPages then systemRamLastPfn else firstPfn + maxPages;
    BelowFrames(l, numFrames, firstPfn, systemRamLastPfn);
    r := Success(Selection(firstPfn, lastPfn, systemRamLastPfn));
    assert Best(lines, numFrames, |lines|, origin[m]) && Selects(r.value, l, numFrames, maxPages);
  }

  lemma BelowFrames(l: Line, numFrames: nat, a: nat, b: nat)
    requires a < b && WholeFrames(l, numFrames) == Interval(a, b)
    ensures b <= numFrames
  {
    assert b - 1 in WholeFrames(l, numFrames);
  }
}
