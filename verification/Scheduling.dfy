/** The slow scheduler's walk over a range of frames: which frames it submits, in which blocks, and when it rests. */
module Scheduling {
  import opened FaultModel
  import opened Kernel
  import opened Physmem
  import opened Records
  import opened Claiming
  import opened MemtesterWrapper
  import opened BatchTest
  import opened History

  const MAX_BLOCKSIZE: nat := 512
  const MAX_NON_MATCHING: nat := 512
  const NOPAGE: nat := 0x10_0000
  const RESERVED: nat := 0x1_0000_0000

  /** What the walk meets at one frame: its page flags, the time, whether time is up, and the batch's surroundings. */
  datatype Visit = Visit(flags: nat, now: nat, timeUp: bool, batch: BatchEnv)

  /** Frames that exist, are not reserved, and were not tested successfully for longer than `maxAge`. */
  predicate ShouldTest(v: Visit, r: FrameRecord, maxAge: int) {
    !HasFlag(v.flags, RESERVED) && !HasFlag(v.flags, NOPAGE) && v.now - r.lastSuccessfulTest > maxAge
  }

  /** Bit 20 of the flags is set for frames that do not exist, bit 32 for reserved ones. */
  lemma ShouldTestMeans(v: Visit, r: FrameRecord, maxAge: int)
    ensures ShouldTest(v, r, maxAge) <==>
      (v.flags / 0x10_0000) % 2 == 0 && (v.flags / 0x1_0000_0000) % 2 == 0 && v.now - r.lastSuccessfulTest > maxAge
  {
  }

  predicate Known(records: map<nat, FrameRecord>, first: nat, n: nat) {
    forall f :: first <= f < first + n ==> f in records
  }

  /** The frames among the first `n` visited that should be tested, by the records before the walk. */
  function Eligible(records: map<nat, FrameRecord>, visits: seq<Visit>, first: nat, maxAge: int, n: nat): seq<nat>
    requires n <= |visits| && Known(records, first, n)
  {
    if n == 0 then []
    else Eligible(records, visits, first, maxAge, n - 1)
         + if ShouldTest(visits[n - 1], records[first + n - 1], maxAge) then [first + n - 1] else []
  }

  predicate Within(s: seq<nat>, first: nat, last: nat) {
    forall i :: 0 <= i < |s| ==> first <= s[i] < last
  }

  /** Every frame is submitted at most once, in ascending order. */
  lemma {:induction false} EligibleAscending(records: map<nat, FrameRecord>, visits: seq<Visit>, first: nat, maxAge: int, n: nat)
    requires n <= |visits| && Known(records, first, n)
    ensures StrictlyAscending(Eligible(records, visits, first, maxAge, n))
    ensures Within(Eligible(records, visits, first, maxAge, n), first, first + n)
  {
    hide ShouldTest;
    if n > 0 {
      EligibleAscending(records, visits, first, maxAge, n - 1);
      assert Within(Eligible(records, visits, first, maxAge, n - 1), first, first + (n - 1));
    }
  }

  lemma {:induction false} EligibleAre(records: map<nat, FrameRecord>, visits: seq<Visit>, first: nat, maxAge: int, n: nat, f: nat)
    requires n <= |visits| && Known(records, first, n)
    ensures f in Eligible(records, visits, first, maxAge, n) <==>
      && first <= f < first + n
      && (visits[f - first].flags / 0x10_0000) % 2 == 0 && (visits[f - first].flags / 0x1_0000_0000) % 2 == 0
      && visits[f - first].now - records[f].lastSuccessfulTest > maxAge
  {
    if first <= f < first + n {
      ShouldTestMeans(visits[f - first], records[f], maxAge);
    }
    hide ShouldTest;
    if n > 0 {
      EligibleAre(records, visits, first, maxAge, n - 1, f);
    }
  }

  // ---- Blocks ----

  /** Ascending, and neighbours are not too far from each other. */
  predicate Spaced(block: seq<nat>) {
    forall i :: 0 <= i < |block| - 1 ==> block[i] < block[i + 1] <= block[i] + 512
  }

  predicate BlockFine(block: seq<nat>) {
    1 <= |block| <= 512 && Spaced(block)
  }

  /** The pending block before frame `pfn` is visited, `gap` frames after its last one. */
  predicate Pending(block: seq<nat>, pfn: nat, gap: nat) {
    && Spaced(block) && gap < MAX_NON_MATCHING && |block| < MAX_BLOCKSIZE
    && (block != [] ==> block[|block| - 1] + gap + 1 == pfn)
  }

  /** `k` portions of `atOnce` frames. */
  function Quota(atOnce: nat, k: nat): nat {
    if k == 0 then 0 else Quota(atOnce, k - 1) + atOnce
  }

  lemma {:induction false} QuotaIs(atOnce: nat, k: nat)
    ensures Quota(atOnce, k) == k * atOnce
  {
    if k > 0 {
      QuotaIs(atOnce, k - 1);
    }
  }

  /** After each rest so far, exactly `atOnce` more frames were submitted than after the one before. */
  ghost predicate Paced(blocks: seq<seq<nat>>, rests: seq<nat>, atOnce: nat) {
    forall k :: 0 <= k < |rests| ==> rests[k] <= |blocks| && |Concat(blocks[..rests[k]])| == Quota(atOnce, k + 1)
  }

  lemma PacedNext(blocks: seq<seq<nat>>, rests: seq<nat>, atOnce: nat, block: seq<nat>)
    requires Paced(blocks, rests, atOnce)
    ensures Paced(blocks + [block], rests, atOnce)
  {
    hide Concat;
    forall k | 0 <= k < |rests|
      ensures (blocks + [block])[..rests[k]] == blocks[..rests[k]]
    {
    }
  }

  lemma PacedRest(blocks: seq<seq<nat>>, rests: seq<nat>, atOnce: nat)
    requires Paced(blocks, rests, atOnce) && |Concat(blocks)| == Quota(atOnce, |rests|) + atOnce
    ensures Paced(blocks, rests + [|blocks|], atOnce) && |Concat(blocks)| == Quota(atOnce, |rests| + 1)
  {
    hide Concat;
    assert blocks[..|blocks|] == blocks;
  }

  // ---- One block ----

  /** The numbers of a batch fit into its records, and a block of pages fits after the test's base address. */
  ghost predicate Ready(v: Visit, m: Machine, sources: nat) {
    Sized(m, [], sources, v.batch.request.jiffies) && Addressable(v.batch.test.base, MAX_BLOCKSIZE)
  }

  const PFN_LIMIT: nat := 0x1_0000_0000_0000_0000

  /** The frames from `from` on have the test results they had. */
  ghost predicate Untouched(before: map<nat, FrameRecord>, after: map<nat, FrameRecord>, from: nat, last: nat) {
    forall f :: from <= f < last ==> f in before && f in after && SameResults(after[f], before[f])
  }

  lemma ReadyBlock(v: Visit, m: Machine, sources: nat, block: seq<nat>)
    requires Ready(v, m, sources) && BlockFine(block) && Within(block, 0, PFN_LIMIT)
    ensures Sized(m, block, sources, v.batch.request.jiffies) && Addressable(v.batch.test.base, |block|)
  {
    SlowScheduler.FewerAddressable(v.batch.test.base, |block|, MAX_BLOCKSIZE);
  }

  /** The pending block is handed over; it goes into the log as it happens, and touches no other frame's results. */
  method Submit(s: SlowScheduler, block: seq<nat>, sources: nat, memory: seq<MemoryPage>, v: Visit)
    returns (r: Result<nat>, ghost b: Block)
    requires s.Valid() && Ready(v, s.device.f.machine, sources) && IsMemory(memory, s.device.f.machine)
    requires BlockFine(block) && Within(block, 0, PFN_LIMIT) && forall i :: 0 <= i < |block| ==> block[i] in s.records
    modifies s, s.tester`injectionType, s.device.f, s.device.f.frameStati, s.device.zone, s.device`pos
    modifies set x | 0 <= x < |memory| :: memory[x].cells
    ensures s.Valid()
    ensures s.device.f.frameStati == null || s.device.f.frameStati == old(s.device.f.frameStati) || fresh(s.device.f.frameStati)
    ensures s.log == old(s.log) + [b] && b.pfns == block && b.env == v.batch && b.before == old(s.Now()) && b.after == s.Now()
    ensures Happened(b, s.device.f.machine, sources, memory)
    ensures r.Success? <==> IsFine(b)
    ensures r.Success? ==> r.value == Pages(b.results, |b.results|)
    ensures s.records.Keys == old(s.records).Keys
    ensures forall f :: f in old(s.records) && f !in block ==> SameResults(s.records[f], old(s.records)[f])
  {
    hide Happened, IsFine, IsMemory, Sized, Pages, Ready, Addressable, SameResults, SlowScheduler.Valid, BlockFine, Within;
    ReadyBlock(v, s.device.f.machine, sources, block);
    r, b := s.TestFramesAndRecordResult(block, sources, memory, v.batch);
    forall f: nat
      ensures b.after.records.Keys == b.before.records.Keys
      ensures f in b.before.records && f !in block ==> SameResults(b.after.records[f], b.before.records[f])
    {
      BlockLeaves(b, s.device.f.machine, sources, memory, f);
    }
  }

  // ---- The walk ----

  /** What the walk has done before frame `first + n`: blocks submitted, a block pending, rests taken. */
  datatype Walk = Walk(blocks: seq<seq<nat>>, block: seq<nat>, attempted: nat, rests: seq<nat>)

  /** Submitted and pending frames are the eligible ones so far; all blocks are fine. */
  ghost predicate Walked(w: Walk, eligible: seq<nat>) {
    && Concat(w.blocks) + w.block == eligible
    && forall i :: 0 <= i < |w.blocks| ==> BlockFine(w.blocks[i])
  }

  /** The portions are kept to. */
  ghost predicate InPortion(w: Walk, atOnce: nat) {
    && Paced(w.blocks, w.rests, atOnce)
    && |Concat(w.blocks)| == Quota(atOnce, |w.rests|) + w.attempted
    && w.attempted + |w.block| <= atOnce
  }

  /** The same for a portion that may be negative, when nothing is kept to. */
  ghost predicate Kept(w: Walk, portion: int) {
    portion >= 1 ==> InPortion(w, portion)
  }

  /** The block with frame `pfn` appended or skipped, before it is decided whether to submit it. */
  predicate Extended(block: seq<nat>, pfn: nat, gap: nat) {
    && Spaced(block) && gap <= MAX_NON_MATCHING && |block| <= MAX_BLOCKSIZE
    && (block != [] ==> block[|block| - 1] + gap == pfn)
  }

  lemma ExtendBlock(block: seq<nat>, pfn: nat, gap: nat)
    requires Pending(block, pfn, gap)
    ensures Extended(block + [pfn], pfn, 0) && Extended(block, pfn, gap + 1)
  {
    var b := block + [pfn];
    forall i | 0 <= i < |b| - 1
      ensures b[i] < b[i + 1] <= b[i] + MAX_NON_MATCHING
    {
      assert i < |block| - 1 ==> b[i] == block[i] && b[i + 1] == block[i + 1];
    }
  }

  /** The pending block lies before the frame visited. */
  lemma PendingWithin(w: Walk, records: map<nat, FrameRecord>, visits: seq<Visit>, first: nat, maxAge: int, n: nat)
    requires n <= |visits| && Known(records, first, n) && Walked(w, Eligible(records, visits, first, maxAge, n))
    ensures Within(w.block, first, first + n)
  {
    hide Eligible, Concat;
    EligibleAscending(records, visits, first, maxAge, n);
    var e := Eligible(records, visits, first, maxAge, n);
    forall i | 0 <= i < |w.block|
      ensures first <= w.block[i] < first + n
    {
      assert e[|Concat(w.blocks)| + i] == w.block[i];
    }
  }

  /** The range walked over, how many frames to submit before a rest, and what is met at each frame. */
  datatype Course = Course(first: nat, last: nat, portion: int, visits: seq<Visit>)

  /** A block ends where it must: it is full, or a rest follows, or the next frame submitted is too far away. */
  predicate Ended(block: seq<nat>, rests: bool, next: nat) {
    block != [] && (|block| == 512 || rests || next > block[|block| - 1] + 512)
  }

  /** Block `k` could not have been continued by the one after it. */
  predicate Parted(blocks: seq<seq<nat>>, rests: seq<nat>, k: nat)
    requires k + 1 < |blocks|
  {
    blocks[k + 1] != [] && Ended(blocks[k], k + 1 in rests, blocks[k + 1][0])
  }

  predicate Filled(blocks: seq<seq<nat>>, rests: seq<nat>) {
    forall k: nat :: k < |blocks| - 1 ==> Parted(blocks, rests, k)
  }

  /** Every rest comes with the last frame of a block, at which time was not up. */
  predicate RestsInTime(blocks: seq<seq<nat>>, rests: seq<nat>, first: nat, visits: seq<Visit>) {
    forall k :: 0 <= k < |rests| ==> 0 < rests[k] <= |blocks| && EndsInTime(blocks[rests[k] - 1], first, visits)
  }

  predicate EndsInTime(block: seq<nat>, first: nat, visits: seq<Visit>) {
    block != [] && first <= block[|block| - 1] < first + |visits| && !visits[block[|block| - 1] - first].timeUp
  }

  /** The first frame of what may be submitted next. */
  function NextFrame(block: seq<nat>, pfn: nat): nat {
    if block != [] then block[0] else pfn
  }

  /** The last block ended where it must, if anything is to come. */
  predicate LastEnded(w: Walk, pfn: nat, last: nat) {
    w.blocks != [] && pfn < last ==> Ended(w.blocks[|w.blocks| - 1], |w.blocks| in w.rests, NextFrame(w.block, pfn))
  }

  /** What was submitted is as few blocks as possible, and rests were taken in time. */
  predicate InShape(w: Walk, c: Course) {
    Filled(w.blocks, w.rests) && (c.portion >= 1 ==> RestsInTime(w.blocks, w.rests, c.first, c.visits))
  }

  /** One more block is in shape, if the one before it ended where it must. */
  lemma FilledNext(blocks: seq<seq<nat>>, rests: seq<nat>, block: seq<nat>)
    requires Filled(blocks, rests) && block != []
    requires blocks != [] ==> Ended(blocks[|blocks| - 1], |blocks| in rests, block[0])
    ensures Filled(blocks + [block], rests)
  {
    hide Ended;
    var blocks' := blocks + [block];
    forall k: nat | k < |blocks'| - 1
      ensures Parted(blocks', rests, k)
    {
      if k < |blocks| - 1 {
        assert Parted(blocks, rests, k);
        assert blocks'[k] == blocks[k] && blocks'[k + 1] == blocks[k + 1];
      } else {
        assert blocks'[k] == blocks[|blocks| - 1] && blocks'[k + 1] == block;
      }
    }
  }

  lemma FilledRest(blocks: seq<seq<nat>>, rests: seq<nat>, n: nat)
    requires Filled(blocks, rests)
    ensures Filled(blocks, rests + [n])
  {
    forall k: nat | k < |blocks| - 1
      ensures Parted(blocks, rests + [n], k)
    {
      assert Parted(blocks, rests, k);
    }
  }

  lemma InTimeNext(blocks: seq<seq<nat>>, rests: seq<nat>, first: nat, visits: seq<Visit>, block: seq<nat>)
    requires RestsInTime(blocks, rests, first, visits)
    ensures RestsInTime(blocks + [block], rests, first, visits)
  {
    hide EndsInTime;
    forall k | 0 <= k < |rests|
      ensures 0 < rests[k] <= |blocks| && EndsInTime((blocks + [block])[rests[k] - 1], first, visits)
    {
      assert (blocks + [block])[rests[k] - 1] == blocks[rests[k] - 1];
    }
  }

  // The three moments of a visit: before the frame is looked at, when it is decided whether to submit, and after that.

  ghost predicate Before(w: Walk, gap: nat, c: Course, eligible: seq<nat>, pfn: nat) {
    && Walked(w, eligible) && Kept(w, c.portion) && InShape(w, c) && LastEnded(w, pfn, c.last)
    && Pending(w.block, pfn, gap) && (c.portion >= 1 ==> w.attempted + |w.block| < c.portion)
  }

  ghost predicate Deciding(w: Walk, gap: nat, c: Course, eligible: seq<nat>, pfn: nat) {
    && Walked(w, eligible) && Kept(w, c.portion) && InShape(w, c) && LastEnded(w, pfn, c.last)
    && Extended(w.block, pfn, gap) && c.first <= pfn < c.last == c.first + |c.visits|
    && (c.portion >= 1 ==> w.attempted < c.portion && (w.attempted + |w.block| == c.portion ==> gap == 0))
  }

  /** A portion that is full was filled by the frame just looked at. */
  ghost predicate After(w: Walk, gap: nat, c: Course, eligible: seq<nat>, pfn: nat) {
    && Walked(w, eligible) && Kept(w, c.portion) && InShape(w, c) && Pending(w.block, pfn + 1, gap)
    && c.first <= pfn < c.last == c.first + |c.visits|
    && (w.attempted < c.portion ==> LastEnded(w, pfn + 1, c.last))
    && (c.portion >= 1 && w.attempted < c.portion ==> w.attempted + |w.block| < c.portion)
    && (c.portion >= 1 && w.attempted >= c.portion ==> w.blocks != [] && EndsAt(w.blocks[|w.blocks| - 1], pfn))
  }

  predicate EndsAt(block: seq<nat>, pfn: nat) {
    block != [] && block[|block| - 1] == pfn
  }

  lemma NothingWalked(records: map<nat, FrameRecord>, c: Course, maxAge: int)
    ensures Known(records, c.first, 0)
    ensures Walked(Walk([], [], 0, []), []) && Kept(Walk([], [], 0, []), c.portion) && InShape(Walk([], [], 0, []), c)
    ensures Before(Walk([], [], 0, []), 0, c, [], c.first)
    ensures Eligible(records, c.visits, c.first, maxAge, 0) == []
  {
  }

  lemma BeforeMeans(w: Walk, gap: nat, c: Course, eligible: seq<nat>, pfn: nat)
    requires Before(w, gap, c, eligible, pfn)
    ensures Walked(w, eligible) && Kept(w, c.portion) && InShape(w, c)
  {
  }

  lemma DecidingMeans(w: Walk, gap: nat, c: Course, eligible: seq<nat>, pfn: nat)
    requires Deciding(w, gap, c, eligible, pfn)
    ensures Walked(w, eligible) && Kept(w, c.portion) && InShape(w, c)
  {
  }

  /** Looking at a frame: whether it is tested is the same by the records of now and of before the walk. */
  lemma LookedAt(w: Walk, gap: nat, c: Course, before: map<nat, FrameRecord>, now: map<nat, FrameRecord>, maxAge: int, n: nat)
    requires n < |c.visits| && c.last == c.first + |c.visits| && Known(before, c.first, |c.visits|)
    requires Untouched(before, now, c.first + n, c.last)
    requires Known(before, c.first, n) && Before(w, gap, c, Eligible(before, c.visits, c.first, maxAge, n), c.first + n)
    ensures c.first + n in now && Known(before, c.first, n + 1) && Untouched(before, now, c.first + n + 1, c.last)
    ensures var e := Eligible(before, c.visits, c.first, maxAge, n + 1);
      if ShouldTest(c.visits[n], now[c.first + n], maxAge) then Deciding(w.(block := w.block + [c.first + n]), 0, c, e, c.first + n)
      else Deciding(w, gap + 1, c, e, c.first + n)
  {
    hide HasFlag, Concat, Paced, Filled, RestsInTime, Spaced, BlockFine;
    assert SameResults(now[c.first + n], before[c.first + n]);
    ExtendBlock(w.block, c.first + n, gap);
    assert Concat(w.blocks) + (w.block + [c.first + n]) == Concat(w.blocks) + w.block + [c.first + n];
  }

  /** The pending block is submitted, because it is full, fills the portion, has a gap after it, or ends with the last frame. */
  lemma Submitted(w: Walk, gap: nat, c: Course, before: map<nat, FrameRecord>, maxAge: int, n: nat)
    requires n < |c.visits| && Known(before, c.first, n + 1) && w.block != []
    requires Deciding(w, gap, c, Eligible(before, c.visits, c.first, maxAge, n + 1), c.first + n)
    requires |w.block| == 512 || |w.block| == c.portion - w.attempted || gap >= 512 || c.first + n == c.last - 1
    ensures BlockFine(w.block) && Within(w.block, c.first, c.first + n + 1)
    ensures After(Walk(w.blocks + [w.block], [], w.attempted + |w.block|, w.rests), 0, c,
                  Eligible(before, c.visits, c.first, maxAge, n + 1), c.first + n)
  {
    hide Concat, Quota, Paced, Eligible, Within, Filled, RestsInTime, Spaced;
    PendingWithin(w, before, c.visits, c.first, maxAge, n + 1);
    ConcatNext(w.blocks, w.block);
    FilledNext(w.blocks, w.rests, w.block);
    EmptySpaced();
    if c.portion >= 1 {
      PacedNext(w.blocks, w.rests, c.portion, w.block);
      InTimeNext(w.blocks, w.rests, c.first, c.visits, w.block);
    }
  }

  lemma EmptySpaced()
    ensures Spaced([])
  {
  }

  /** Nothing is submitted: the block stays pending, or it is empty. */
  lemma Postponed(w: Walk, gap: nat, c: Course, eligible: seq<nat>, pfn: nat)
    requires Deciding(w, gap, c, eligible, pfn)
    ensures w.block == [] ==> After(w, 0, c, eligible, pfn)
    ensures |w.block| != 512 && gap < 512 && |w.block| != c.portion - w.attempted ==> After(w, gap, c, eligible, pfn)
  {
    hide Concat, Quota, Paced, Filled, RestsInTime, Spaced, BlockFine;
  }

  /** The end of a visit: a rest exactly when the portion is full, unless time is up, and then no block is pending. */
  lemma Visited(w: Walk, gap: nat, c: Course, eligible: seq<nat>, pfn: nat)
    requires After(w, gap, c, eligible, pfn)
    ensures Walked(w, eligible) && Kept(w, c.portion) && InShape(w, c)
    ensures w.attempted < c.portion ==> Before(w, gap, c, eligible, pfn + 1)
    ensures w.attempted >= c.portion && !c.visits[pfn - c.first].timeUp ==>
      Before(Walk(w.blocks, w.block, 0, w.rests + [|w.blocks|]), gap, c, eligible, pfn + 1)
    ensures c.portion >= 1 && w.attempted >= c.portion ==> w.block == [] && w.attempted == c.portion
  {
    hide Concat, Paced, Filled, Spaced;
    FilledRest(w.blocks, w.rests, |w.blocks|);
    if c.portion >= 1 && w.attempted >= c.portion {
      PacedRest(w.blocks, w.rests, c.portion);
    }
  }

  lemma NothingChanged(records: map<nat, FrameRecord>, first: nat, last: nat)
    requires first < last ==> Known(records, first, last - first)
    ensures Untouched(records, records, first, last)
  {
  }

  /** All records exist of the frames of a block. */
  lemma BlockKnown(before: map<nat, FrameRecord>, now: map<nat, FrameRecord>, block: seq<nat>, first: nat, n: nat)
    requires Known(before, first, n) && now.Keys == before.Keys && Within(block, first, first + n) && first + n <= PFN_LIMIT
    ensures Within(block, 0, PFN_LIMIT) && forall i :: 0 <= i < |block| ==> block[i] in now
  {
  }

  lemma SubmitUntouched(before: map<nat, FrameRecord>, mid: map<nat, FrameRecord>, after: map<nat, FrameRecord>,
                        block: seq<nat>, first: nat, pfn: nat, last: nat)
    requires Untouched(before, mid, pfn, last) && Within(block, first, pfn) && after.Keys == mid.Keys
    requires forall f :: f in mid && f !in block ==> SameResults(after[f], mid[f])
    ensures Untouched(before, after, pfn, last)
  {
  }

  /** Where a walk starts: the moment, and the log so far. */
  datatype Outset = Outset(moment: Moment, log: seq<Block>)

  /** Since the outset the scheduler went through `done`, which all but the last went through. */
  ghost predicate Since(s: SlowScheduler, sources: nat, memory: seq<MemoryPage>, o: Outset, done: seq<Block>)
    reads s, s.device, s.device.f, s.device.f.frameStati, s.device.zone, s.tester
  {
    && s.Valid() && s.log == o.log + done && s.records.Keys == o.moment.records.Keys
    && IsHistory(done, s.device.f.machine, sources, memory, o.moment, s.Now())
  }

  /** The surroundings of the blocks are those of the frames at which they were handed over. */
  predicate FromVisits(done: seq<Block>, visits: seq<Visit>) {
    forall i :: 0 <= i < |done| ==> exists k :: 0 <= k < |visits| && done[i].env == visits[k].batch
  }

  lemma FromVisitsNext(done: seq<Block>, visits: seq<Visit>, b: Block, k: nat)
    requires FromVisits(done, visits) && k < |visits| && b.env == visits[k].batch
    ensures FromVisits(done + [b], visits)
  {
  }

  lemma SinceNext(s: SlowScheduler, sources: nat, memory: seq<MemoryPage>, o: Outset, done: seq<Block>, b: Block)
    requires s.Valid() && s.log == o.log + done + [b] && s.records.Keys == o.moment.records.Keys && b.after == s.Now()
    requires IsHistory(done, s.device.f.machine, sources, memory, o.moment, b.before) && Happened(b, s.device.f.machine, sources, memory)
    ensures Since(s, sources, memory, o, done + [b])
    ensures Submissions(done + [b]) == Submissions(done) + [b.pfns]
    ensures CountOf(done + [b]) == CountOf(done) + if IsFine(b) then Pages(b.results, |b.results|) else 0
    ensures AllFine(done) ==> (AllFine(done + [b]) <==> IsFine(b))
  {
    hide IsHistory, Happened, IsFine, Pages, SlowScheduler.Valid, Submissions, CountOf;
    Goes(done, s.device.f.machine, sources, memory, o.moment, b);
    assert (done + [b])[|done|] == b;
  }

  /** The pending block is submitted, after the frame `first + n - 1` was looked at. */
  method SubmitPending(s: SlowScheduler, block: seq<nat>, sources: nat, memory: seq<MemoryPage>, v: Visit, ghost o: Outset,
                       ghost done: seq<Block>, ghost visits: seq<Visit>, ghost first: nat, ghost n: nat, ghost last: nat)
    returns (r: Result<nat>, ghost done': seq<Block>)
    requires s.Valid() && IsMemory(memory, s.device.f.machine) && last <= PFN_LIMIT
    requires first + n <= last && Ready(v, s.device.f.machine, sources) && 0 < n <= |visits| && visits[n - 1] == v
    requires Known(o.moment.records, first, n) && BlockFine(block) && Within(block, first, first + n)
    requires Since(s, sources, memory, o, done) && AllFine(done) && FromVisits(done, visits)
    requires Untouched(o.moment.records, s.records, first + n, last)
    modifies s, s.tester`injectionType, s.device.f, s.device.f.frameStati, s.device.zone, s.device`pos
    modifies set x | 0 <= x < |memory| :: memory[x].cells
    ensures s.Valid()
    ensures s.device.f.frameStati == null || s.device.f.frameStati == old(s.device.f.frameStati) || fresh(s.device.f.frameStati)
    ensures Since(s, sources, memory, o, done') && FromVisits(done', visits) && Untouched(o.moment.records, s.records, first + n, last)
    ensures Submissions(done') == Submissions(done) + [block] && (r.Success? <==> AllFine(done'))
    ensures r.Success? ==> CountOf(done') == CountOf(done) + r.value
  {
    hide Known, BlockFine, Within, Untouched, Ready, IsMemory, SlowScheduler.Valid, SameResults, IsHistory, Happened, IsFine, Pages,
         Submissions, CountOf, AllFine, FromVisits;
    ghost var mid := s.records;
    BlockKnown(o.moment.records, s.records, block, first, n);
    ghost var b;
    r, b := Submit(s, block, sources, memory, v);
    done' := done + [b];
    assert s.log == o.log + done + [b];
    SinceNext(s, sources, memory, o, done, b);
    FromVisitsNext(done, visits, b, n - 1);
    SubmitUntouched(o.moment.records, mid, s.records, block, first, first + n, last);
  }

  predicate IsDue(block: seq<nat>, gap: nat, attempted: nat, portion: int, pfn: nat, last: nat) {
    |block| == MAX_BLOCKSIZE || |block| == portion - attempted || gap >= MAX_NON_MATCHING || pfn == last - 1
  }

  lemma DueMeans(block: seq<nat>, gap: nat, attempted: nat, portion: int, pfn: nat, last: nat)
    ensures IsDue(block, gap, attempted, portion, pfn, last) <==>
      |block| == 512 || |block| == portion - attempted || gap >= 512 || pfn == last - 1
  {
  }

  /** The block is submitted when it is full, fills the portion, has a gap after it, or ends with the last frame. */
  method SubmitWhenDue(s: SlowScheduler, block: seq<nat>, gap: nat, attempted: nat, portion: int, pfn: nat, last: nat, sources: nat,
                       memory: seq<MemoryPage>, v: Visit, ghost o: Outset, ghost w: Walk, ghost done: seq<Block>, ghost c: Course,
                       ghost maxAge: int)
    returns (r: Result<nat>, block': seq<nat>, gap': nat, attempted': nat, ghost w': Walk, ghost done': seq<Block>)
    requires s.Valid() && IsMemory(memory, s.device.f.machine) && c.first <= pfn < last <= PFN_LIMIT && pfn - c.first < |c.visits|
    requires c.last == last && c.portion == portion
    requires Ready(v, s.device.f.machine, sources) && c.visits[pfn - c.first] == v && Known(o.moment.records, c.first, pfn - c.first + 1)
    requires w.block == block && w.attempted == attempted
    requires Deciding(w, gap, c, Eligible(o.moment.records, c.visits, c.first, maxAge, pfn - c.first + 1), pfn)
    requires Since(s, sources, memory, o, done) && AllFine(done) && FromVisits(done, c.visits) && Submissions(done) == w.blocks
    requires Untouched(o.moment.records, s.records, pfn + 1, last)
    modifies s, s.tester`injectionType, s.device.f, s.device.f.frameStati, s.device.zone, s.device`pos
    modifies set x | 0 <= x < |memory| :: memory[x].cells
    ensures s.Valid()
    ensures s.device.f.frameStati == null || s.device.f.frameStati == old(s.device.f.frameStati) || fresh(s.device.f.frameStati)
    ensures Since(s, sources, memory, o, done') && FromVisits(done', c.visits) && Untouched(o.moment.records, s.records, pfn + 1, last)
    ensures (r.Success? <==> AllFine(done')) && Submissions(done') == w'.blocks + if r.Success? then [] else [w'.block]
    ensures r.Success? ==> CountOf(done') == CountOf(done) + r.value
    ensures var e := Eligible(o.moment.records, c.visits, c.first, maxAge, pfn - c.first + 1);
      Walked(w', e) && Kept(w', portion) && InShape(w', c) && (r.Success? ==> After(w', gap', c, e, pfn))
    ensures w'.block == block' && w'.attempted == attempted'
    ensures r.Success? && pfn == last - 1 ==> block' == []
    ensures !IsDue(block, gap, attempted, portion, pfn, last) ==> r == Success(0) && block' == block && gap' == gap
  {
    hide *;
    ghost var e := Eligible(o.moment.records, c.visits, c.first, maxAge, pfn - c.first + 1);
    r, block', gap', attempted', w', done' := Success(0), block, gap, attempted, w, done;
    DecidingMeans(w, gap, c, e, pfn);
    Postponed(w, gap, c, e, pfn);
    DueMeans(block, gap, attempted, portion, pfn, last);
    if IsDue(block, gap, attempted, portion, pfn, last) {
      if |block| > 0 {
        Submitted(w, gap, c, o.moment.records, maxAge, pfn - c.first);
        r, done' := SubmitPending(s, block, sources, memory, v, o, done, c.visits, c.first, pfn - c.first + 1, last);
        if r.Failure? {
          return;
        }
        attempted' := attempted + |block|;
        w' := Walk(w.blocks + [block], [], attempted', w.rests);
        block' := [];
        AfterMeans(w', 0, c, e, pfn);
      }
      gap' := 0;
    }
  }

  lemma AfterMeans(w: Walk, gap: nat, c: Course, eligible: seq<nat>, pfn: nat)
    requires After(w, gap, c, eligible, pfn)
    ensures Walked(w, eligible) && Kept(w, c.portion) && InShape(w, c)
  {
  }

  /**
   The walk over [first, last). What it submits is what is eligible by the records as they were before the
   walk; `visited` is how many frames it looked at, `complaints` how often it was about to rest with a block
   pending, `done` the blocks as they happened on the device, one for each block submitted.
   */
  method Run(s: SlowScheduler, first: nat, last: nat, sources: nat, atOnce: int, maxAge: int, visits: seq<Visit>,
             memory: seq<MemoryPage>)
    returns (r: Result<nat>, complaints: nat, ghost w: Walk, ghost visited: nat, ghost done: seq<Block>)
    requires s.Valid() && IsMemory(memory, s.device.f.machine) && last <= PFN_LIMIT
    requires |visits| == if first < last then last - first else 0
    requires forall i :: 0 <= i < |visits| ==> Ready(visits[i], s.device.f.machine, sources)
    requires Known(s.records, first, |visits|)
    modifies s, s.tester`injectionType, s.device.f, s.device.f.frameStati, s.device.zone, s.device`pos
    modifies set x | 0 <= x < |memory| :: memory[x].cells
    ensures s.Valid() && visited <= |visits|
    // coverage
    ensures Walked(w, Eligible(old(s.records), visits, first, maxAge, visited))
    ensures r.Success? && (atOnce >= 0 || visited == |visits|) ==> w.block == []
    ensures r.Success? && visited < |visits| ==> visited > 0 && visits[visited - 1].timeUp
    // pacing
    ensures first < last ==> Kept(w, if atOnce == 0 then last - first else atOnce)
    ensures r.Success? && atOnce >= 0 && visited < |visits| ==> w.attempted == if atOnce == 0 then last - first else atOnce
    ensures Filled(w.blocks, w.rests) && (atOnce >= 0 && first < last ==> RestsInTime(w.blocks, w.rests, first, visits))
    ensures atOnce >= 0 && first < last ==> complaints == 0
    // a negative portion can lose a block: time is up while the first frame is pending
    ensures atOnce < 0 && |visits| > 1 && visits[0].timeUp && ShouldTest(visits[0], old(s.records)[first], maxAge) ==>
      r.Success? && visited == 1 && w.block == [first]
    // what happened on the device, block by block
    ensures s.log == old(s.log) + done && IsHistory(done, s.device.f.machine, sources, memory, old(s.Now()), s.Now())
    ensures FromVisits(done, visits) && Submissions(done) == w.blocks + if r.Success? || first == last then [] else [w.block]
    ensures r.Success? <==> first != last && AllFine(done)
    ensures Workable(old(s.device.f.state)) ==> forall i :: 0 <= i < |done| ==> Workable(done[i].before.state)
    // what it adds up to
    ensures r.Success? ==> r.value == CountOf(done) == |BadOf(done)| + |GoodOf(done)|
    ensures s.reportedBad == old(s.reportedBad) + BadOf(done) && s.reportedGood == old(s.reportedGood) + GoodOf(done)
    ensures s.device.zone.poisoned == old(s.device.zone.poisoned) + Elements(BadOf(done)) && Unique(BadOf(done))
    ensures QuietVisits(visits) && old(s.tester.injectionType) == 0 ==>
      && Elements(BadOf(done)) == FaultyOf(done, memory)
      && Elements(GoodOf(done)) == set f | f in ClaimedOf(done) && f < |memory| && memory[f].Healthy()
  {
    hide *;
    ghost var before := s.records;
    ghost var o := Outset(s.Now(), s.log);
    SinceOutset(s, sources, memory, o, visits);
    visited, w, complaints, done := 0, Walk([], [], 0, []), 0, [];
    var portion := if atOnce == 0 then last - first else atOnce;
    ghost var c := Course(first, last, portion, visits);
    NothingWalked(before, c, maxAge);
    BeforeMeans(w, 0, c, [], first);
    ShapeMeans(w, c);
    NothingChanged(before, first, last);
    if first == last {
      AddsUp(s, sources, memory, o, done, visits, w, Eligible(before, visits, first, maxAge, visited), before, first, maxAge, visited);
      return Failure, complaints, w, visited, done;
    }
    var pfn, block, gap, attempted, tested := first, [], 0, 0, 0;
    while pfn < last
      invariant pfn == first + visited && visited <= |visits| && s.Valid()
      invariant s.device.f.frameStati == null || s.device.f.frameStati == old(s.device.f.frameStati) || fresh(s.device.f.frameStati)
      invariant w.block == block && w.attempted == attempted
      invariant Known(before, first, visited) && Known(before, first, |visits|)
      invariant Before(w, gap, c, Eligible(before, visits, first, maxAge, visited), pfn)
      invariant Walked(w, Eligible(before, visits, first, maxAge, visited)) && Kept(w, portion) && InShape(w, c)
      invariant Since(s, sources, memory, o, done) && AllFine(done) && FromVisits(done, visits) && Submissions(done) == w.blocks
      invariant Untouched(before, s.records, pfn, last)
      invariant (portion >= 1 ==> complaints == 0) && (pfn >= last ==> block == [])
      invariant tested == CountOf(done)
      invariant if visited == 0 then s.records == before && block == [] else portion < 0 ==> !visits[0].timeUp
    {
      var v := visits[pfn - first];
      LookedAt(w, gap, c, before, s.records, maxAge, visited);
      if ShouldTest(v, s.records[pfn], maxAge) {
        block, gap := block + [pfn], 0;
      } else {
        gap := gap + 1;
      }
      w := w.(block := block);
      visited := visited + 1;
      DueMeans(block, gap, attempted, portion, pfn, last);
      var n;
      n, block, gap, attempted, w, done := SubmitWhenDue(
        s, block, gap, attempted, portion, pfn, last, sources, memory, v, o, w, done, c, maxAge);
      if n.Failure? {
        ShapeMeans(w, c);
        AddsUp(s, sources, memory, o, done, visits, w, Eligible(before, visits, first, maxAge, visited), before, first, maxAge, visited);
        return Failure, complaints, w, visited, done;
      }
      tested := tested + n.value;
      Visited(w, gap, c, Eligible(before, visits, first, maxAge, visited), pfn);
      pfn := pfn + 1;
      if attempted >= portion {
        if v.timeUp {
          break;
        }
        if |block| > 0 {
          complaints := complaints + 1;
        }
        w := Walk(w.blocks, w.block, 0, w.rests + [|w.blocks|]);
        attempted := 0;
        BeforeMeans(w, gap, c, Eligible(before, visits, first, maxAge, visited), pfn);
      }
    }
    ShapeMeans(w, c);
    AddsUp(s, sources, memory, o, done, visits, w, Eligible(before, visits, first, maxAge, visited), before, first, maxAge, visited);
    r := Success(tested);
  }

  lemma ShapeMeans(w: Walk, c: Course)
    requires InShape(w, c)
    ensures Filled(w.blocks, w.rests) && (c.portion >= 1 ==> RestsInTime(w.blocks, w.rests, c.first, c.visits))
  {
  }

  /** No visit brings a mask or an injection. */
  predicate QuietVisits(visits: seq<Visit>) {
    forall k :: 0 <= k < |visits| ==> Quiet(visits[k].batch.test)
  }

  lemma SinceOutset(s: SlowScheduler, sources: nat, memory: seq<MemoryPage>, o: Outset, visits: seq<Visit>)
    requires s.Valid() && o.moment == s.Now() && o.log == s.log
    ensures Since(s, sources, memory, o, []) && FromVisits([], visits) && AllFine([]) && Submissions([]) == [] && CountOf([]) == 0
    ensures o.moment.state == s.device.f.state && o.moment.kind == s.tester.injectionType && o.moment.records == s.records
    ensures o.moment.bad == s.reportedBad && o.moment.good == s.reportedGood && o.moment.pool.poisoned == s.device.zone.poisoned
  {
    hide SlowScheduler.Valid;
    Begins(s.device.f.machine, sources, memory, o.moment);
  }

  /** What a history since the outset means, whether its last block went through or not. */
  lemma AddsUp(s: SlowScheduler, sources: nat, memory: seq<MemoryPage>, o: Outset, done: seq<Block>, visits: seq<Visit>, w: Walk,
               eligible: seq<nat>, before: map<nat, FrameRecord>, first: nat, maxAge: int, n: nat)
    requires Since(s, sources, memory, o, done) && FromVisits(done, visits) && IsMemory(memory, s.device.f.machine)
    requires n <= |visits| && Known(before, first, n) && eligible == Eligible(before, visits, first, maxAge, n) && Walked(w, eligible)
    requires Submissions(done) == w.blocks || Submissions(done) == w.blocks + [w.block]
    ensures s.log == o.log + done && IsHistory(done, s.device.f.machine, sources, memory, o.moment, s.Now())
    ensures Workable(o.moment.state) ==> forall i :: 0 <= i < |done| ==> Workable(done[i].before.state)
    ensures CountOf(done) == |BadOf(done)| + |GoodOf(done)|
    ensures s.reportedBad == o.moment.bad + BadOf(done) && s.reportedGood == o.moment.good + GoodOf(done)
    ensures s.device.zone.poisoned == o.moment.pool.poisoned + Elements(BadOf(done)) && Unique(BadOf(done))
    ensures forall f :: 0 <= f < |memory| ==> memory[f].Valid()
    ensures QuietVisits(visits) && o.moment.kind == 0 ==>
      && Elements(BadOf(done)) == FaultyOf(done, memory)
      && Elements(GoodOf(done)) == set f | f in ClaimedOf(done) && f < |memory| && memory[f].Healthy()
  {
    hide SlowScheduler.Valid, IsHistory, Submissions, BadOf, GoodOf, CountOf, ClaimedOf, FaultyOf, Workable, Quiet, Elements, Unique,
         Eligible, Concat, StrictlyAscending;
    var m, now := s.device.f.machine, s.Now();
    Effects(done, m, sources, memory, o.moment, now);
    Counts(done);
    if Workable(o.moment.state) {
      NeverRefused(done, m, sources, memory, o.moment, now);
    }
    EligibleAscending(before, visits, first, maxAge, n);
    ConcatNext(w.blocks, w.block);
    AscendingParts(Concat(w.blocks), w.block);
    BadOnceInAll(done, m, sources, memory, o.moment, now);
    if QuietVisits(visits) && o.moment.kind == 0 {
      BadAreFaulty(done, m, sources, memory, o.moment, now);
    }
  }
}
