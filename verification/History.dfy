/** A series of blocks, each starting where the one before ended, and what it adds up to. */
module History {
  import opened FaultModel
  import opened Kernel
  import opened Physmem
  import opened Records
  import opened Claiming
  import opened MemtesterWrapper
  import opened BatchTest

  /** Each block starts where the one before ended. */
  ghost predicate Linked(blocks: seq<Block>, first: Moment, last: Moment) {
    if blocks == [] then last == first
    else Linked(blocks[..|blocks| - 1], first, blocks[|blocks| - 1].before) && blocks[|blocks| - 1].after == last
  }

  ghost predicate IsHistory(blocks: seq<Block>, m: Machine, sources: nat, memory: seq<MemoryPage>, first: Moment, last: Moment) {
    Linked(blocks, first, last) && forall i :: 0 <= i < |blocks| ==> Happened(blocks[i], m, sources, memory)
  }

  ghost predicate AllFine(blocks: seq<Block>) {
    forall i :: 0 <= i < |blocks| ==> IsFine(blocks[i])
  }

  /** What was submitted, block by block. */
  function Submissions(blocks: seq<Block>): (r: seq<seq<nat>>)
    ensures |r| == |blocks|
  {
    if blocks == [] then [] else Submissions(blocks[..|blocks| - 1]) + [blocks[|blocks| - 1].pfns]
  }

  /** The bad frames of the blocks that went through, in order. */
  ghost function BadOf(blocks: seq<Block>): seq<nat> {
    if blocks == [] then []
    else
      var b := blocks[|blocks| - 1];
      BadOf(blocks[..|blocks| - 1]) + if IsFine(b) then BadFrames(b.results, b.badPages, |b.results|) else []
  }

  ghost function GoodOf(blocks: seq<Block>): seq<nat> {
    if blocks == [] then []
    else
      var b := blocks[|blocks| - 1];
      GoodOf(blocks[..|blocks| - 1]) + if IsFine(b) then GoodFrames(b.results, b.badPages, |b.results|) else []
  }

  /** The frames claimed by the blocks that went through. */
  ghost function ClaimedOf(blocks: seq<Block>): set<nat> {
    if blocks == [] then {}
    else
      var b := blocks[|blocks| - 1];
      ClaimedOf(blocks[..|blocks| - 1]) + if IsFine(b) then Held(b.results) else {}
  }

  /** The faulty frames among them. */
  ghost function FaultyOf(blocks: seq<Block>, memory: seq<MemoryPage>): set<nat>
    requires forall f :: 0 <= f < |memory| ==> memory[f].Valid()
  {
    if blocks == [] then {}
    else
      var b := blocks[|blocks| - 1];
      FaultyOf(blocks[..|blocks| - 1], memory) + if IsFine(b) then Faulty(memory, b.results) else {}
  }

  /** How many frames they claimed. */
  ghost function CountOf(blocks: seq<Block>): nat {
    if blocks == [] then 0
    else
      var b := blocks[|blocks| - 1];
      CountOf(blocks[..|blocks| - 1]) + if IsFine(b) then Pages(b.results, |b.results|) else 0
  }

  lemma Begins(m: Machine, sources: nat, memory: seq<MemoryPage>, first: Moment)
    ensures IsHistory([], m, sources, memory, first, first) && AllFine([]) && Submissions([]) == [] && CountOf([]) == 0
  {
  }

  lemma Goes(blocks: seq<Block>, m: Machine, sources: nat, memory: seq<MemoryPage>, first: Moment, b: Block)
    requires IsHistory(blocks, m, sources, memory, first, b.before) && Happened(b, m, sources, memory)
    ensures IsHistory(blocks + [b], m, sources, memory, first, b.after)
    ensures Submissions(blocks + [b]) == Submissions(blocks) + [b.pfns]
    ensures CountOf(blocks + [b]) == CountOf(blocks) + if IsFine(b) then Pages(b.results, |b.results|) else 0
    ensures AllFine(blocks) && IsFine(b) ==> AllFine(blocks + [b])
  {
    hide Happened, IsFine, Pages;
    assert (blocks + [b])[..|blocks|] == blocks;
  }

  lemma EarlierBlocks(blocks: seq<Block>, m: Machine, sources: nat, memory: seq<MemoryPage>, first: Moment, last: Moment)
    requires IsHistory(blocks, m, sources, memory, first, last) && blocks != []
    ensures var b := blocks[|blocks| - 1];
      && IsHistory(blocks[..|blocks| - 1], m, sources, memory, first, b.before)
      && Happened(b, m, sources, memory) && b.after == last
  {
    hide Happened;
  }

  lemma ElementsJoin(a: seq<nat>, b: seq<nat>)
    ensures Elements(a + b) == Elements(a) + Elements(b)
  {
    forall x | x in Elements(a) + Elements(b)
      ensures x in Elements(a + b)
    {
      if x in Elements(a) {
        var i :| 0 <= i < |a| && a[i] == x;
        assert (a + b)[i] == x;
      } else {
        var i :| 0 <= i < |b| && b[i] == x;
        assert (a + b)[|a| + i] == x;
      }
    }
  }

  /** Over all blocks exactly the bad frames are poisoned and reported bad, and the good ones reported good. */
  lemma {:induction false} Effects(blocks: seq<Block>, m: Machine, sources: nat, memory: seq<MemoryPage>, first: Moment, last: Moment)
    requires IsHistory(blocks, m, sources, memory, first, last)
    ensures last.bad == first.bad + BadOf(blocks) && last.good == first.good + GoodOf(blocks)
    ensures last.pool.poisoned == first.pool.poisoned + Elements(BadOf(blocks))
  {
    hide BadFrames, GoodFrames, Finds, TestedUpTo, Elements, IsHistory, Released, Served, GivenUp, IsFine;
    if blocks == [] {
      NothingYet(m, sources, memory, first, last);
    } else {
      var b := blocks[|blocks| - 1];
      EarlierBlocks(blocks, m, sources, memory, first, last);
      Effects(blocks[..|blocks| - 1], m, sources, memory, first, b.before);
      if IsFine(b) {
        ElementsJoin(BadOf(blocks[..|blocks| - 1]), BadFrames(b.results, b.badPages, |b.results|));
      } else {
        assert BadOf(blocks) == BadOf(blocks[..|blocks| - 1]);
      }
    }
  }

  lemma NothingYet(m: Machine, sources: nat, memory: seq<MemoryPage>, first: Moment, last: Moment)
    requires IsHistory([], m, sources, memory, first, last)
    ensures last == first && Elements([]) == {}
  {
  }

  /** Starting open or configured, the session stays so between all blocks: no call of a block is refused for its state. */
  lemma {:induction false} NeverRefused(blocks: seq<Block>, m: Machine, sources: nat, memory: seq<MemoryPage>, first: Moment, last: Moment)
    requires IsHistory(blocks, m, sources, memory, first, last) && Workable(first.state)
    ensures Workable(last.state) && forall i :: 0 <= i < |blocks| ==> Workable(blocks[i].before.state)
  {
    hide IsHistory, Workable, Served, Effective, GivenUp, IsFine, Released;
    if blocks == [] {
      NothingYet(m, sources, memory, first, last);
    } else {
      EarlierBlocks(blocks, m, sources, memory, first, last);
      NeverRefused(blocks[..|blocks| - 1], m, sources, memory, first, blocks[|blocks| - 1].before);
    }
  }

  lemma FineAnswers(b: Block, m: Machine, sources: nat, memory: seq<MemoryPage>)
    requires Happened(b, m, sources, memory) && IsFine(b)
    ensures Answers(b.results, b.pfns) && Effective(b, memory) && b.after.held == Held(b.results)
  {
    hide Answers, Effective, Held, Recorded, Released;
  }

  /** Every claimed frame is reported. */
  lemma {:induction false} Counts(blocks: seq<Block>)
    ensures |BadOf(blocks)| + |GoodOf(blocks)| == CountOf(blocks)
  {
    hide IsFine, Pages, BadFrames, GoodFrames;
    if blocks != [] {
      var b := blocks[|blocks| - 1];
      Counts(blocks[..|blocks| - 1]);
      AllReported(b.results, b.badPages, |b.results|);
    }
  }

  // ---- Without mask and injection ----

  predicate Quiet(env: TestEnv) {
    env.mask == 0 && ReadInjectionType(env.injectionFile, 0) == 0
  }

  ghost predicate AllQuiet(blocks: seq<Block>) {
    forall i :: 0 <= i < |blocks| ==> Quiet(blocks[i].env.test)
  }

  lemma BlockQuiet(b: Block, m: Machine, sources: nat, memory: seq<MemoryPage>)
    requires Happened(b, m, sources, memory) && Quiet(b.env.test) && b.before.kind == 0
    ensures b.after.kind == 0
  {
    hide Served, Effective, GivenUp, IsFine, Released;
  }

  /** In a quiet history the bad frames are exactly the faulty ones among the claimed, the good ones exactly the others. */
  lemma {:induction false} BadAreFaulty(blocks: seq<Block>, m: Machine, sources: nat, memory: seq<MemoryPage>, first: Moment, last: Moment)
    requires IsHistory(blocks, m, sources, memory, first, last) && AllQuiet(blocks) && first.kind == 0
    requires forall f :: 0 <= f < |memory| ==> memory[f].Valid()
    ensures last.kind == 0
    ensures Elements(BadOf(blocks)) == FaultyOf(blocks, memory)
    ensures Elements(GoodOf(blocks)) == set f | f in ClaimedOf(blocks) && f < |memory| && memory[f].Healthy()
    ensures forall f :: f in ClaimedOf(blocks) ==> f < |memory|
  {
    hide BadFrames, GoodFrames, Elements, IsHistory, Served, GivenUp, IsFine, Released, Held, Faulty, Happened, Effective, Quiet;
    if blocks == [] {
      NothingYet(m, sources, memory, first, last);
    } else {
      var b := blocks[|blocks| - 1];
      EarlierBlocks(blocks, m, sources, memory, first, last);
      BadAreFaulty(blocks[..|blocks| - 1], m, sources, memory, first, b.before);
      BlockQuiet(b, m, sources, memory);
      if IsFine(b) {
        QuietReports(b, m, sources, memory);
        ElementsJoin(BadOf(blocks[..|blocks| - 1]), BadFrames(b.results, b.badPages, |b.results|));
        ElementsJoin(GoodOf(blocks[..|blocks| - 1]), GoodFrames(b.results, b.badPages, |b.results|));
      } else {
        assert BadOf(blocks) == BadOf(blocks[..|blocks| - 1]) && GoodOf(blocks) == GoodOf(blocks[..|blocks| - 1]);
      }
    }
  }

  lemma QuietReports(b: Block, m: Machine, sources: nat, memory: seq<MemoryPage>)
    requires Happened(b, m, sources, memory) && Quiet(b.env.test) && b.after.kind == 0 && IsFine(b)
    requires forall f :: 0 <= f < |memory| ==> memory[f].Valid()
    ensures Elements(BadFrames(b.results, b.badPages, |b.results|)) == Faulty(memory, b.results)
    ensures Elements(GoodFrames(b.results, b.badPages, |b.results|)) == set f | f in Held(b.results) && f < |memory| && memory[f].Healthy()
    ensures forall f :: f in Held(b.results) ==> f < |memory|
  {
    hide Complete, BadFrames, GoodFrames, Finds, Happened, TestedUpTo;
    FineAnswers(b, m, sources, memory);
    ExactlyTheFaulty(b.results, b.badPages, memory, b.env.test);
    ExactlyTheHealthy(b.results, b.badPages, memory, b.env.test);
  }

  // ---- Each frame once ----

  predicate StrictlyAscending(s: seq<nat>) {
    forall i, j :: 0 <= i < j < |s| ==> s[i] < s[j]
  }

  function Concat(blocks: seq<seq<nat>>): seq<nat> {
    if blocks == [] then [] else Concat(blocks[..|blocks| - 1]) + blocks[|blocks| - 1]
  }

  lemma ConcatNext(blocks: seq<seq<nat>>, block: seq<nat>)
    ensures Concat(blocks + [block]) == Concat(blocks) + block
  {
    assert (blocks + [block])[..|blocks|] == blocks;
  }

  /** All blocks but the last, and what they submitted. */
  lemma SubmissionsSplit(blocks: seq<Block>)
    requires blocks != []
    ensures Concat(Submissions(blocks)) == Concat(Submissions(blocks[..|blocks| - 1])) + blocks[|blocks| - 1].pfns
  {
    ConcatNext(Submissions(blocks[..|blocks| - 1]), blocks[|blocks| - 1].pfns);
  }

  lemma AscendingParts(a: seq<nat>, b: seq<nat>)
    requires StrictlyAscending(a + b)
    ensures StrictlyAscending(a) && StrictlyAscending(b)
    ensures forall x, y :: x in a && y in b ==> x < y
  {
    assert forall i :: 0 <= i < |a| ==> (a + b)[i] == a[i];
    assert forall i :: 0 <= i < |b| ==> (a + b)[|a| + i] == b[i];
  }

  lemma UniqueJoin(a: seq<nat>, b: seq<nat>)
    requires Unique(a) && Unique(b) && forall x, y :: x in a && y in b ==> x < y
    ensures Unique(a + b)
  {
    forall i, k | 0 <= i < k < |a + b|
      ensures (a + b)[i] != (a + b)[k]
    {
      if i < |a| <= k {
        assert a[i] in a && b[k - |a|] in b;
      }
    }
  }

  /** If the submitted frames ascend, no frame is poisoned or reported bad twice in the whole history. */
  lemma {:induction false} BadOnceInAll(blocks: seq<Block>, m: Machine, sources: nat, memory: seq<MemoryPage>, first: Moment, last: Moment)
    requires IsHistory(blocks, m, sources, memory, first, last) && StrictlyAscending(Concat(Submissions(blocks)))
    ensures Unique(BadOf(blocks)) && forall f :: f in BadOf(blocks) ==> f in Concat(Submissions(blocks))
  {
    hide BadFrames, IsHistory, IsFine, Happened, StrictlyAscending, Unique, Concat, Submissions;
    if blocks == [] {
      NothingUnique();
    } else {
      var b := blocks[|blocks| - 1];
      var before := blocks[..|blocks| - 1];
      EarlierBlocks(blocks, m, sources, memory, first, last);
      SubmissionsSplit(blocks);
      AscendingParts(Concat(Submissions(before)), b.pfns);
      BadOnceInAll(before, m, sources, memory, first, b.before);
      if IsFine(b) {
        BlockBad(b, m, sources, memory);
        UniqueJoin(BadOf(before), BadFrames(b.results, b.badPages, |b.results|));
      } else {
        assert BadOf(blocks) == BadOf(before);
      }
    }
  }

  lemma NothingUnique()
    ensures Unique([])
  {
  }

  lemma BlockBad(b: Block, m: Machine, sources: nat, memory: seq<MemoryPage>)
    requires Happened(b, m, sources, memory) && IsFine(b)
    ensures var bad := BadFrames(b.results, b.badPages, |b.results|); Unique(bad) && forall f :: f in bad ==> f in b.pfns
  {
    hide Complete, Happened, BadFrames, Effective, IsFine;
    FineAnswers(b, m, sources, memory);
    BadOnce(b.results, b.badPages, |b.results|);
    forall f: nat | f in BadFrames(b.results, b.badPages, |b.results|)
      ensures f in b.pfns
    {
      BadFramesAre(b.results, b.badPages, |b.results|, f);
      var i :| 0 <= i < |b.results| && Failing(b.results, b.badPages, i) && b.results[i].pfn == f;
      RequestedAt(b.results, b.pfns, i);
    }
  }

  // ---- The records ----

  lemma HeldRequested(results: seq<FrameStatus>, pfns: seq<nat>, f: nat)
    requires Answers(results, pfns) && f in Held(results)
    ensures f in pfns
  {
    hide HeldOnce;
    var i :| 0 <= i < |results| && results[i].page != 0 && PfnOf(results[i].page) == f;
    PlaceOf(results, i);
  }

  /** Only frames of the block get new results. */
  lemma BlockLeaves(b: Block, m: Machine, sources: nat, memory: seq<MemoryPage>, f: nat)
    requires Happened(b, m, sources, memory)
    ensures b.after.records.Keys == b.before.records.Keys
    ensures f in b.before.records && f !in b.pfns ==> SameResults(b.after.records[f], b.before.records[f])
  {
    hide HasResult, Pages, Held, Complete, Served, GivenUp, Released, Finds, BadFrames, GoodFrames, IsFine, Answers;
    if IsFine(b) {
      hide SameResults;
      FineAnswers(b, m, sources, memory);
      assert b.results[..|b.results|] == b.results;
      if f in Held(b.results) {
        HeldRequested(b.results, b.pfns, f);
      }
    }
  }

  /** Frames not submitted in any block keep their results. */
  lemma {:induction false} OthersKeepResults(blocks: seq<Block>, m: Machine, sources: nat, memory: seq<MemoryPage>,
                                             first: Moment, last: Moment, f: nat)
    requires IsHistory(blocks, m, sources, memory, first, last)
    ensures last.records.Keys == first.records.Keys
    ensures f in first.records && f !in Concat(Submissions(blocks)) ==> SameResults(last.records[f], first.records[f])
  {
    hide IsHistory, Happened, SameResults, Submissions, Concat;
    if blocks == [] {
      NothingYet(m, sources, memory, first, last);
      Same(first.records, f);
    } else {
      var b, before := blocks[|blocks| - 1], blocks[..|blocks| - 1];
      EarlierBlocks(blocks, m, sources, memory, first, last);
      SubmissionsSplit(blocks);
      OthersKeepResults(before, m, sources, memory, first, b.before, f);
      BlockLeaves(b, m, sources, memory, f);
      if f in first.records {
        Chained(first.records[f], b.before.records[f], last.records[f]);
      }
    }
  }

  lemma Same(records: map<nat, FrameRecord>, f: nat)
    ensures f in records ==> SameResults(records[f], records[f])
  {
  }

  lemma Chained(a: FrameRecord, b: FrameRecord, c: FrameRecord)
    ensures SameResults(b, a) && SameResults(c, b) ==> SameResults(c, a)
  {
  }

  /** If the submitted frames ascend, the result a block gives a frame is, at the end, its result from the start. */
  lemma {:induction false} FinalResults(blocks: seq<Block>, m: Machine, sources: nat, memory: seq<MemoryPage>,
                                        first: Moment, last: Moment, k: nat, i: nat)
    requires IsHistory(blocks, m, sources, memory, first, last) && StrictlyAscending(Concat(Submissions(blocks)))
    requires k < |blocks| && IsFine(blocks[k]) && i < |blocks[k].results| && blocks[k].results[i].page != 0
    ensures var b := blocks[k];
      var st := b.results[i];
      && st.pfn in first.records && st.pfn in last.records
      && HasResult(last.records[st.pfn], first.records[st.pfn], st, Failing(b.results, b.badPages, i), TimeOf(b.env.now, i))
  {
    hide IsHistory, Happened, SameResults, HasResult, Submissions, Concat, StrictlyAscending, IsFine, Failing;
    var b, before := blocks[|blocks| - 1], blocks[..|blocks| - 1];
    var f := blocks[k].results[i].pfn;
    EarlierBlocks(blocks, m, sources, memory, first, last);
    SubmissionsSplit(blocks);
    AscendingParts(Concat(Submissions(before)), b.pfns);
    if k < |before| {
      FinalResults(before, m, sources, memory, first, b.before, k, i);
      HistoryAt(blocks, m, sources, memory, first, last, k);
      ClaimedSubmitted(blocks[k], m, sources, memory, i);
      SubmittedAt(before, k, f);
      BlockLeaves(b, m, sources, memory, f);
      TestedStays(first.records[f], b.before.records[f], last.records[f], blocks[k].results[i],
                  Failing(blocks[k].results, blocks[k].badPages, i), TimeOf(blocks[k].env.now, i));
    } else {
      ClaimedSubmitted(b, m, sources, memory, i);
      OthersKeepResults(before, m, sources, memory, first, b.before, f);
      SameThenTested(first.records[f], b.before.records[f], last.records[f], b.results[i], Failing(b.results, b.badPages, i),
                     TimeOf(b.env.now, i));
    }
  }

  lemma HistoryAt(blocks: seq<Block>, m: Machine, sources: nat, memory: seq<MemoryPage>, first: Moment, last: Moment, k: nat)
    requires IsHistory(blocks, m, sources, memory, first, last) && k < |blocks|
    ensures Happened(blocks[k], m, sources, memory)
  {
  }

  lemma ClaimedSubmitted(b: Block, m: Machine, sources: nat, memory: seq<MemoryPage>, i: nat)
    requires Happened(b, m, sources, memory) && IsFine(b) && i < |b.results| && b.results[i].page != 0
    ensures var st := b.results[i];
      && st.pfn in b.pfns && st.pfn in b.before.records && st.pfn in b.after.records
      && HasResult(b.after.records[st.pfn], b.before.records[st.pfn], st, Failing(b.results, b.badPages, i), TimeOf(b.env.now, i))
  {
    hide Complete, Happened, Finds, SameResults, HasResult, BadFrames, GoodFrames, IsFine, Held;
    FineAnswers(b, m, sources, memory);
    RequestedAt(b.results, b.pfns, i);
  }

  lemma {:induction false} SubmittedAt(blocks: seq<Block>, k: nat, f: nat)
    requires k < |blocks| && f in blocks[k].pfns
    ensures f in Concat(Submissions(blocks))
  {
    hide Submissions, Concat;
    SubmissionsSplit(blocks);
    if k < |blocks| - 1 {
      SubmittedAt(blocks[..|blocks| - 1], k, f);
    }
  }

  // ---- What the sums over blocks contain ----

  lemma {:induction false} SubmissionsAre(blocks: seq<Block>, i: nat)
    requires i < |blocks|
    ensures Submissions(blocks)[i] == blocks[i].pfns
  {
    if i < |blocks| - 1 {
      SubmissionsAre(blocks[..|blocks| - 1], i);
    }
  }

  /** A frame was claimed if a block that went through held it, and is faulty if moreover its memory is. */
  lemma {:induction false} ClaimedAre(blocks: seq<Block>, memory: seq<MemoryPage>, f: nat)
    requires forall x :: 0 <= x < |memory| ==> memory[x].Valid()
    ensures f in ClaimedOf(blocks) <==> exists i :: 0 <= i < |blocks| && IsFine(blocks[i]) && f in Held(blocks[i].results)
    ensures f in FaultyOf(blocks, memory) <==> f in ClaimedOf(blocks) && f < |memory| && !memory[f].Healthy()
  {
    hide IsFine, Held;
    if blocks != [] {
      var before, b := blocks[..|blocks| - 1], blocks[|blocks| - 1];
      ClaimedAre(before, memory, f);
      if f in ClaimedOf(before) {
        var i :| 0 <= i < |before| && IsFine(before[i]) && f in Held(before[i].results);
        assert blocks[i] == before[i];
      }
      if exists i :: 0 <= i < |blocks| && IsFine(blocks[i]) && f in Held(blocks[i].results) {
        var i :| 0 <= i < |blocks| && IsFine(blocks[i]) && f in Held(blocks[i].results);
        assert i < |before| ==> blocks[i] == before[i];
      }
    }
  }
}
