/** One block of the scheduler: claim its frames, test them, record the results and poison the bad frames. */
module BatchTest {
  import opened FaultModel
  import opened Kernel
  import opened Records
  import opened Claiming
  import opened Session
  import opened Physmem
  import opened MemtesterWrapper
  import Arith
  import Report
  import Buddy

  /** What is kept about a frame between tests. */
  datatype FrameRecord =
    FrameRecord(lastSuccessfulTest: nat, lastFailedTest: nat, lastClaimingTime: nat, lastClaimingAttempt: nat,
                numErrors: nat, lastClaimingMethod: nat)

  /** What the block meets: during the request, the mapping and the test, and the time. */
  datatype BatchEnv = BatchEnv(request: RequestEnv, readFailsAt: nat, mapFailsAt: nat, test: TestEnv, now: seq<nat>)

  /**
   The new record of a claimed frame: when and how it was claimed, and the result of its test. A failure counts, in
   32 bits; a success clears the count; the time of the other kind of result stays.
   */
  predicate HasResult(after: FrameRecord, before: FrameRecord, st: FrameStatus, failed: bool, now: nat) {
    && after.lastClaimingTime == st.jiffies && after.lastClaimingMethod == st.actualSource
    && after.numErrors == (if failed then (before.numErrors + 1) % 0x1_0000_0000 else 0)
    && after.lastFailedTest == (if failed then now else before.lastFailedTest)
    && after.lastSuccessfulTest == (if failed then before.lastSuccessfulTest else now)
  }

  /** The test results of a frame are the same, whenever it was last tried to claim it. */
  predicate SameResults(a: FrameRecord, b: FrameRecord) {
    && a.lastSuccessfulTest == b.lastSuccessfulTest && a.lastFailedTest == b.lastFailedTest && a.numErrors == b.numErrors
    && a.lastClaimingTime == b.lastClaimingTime && a.lastClaimingMethod == b.lastClaimingMethod
  }

  function Requests(pfns: seq<nat>, sources: nat): seq<FrameRequest> {
    seq(|pfns|, i requires 0 <= i < |pfns| => FrameRequest(pfns[i], sources))
  }

  /** The records are about requests for `pfns`, in order, each from the allowed sources. */
  predicate Asked(results: seq<FrameStatus>, pfns: seq<nat>, sources: nat) {
    |results| == |pfns| && forall i :: 0 <= i < |pfns| ==> results[i].request == FrameRequest(pfns[i], sources)
  }

  /** All numbers of a batch fit into the fields of the records. */
  predicate Sized(m: Machine, pfns: seq<nat>, sources: nat, jiffies: seq<nat>) {
    && m.numFrames < 0x10_0000_0000_0000 && |pfns| < 0x10_0000_0000_0000
    && sources < 0x1_0000_0000_0000_0000
    && (forall i :: 0 <= i < |pfns| ==> pfns[i] < 0x1_0000_0000_0000_0000)
    && (forall i :: 0 <= i < |jiffies| ==> jiffies[i] < 0x1_0000_0000_0000_0000)
  }

  /** The records are the answers to requests for `pfns`, complete and in order. */
  ghost predicate Answers(results: seq<FrameStatus>, pfns: seq<nat>) {
    && Complete(results) && |results| == |pfns|
    && forall i :: 0 <= i < |results| ==> results[i].request.pfn == pfns[i]
  }

  // ---- Which pages were claimed ----

  /** `claimed` gives, for every page held by the first `n` records, its record. */
  ghost predicate ByPage(claimed: map<nat, FrameStatus>, results: seq<FrameStatus>, n: nat)
    requires n <= |results|
  {
    && |claimed| == Pages(results, n) && (forall k: nat :: k in claimed <==> k < Pages(results, n))
    && forall k: nat :: k < Pages(results, n) ==> k < Pages(results, |results|) && claimed[k] == results[Nth(results, k)]
  }

  lemma ByPageNext(claimed: map<nat, FrameStatus>, results: seq<FrameStatus>, n: nat)
    requires Complete(results) && n < |results| && ByPage(claimed, results, n)
    ensures var st := results[n];
      if st.page != 0 then
        && st.vmaOffset % PAGE_SIZE == 0 && st.vmaOffset / PAGE_SIZE !in claimed
        && ByPage(claimed[st.vmaOffset / PAGE_SIZE := st], results, n + 1)
      else ByPage(claimed, results, n + 1)
  {
    hide Complete, Nth, Pages;
    PlaceOf(results, n);
  }

  /**
   The scheduler's checks on what it read: matching frames, aligned offsets, no offset twice, no gaps.
   None of them ever fails on a complete array; page `k` is the k-th claimed frame.
   */
  method CollectClaimed(results: seq<FrameStatus>, pfns: seq<nat>) returns (ok: bool, claimed: map<nat, FrameStatus>)
    requires Answers(results, pfns)
    ensures ok && ByPage(claimed, results, |results|)
  {
    hide Complete, Answers, ByPage, Range, Pages, Nth, InPlace;
    claimed := map[];
    NoPages(results, pfns);
    var i := 0;
    while i < |results|
      invariant 0 <= i <= |results|
      invariant ByPage(claimed, results, i)
    {
      var st := results[i];
      RequestedAt(results, pfns, i);
      ByPageNext(claimed, results, i);
      if st.page != 0 {
        if st.pfn != st.request.pfn || st.pfn !in pfns || st.vmaOffset % PAGE_SIZE != 0 {
          return false, claimed;
        }
        var pageIndex := st.vmaOffset / PAGE_SIZE;
        if pageIndex in claimed {
          return false, claimed;
        }
        claimed := claimed[pageIndex := st];
      }
      i := i + 1;
    }
    ok := claimed.Keys == Range(|claimed|);
    WholeRange(claimed, results);
  }

  lemma WholeRange(claimed: map<nat, FrameStatus>, results: seq<FrameStatus>)
    requires ByPage(claimed, results, |results|)
    ensures claimed.Keys == Range(|claimed|)
  {
  }

  function Range(n: nat): (r: set<nat>)
    ensures forall k: nat :: k in r <==> k < n
  {
    if n == 0 then {} else Range(n - 1) + {n - 1}
  }

  lemma NoPages(results: seq<FrameStatus>, pfns: seq<nat>)
    requires Answers(results, pfns)
    ensures ByPage(map[], results, 0) && Complete(results)
  {
  }

  lemma RequestedAt(results: seq<FrameStatus>, pfns: seq<nat>, i: nat)
    requires Answers(results, pfns) && i < |results|
    ensures results[i].request.pfn in pfns && (results[i].page != 0 ==> results[i].pfn == results[i].request.pfn)
  {
    if results[i].page != 0 {
      assert InPlace(results, i);
    }
  }

  lemma PlaceOf(results: seq<FrameStatus>, i: nat)
    requires Complete(results) && i < |results|
    ensures Pages(results, i + 1) == Pages(results, i) + if results[i].page != 0 then 1 else 0
    ensures results[i].page != 0 ==>
      && results[i].vmaOffset / PAGE_SIZE == Pages(results, i) && results[i].vmaOffset % PAGE_SIZE == 0
      && results[i].pfn == results[i].request.pfn && results[i].page == PageOf(results[i].pfn)
      && Pages(results, i) < Pages(results, |results|) && Nth(results, Pages(results, i)) == i
  {
    if results[i].page != 0 {
      assert InPlace(results, i);
      NthOf(results, i);
    }
  }

  // ---- Fitting ----

  lemma PowerIs()
    ensures Power256(WORD_BYTES) == 0x1_0000_0000_0000_0000
  {
  }

  lemma RecordedFit(results: seq<FrameStatus>, p: Pool, m: Machine, pfns: seq<nat>, sources: nat, jiffies: seq<nat>)
    requires Sized(m, pfns, sources, jiffies) && |results| == |pfns|
    requires Recorded(results, p, m, Requests(pfns, sources), jiffies, |pfns|)
    ensures Asked(results, pfns, sources)
    ensures forall i :: 0 <= i < |results| ==> Fits(results[i]) && results[i].request.pfn == pfns[i]
  {
    hide Power256, PoolAfter;
    PowerIs();
    var reqs := Requests(pfns, sources);
    forall i | 0 <= i < |results|
      ensures Fits(results[i]) && results[i].request == FrameRequest(pfns[i], sources)
    {
      PagesAtMost(results, i);
      assert results[i] == Record(PoolAfter(p, m, reqs, i).blocks, m, reqs[i], PAGE_SIZE * Pages(results, i), TimeOf(jiffies, i));
    }
  }

  // ---- What the tests found ----

  /** Record `i` is of a claimed frame whose page is among `badPages`. */
  predicate Failing(results: seq<FrameStatus>, badPages: set<nat>, i: nat)
    requires i < |results|
  {
    results[i].page != 0 && Pages(results, i) in badPages
  }

  /** The frames that failed, in the order of the records. */
  function BadFrames(results: seq<FrameStatus>, badPages: set<nat>, n: nat): seq<nat>
    requires n <= |results|
  {
    if n == 0 then [] else BadFrames(results, badPages, n - 1) + if Failing(results, badPages, n - 1) then [results[n - 1].pfn] else []
  }

  /** The claimed frames that did not fail, in the order of the records. */
  function GoodFrames(results: seq<FrameStatus>, badPages: set<nat>, n: nat): seq<nat>
    requires n <= |results|
  {
    if n == 0 then []
    else GoodFrames(results, badPages, n - 1)
         + if results[n - 1].page != 0 && !Failing(results, badPages, n - 1) then [results[n - 1].pfn] else []
  }

  /** The frames claimed by the first `n` requests have their new results, all other frames have their old ones. */
  ghost predicate TestedUpTo(before: map<nat, FrameRecord>, after: map<nat, FrameRecord>, results: seq<FrameStatus>,
                             badPages: set<nat>, now: seq<nat>, n: nat)
    requires n <= |results|
  {
    && after.Keys == before.Keys
    && (forall i :: 0 <= i < n && results[i].page != 0 ==>
      && results[i].pfn in before
      && HasResult(after[results[i].pfn], before[results[i].pfn], results[i], Failing(results, badPages, i), TimeOf(now, i)))
    && (forall f :: f in before && f !in Held(results[..n]) ==> SameResults(after[f], before[f]))
  }

  /** One record's effect on the frames: only the frame it claimed gets a new result. */
  ghost predicate TestedOne(before: map<nat, FrameRecord>, after: map<nat, FrameRecord>, st: FrameStatus, failed: bool, now: nat) {
    && after.Keys == before.Keys
    && (st.page != 0 ==> st.pfn in before && HasResult(after[st.pfn], before[st.pfn], st, failed, now))
    && forall f :: f in before && (st.page == 0 || f != st.pfn) ==> SameResults(after[f], before[f])
  }

  lemma SameThenTested(a: FrameRecord, b: FrameRecord, c: FrameRecord, st: FrameStatus, failed: bool, now: nat)
    requires SameResults(b, a)
    ensures SameResults(c, b) ==> SameResults(c, a)
    ensures HasResult(c, b, st, failed, now) <==> HasResult(c, a, st, failed, now)
  {
  }

  /** A tested frame keeps its result when only other frames change. */
  lemma TestedStays(a: FrameRecord, b: FrameRecord, c: FrameRecord, st: FrameStatus, failed: bool, now: nat)
    requires HasResult(b, a, st, failed, now) && SameResults(c, b)
    ensures HasResult(c, a, st, failed, now)
  {
  }

  lemma TestedNext(before: map<nat, FrameRecord>, mid: map<nat, FrameRecord>, after: map<nat, FrameRecord>,
                   results: seq<FrameStatus>, badPages: set<nat>, now: seq<nat>, n: nat)
    requires Complete(results) && n < |results| && TestedUpTo(before, mid, results, badPages, now, n)
    requires TestedOne(mid, after, results[n], Failing(results, badPages, n), TimeOf(now, n))
    ensures TestedUpTo(before, after, results, badPages, now, n + 1) && after.Keys == before.Keys
  {
    hide Pages, Failing, SameResults, HasResult, Held, HeldOnce;
    var st, failed := results[n], Failing(results, badPages, n);
    OthersDiffer(results, n);
    forall i | 0 <= i < n && results[i].page != 0
      ensures results[i].pfn in before
      ensures HasResult(after[results[i].pfn], before[results[i].pfn], results[i], Failing(results, badPages, i), TimeOf(now, i))
    {
      var f := results[i].pfn;
      TestedStays(before[f], mid[f], after[f], results[i], Failing(results, badPages, i), TimeOf(now, i));
    }
    if st.page != 0 {
      SameThenTested(before[st.pfn], mid[st.pfn], after[st.pfn], st, failed, TimeOf(now, n));
    }
    forall f | f in before && f !in Held(results[..n + 1])
      ensures SameResults(after[f], before[f])
    {
      SameThenTested(before[f], mid[f], after[f], st, failed, TimeOf(now, n));
    }
  }

  lemma OthersDiffer(results: seq<FrameStatus>, n: nat)
    requires Complete(results) && n < |results|
    ensures Held(results[..n + 1]) == Held(results[..n]) + if results[n].page != 0 then {results[n].pfn} else {}
    ensures results[n].page != 0 ==> results[n].pfn !in Held(results[..n])
    ensures results[n].page != 0 ==> forall i :: 0 <= i < n && results[i].page != 0 ==> results[i].pfn != results[n].pfn
  {
    hide Pages;
    PhysMemSession.HeldNext(results, n);
    if results[n].page != 0 {
      assert InPlace(results, n);
      forall i | 0 <= i < n && results[i].page != 0
        ensures results[i].pfn != results[n].pfn
      {
        assert InPlace(results, i);
      }
    }
  }

  lemma TestedNone(before: map<nat, FrameRecord>, results: seq<FrameStatus>, badPages: set<nat>, now: seq<nat>)
    ensures TestedUpTo(before, before, results, badPages, now, 0) && Elements([]) == {}
  {
  }

  function Elements(s: seq<nat>): set<nat> {
    set i | 0 <= i < |s| :: s[i]
  }

  /** The scheduler's check of the tester's offsets. */
  method PagesOfOffsets(offsets: seq<nat>, n: nat, ghost bad: seq<nat>) returns (ok: bool, pages: set<nat>)
    requires offsets == seq(|bad|, i requires 0 <= i < |bad| => PAGE_SIZE * bad[i])
    requires forall i :: 0 <= i < |bad| ==> bad[i] < n
    ensures ok && pages == Elements(bad)
  {
    pages := {};
    var i := 0;
    while i < |offsets|
      invariant 0 <= i <= |offsets|
      invariant pages == Elements(bad[..i])
    {
      assert offsets[i] == PAGE_SIZE * bad[i];
      Arith.DivisionUnique(offsets[i], PAGE_SIZE, bad[i], 0);
      assert bad[..i + 1] == bad[..i] + [bad[i]];
      if offsets[i] >= PAGE_SIZE * n || offsets[i] % PAGE_SIZE != 0 {
        return false, pages;
      }
      pages := pages + {offsets[i] / PAGE_SIZE};
      i := i + 1;
    }
    assert bad[..i] == bad;
    ok := true;
  }

  /** Record `i` is of a frame that is faulty, or whose page an injection is aimed at. */
  ghost predicate FrameFails(memory: seq<MemoryPage>, results: seq<FrameStatus>, kind: int, page: int, i: nat)
    requires i < |results| && results[i].pfn < |memory| && memory[results[i].pfn].Valid()
  {
    !memory[results[i].pfn].Healthy() || (1 <= kind <= 7 && page == Pages(results, i))
  }

  /** The tests miss no faulty frame, and without a test mask they find exactly the failing ones. */
  ghost predicate Finds(badPages: set<nat>, memory: seq<MemoryPage>, results: seq<FrameStatus>, env: TestEnv, kind: int) {
    forall i :: 0 <= i < |results| && results[i].page != 0 ==>
      && results[i].pfn < |memory| && memory[results[i].pfn].Valid()
      && (!memory[results[i].pfn].Healthy() ==> Failing(results, badPages, i))
      && (env.mask == 0 ==> (Failing(results, badPages, i) <==> FrameFails(memory, results, kind, env.page, i)))
  }

  lemma TellsFinds(bad: seq<nat>, memory: seq<MemoryPage>, results: seq<FrameStatus>, env: TestEnv, kind: int)
    requires Complete(results) && Wrapper.Tells(bad, memory, results, env, kind)
    ensures Finds(Elements(bad), memory, results, env, kind)
  {
    hide Pages, Nth, Complete, Report.Batch;
    forall i | 0 <= i < |results| && results[i].page != 0
      ensures results[i].pfn < |memory| && memory[results[i].pfn].Valid()
      ensures !memory[results[i].pfn].Healthy() ==> Failing(results, Elements(bad), i)
      ensures env.mask == 0 ==> (Failing(results, Elements(bad), i) <==> FrameFails(memory, results, kind, env.page, i))
    {
      PlaceOf(results, i);
      var k := Pages(results, i);
      assert PageFrame(results, k) == results[i].pfn;
      assert k in bad <==> k in Elements(bad);
    }
  }

  /** A frame is among the bad ones exactly when a record of it fails. */
  lemma {:induction false} BadFramesAre(results: seq<FrameStatus>, badPages: set<nat>, n: nat, f: nat)
    requires n <= |results|
    ensures f in BadFrames(results, badPages, n) <==> exists i :: 0 <= i < n && Failing(results, badPages, i) && results[i].pfn == f
  {
    if n > 0 {
      BadFramesAre(results, badPages, n - 1, f);
      assert f in BadFrames(results, badPages, n) <==>
        f in BadFrames(results, badPages, n - 1) || (Failing(results, badPages, n - 1) && results[n - 1].pfn == f);
    }
  }

  predicate Unique(s: seq<nat>) {
    forall i, k :: 0 <= i < k < |s| ==> s[i] != s[k]
  }

  /** No frame is poisoned or reported twice. */
  lemma {:induction false} BadOnce(results: seq<FrameStatus>, badPages: set<nat>, n: nat)
    requires Complete(results) && n <= |results|
    ensures Unique(BadFrames(results, badPages, n))
  {
    hide Pages, HeldOnce, Held, Complete;
    if n > 0 {
      BadOnce(results, badPages, n - 1);
      var before := BadFrames(results, badPages, n - 1);
      if Failing(results, badPages, n - 1) {
        BadFramesAre(results, badPages, n - 1, results[n - 1].pfn);
        OthersDiffer(results, n - 1);
        forall i | 0 <= i < |before|
          ensures before[i] != results[n - 1].pfn
        {
          assert before[i] in before;
        }
      } else {
        assert BadFrames(results, badPages, n) == before;
      }
    }
  }

  /** The frames poisoned are held by the session at that time. */
  lemma BadAreHeld(results: seq<FrameStatus>, env: BatchEnv, badPages: set<nat>, f: nat)
    requires Complete(results)
    requires f in BadFrames(results, badPages, |results|)
    ensures f in Held(ArrayLeft(results, env)) && f in Held(results)
  {
    hide Complete, Pages;
    ArrayLeftHeld(results, env);
    BadFramesAre(results, badPages, |results|, f);
    var i :| 0 <= i < |results| && Failing(results, badPages, i) && results[i].pfn == f;
    PlaceOf(results, i);
    assert results[i].page != 0 && PfnOf(results[i].page) == f;
  }

  lemma {:induction false} GoodFramesAre(results: seq<FrameStatus>, badPages: set<nat>, n: nat, f: nat)
    requires n <= |results|
    ensures f in GoodFrames(results, badPages, n) <==>
      exists i :: 0 <= i < n && results[i].page != 0 && !Failing(results, badPages, i) && results[i].pfn == f
  {
    if n > 0 {
      GoodFramesAre(results, badPages, n - 1, f);
      assert f in GoodFrames(results, badPages, n) <==>
        f in GoodFrames(results, badPages, n - 1)
        || (results[n - 1].page != 0 && !Failing(results, badPages, n - 1) && results[n - 1].pfn == f);
    }
  }

  /** Every claimed frame is reported, as good or as bad. */
  lemma {:induction false} AllReported(results: seq<FrameStatus>, badPages: set<nat>, n: nat)
    requires n <= |results|
    ensures |BadFrames(results, badPages, n)| + |GoodFrames(results, badPages, n)| == Pages(results, n)
  {
    if n > 0 {
      AllReported(results, badPages, n - 1);
    }
  }

  /** The frames of the batch that are really faulty. */
  ghost function Faulty(memory: seq<MemoryPage>, results: seq<FrameStatus>): set<nat>
    requires forall f :: 0 <= f < |memory| ==> memory[f].Valid()
  {
    set f | f in Held(results) && f < |memory| && !memory[f].Healthy()
  }

  /** Without injection and without a mask, the bad frames are exactly the claimed frames that are faulty. */
  lemma ExactlyTheFaulty(results: seq<FrameStatus>, badPages: set<nat>, memory: seq<MemoryPage>, env: TestEnv)
    requires Complete(results) && Finds(badPages, memory, results, env, 0) && env.mask == 0
    requires forall f :: 0 <= f < |memory| ==> memory[f].Valid()
    ensures Elements(BadFrames(results, badPages, |results|)) == Faulty(memory, results)
  {
    hide Pages, Complete, HeldOnce, BadFrames;
    forall f: nat
      ensures f in Elements(BadFrames(results, badPages, |results|)) <==> f in Faulty(memory, results)
    {
      BadFramesAre(results, badPages, |results|, f);
      if f in BadFrames(results, badPages, |results|) {
        var i :| 0 <= i < |results| && Failing(results, badPages, i) && results[i].pfn == f;
        PlaceOf(results, i);
        assert PfnOf(results[i].page) == f;
      }
      if f in Faulty(memory, results) {
        var i :| 0 <= i < |results| && results[i].page != 0 && PfnOf(results[i].page) == f;
        PlaceOf(results, i);
        assert Failing(results, badPages, i);
      }
    }
  }

  /** And the good frames are exactly the claimed ones that are healthy. */
  lemma ExactlyTheHealthy(results: seq<FrameStatus>, badPages: set<nat>, memory: seq<MemoryPage>, env: TestEnv)
    requires Complete(results) && Finds(badPages, memory, results, env, 0) && env.mask == 0
    requires forall f :: 0 <= f < |memory| ==> memory[f].Valid()
    ensures Elements(GoodFrames(results, badPages, |results|)) == set f | f in Held(results) && f < |memory| && memory[f].Healthy()
    ensures forall f :: f in Held(results) ==> f < |memory|
  {
    hide Pages, Complete, HeldOnce, GoodFrames;
    forall f: nat
      ensures f in Elements(GoodFrames(results, badPages, |results|)) <==> f in Held(results) && f < |memory| && memory[f].Healthy()
      ensures f in Held(results) ==> f < |memory|
    {
      GoodFramesAre(results, badPages, |results|, f);
      if f in GoodFrames(results, badPages, |results|) {
        var i :| 0 <= i < |results| && results[i].page != 0 && !Failing(results, badPages, i) && results[i].pfn == f;
        PlaceOf(results, i);
        assert PfnOf(results[i].page) == f;
      }
      if f in Held(results) {
        var i :| 0 <= i < |results| && results[i].page != 0 && PfnOf(results[i].page) == f;
        PlaceOf(results, i);
        assert results[i].pfn < |memory|;
      }
    }
  }

  /**
   An ascending interval of usable frames: without injection and without a mask, the bad frames are exactly the
   faulty ones among those whose free block, before the request, started in the interval.
   */
  lemma FaultyOfInterval(results: seq<FrameStatus>, badPages: set<nat>, memory: seq<MemoryPage>, env: TestEnv,
                         p: Pool, m: Machine, reqs: seq<FrameRequest>, jiffies: seq<nat>, a: nat, f: nat)
    requires PoolValid(p) && |reqs| == |results| > 0 && Recorded(results, p, m, reqs, jiffies, |reqs|) && Claiming.Ascending(m, reqs, a)
    requires IsMemory(memory, m) && Finds(badPages, memory, results, env, 0) && env.mask == 0
    ensures f in BadFrames(results, badPages, |results|) <==>
      a <= f < a + |reqs| && Buddy.HeadFrom(p.blocks, f, a) && f < |memory| && !memory[f].Healthy()
  {
    hide PoolValid, Recorded, Finds, Buddy.HeadFrom, BadFrames, Complete, Held;
    RecordedComplete(results, p, m, reqs, jiffies);
    AscendingHeld(results, p, m, reqs, jiffies, a, f);
    ExactlyTheFaulty(results, badPages, memory, env);
    assert f in BadFrames(results, badPages, |results|) <==> f in Elements(BadFrames(results, badPages, |results|));
    if a <= f < a + |reqs| {
      assert reqs[f - a].pfn == f && Usable(m, f);
    }
  }

  // ---- What a block does ----

  /** The array after the tests of a block: the kernel may have refused a frame to the parent or to the child. */
  function ArrayLeft(results: seq<FrameStatus>, env: BatchEnv): seq<FrameStatus> {
    if Pages(results, |results|) == 0 then results
    else if Refused(results, env.mapFailsAt) then Marked(results, env.mapFailsAt)
    else AfterChild(env.test, results)
  }

  lemma ArrayLeftHeld(results: seq<FrameStatus>, env: BatchEnv)
    requires Complete(results)
    ensures Complete(ArrayLeft(results, env)) && Held(ArrayLeft(results, env)) == Held(results)
  {
    hide Complete, Held, Marked;
    if Refused(results, env.mapFailsAt) {
      MarkedComplete(results, env.mapFailsAt);
    }
    if Refused(results, env.test.failsAt) {
      MarkedComplete(results, env.test.failsAt);
    }
  }

  /** The device takes the request and serves it to the end. */
  predicate Configures(state: State, pfns: seq<nat>, env: RequestEnv) {
    Device.Accepts(state, env) && pfns != [] && !env.allocFails && env.copyFailsAt >= |pfns|
  }

  /** Whether mapping the claimed frames and testing them goes through. */
  ghost predicate Tests(results: seq<FrameStatus>, env: BatchEnv) {
    Pages(results, |results|) == 0 || (!Refused(results, env.mapFailsAt) && Wrapper.AllFine(env.test, results))
  }

  /** Whether every call of the block goes through. */
  ghost predicate Fine(state: State, pfns: seq<nat>, results: seq<FrameStatus>, env: BatchEnv) {
    Configures(state, pfns, env.request) && env.readFailsAt >= |pfns| && Tests(results, env)
  }

  /** The scheduler and its device at a moment between blocks. */
  datatype Moment =
    Moment(state: State, pool: Pool, held: set<nat>, records: map<nat, FrameRecord>, bad: seq<nat>, good: seq<nat>, kind: int)

  /** A block as it happened: what was asked, the pool the claims started from, what came back, which pages failed. */
  datatype Block =
    Block(pfns: seq<nat>, env: BatchEnv, before: Moment, start: Pool, results: seq<FrameStatus>, badPages: set<nat>, after: Moment)

  predicate Workable(state: State) {
    state == OPEN || state == CONFIGURED
  }

  /** The session serves the block: the array answers the requests, and the frames it holds are out of the pool. */
  ghost predicate Served(b: Block, m: Machine, sources: nat) {
    && b.after.state == CONFIGURED && b.after.held == Held(b.results)
    && Answers(b.results, b.pfns) && Asked(b.results, b.pfns, sources)
    && b.after.pool == PoolAfter(b.start, m, Requests(b.pfns, sources), |b.pfns|).(poisoned := b.after.pool.poisoned)
    && Recorded(b.results, b.start, m, Requests(b.pfns, sources), b.env.request.jiffies, |b.pfns|)
  }

  /** The request fails on the way: the session holds nothing, and the frames taken meanwhile are given back. */
  ghost predicate GivenUp(b: Block, m: Machine, sources: nat) {
    var reqs, env := Requests(b.pfns, sources), b.env.request;
    && b.after.state == OPEN && b.after.held == {}
    && if b.pfns == [] || env.allocFails then b.after.pool == b.start
       else env.copyFailsAt < |reqs|
            && Restored(b.start, Taking(b.start, m, reqs, env.copyFailsAt), m.unclean, env.withholdUndo, b.after.pool)
  }

  /** The tests have their effect: exactly the bad frames are poisoned, and every claimed frame gets its result. */
  ghost predicate Effective(b: Block, memory: seq<MemoryPage>) {
    var bad := BadFrames(b.results, b.badPages, |b.results|);
    && Finds(b.badPages, memory, b.results, b.env.test, b.after.kind)
    && (b.results != [] && Pages(b.results, |b.results|) > 0 ==>
         b.after.kind == ReadInjectionType(b.env.test.injectionFile, b.before.kind))
    && TestedUpTo(b.before.records, b.after.records, b.results, b.badPages, b.env.now, |b.results|)
    && b.after.bad == b.before.bad + bad
    && b.after.good == b.before.good + GoodFrames(b.results, b.badPages, |b.results|)
    && b.after.pool.poisoned == b.before.pool.poisoned + Elements(bad)
  }

  /** No frame is poisoned and no result changes. */
  predicate WithoutEffect(b: Block) {
    && b.after.pool.poisoned == b.before.pool.poisoned && b.after.records == b.before.records
    && b.after.bad == b.before.bad && b.after.good == b.before.good
  }

  ghost predicate IsFine(b: Block) {
    Fine(b.before.state, b.pfns, b.results, b.env)
  }

  /** Everything that holds of a block, whether or not it goes through. */
  ghost predicate Happened(b: Block, m: Machine, sources: nat, memory: seq<MemoryPage>) {
    && (if !Device.Accepts(b.before.state, b.env.request) then b.after == b.before
        else
          && Released(b.before.pool, b.before.held, m.unclean, b.env.request.withhold, b.start)
          && if Configures(b.before.state, b.pfns, b.env.request) then Served(b, m, sources) else GivenUp(b, m, sources))
    && (if IsFine(b) then Effective(b, memory) else WithoutEffect(b))
    && b.after.kind in {b.before.kind, ReadInjectionType(b.env.test.injectionFile, b.before.kind)}
    && (Workable(b.before.state) ==> Workable(b.after.state))
  }

  /** The block asks for an ascending interval of frames that are all System RAM, and allows free buddy pages. */
  ghost predicate IsInterval(b: Block, m: Machine, sources: nat, a: nat) {
    && (sources / 2) % 2 == 1
    && forall i :: 0 <= i < |b.pfns| ==> b.pfns[i] == a + i && a + i < m.numFrames && InSystemRam(m.resources, a + i)
  }

  lemma IntervalRequests(b: Block, m: Machine, sources: nat, a: nat)
    requires IsInterval(b, m, sources, a)
    ensures Claiming.Ascending(m, Requests(b.pfns, sources), a)
  {
    hide InSystemRam;
  }

  /** Of an interval the session holds exactly the frames whose free block, before the requests, started in it. */
  lemma IntervalHeld(b: Block, m: Machine, sources: nat, memory: seq<MemoryPage>, a: nat, f: nat)
    requires Happened(b, m, sources, memory) && Configures(b.before.state, b.pfns, b.env.request) && IsInterval(b, m, sources, a)
    ensures f in Held(b.results) <==> a <= f < a + |b.pfns| && Buddy.HeadFrom(b.start.blocks, f, a)
  {
    hide Held, Recorded, Buddy.HeadFrom, PoolValid, Complete, IsFine, Effective, IsInterval;
    IntervalRequests(b, m, sources, a);
    AscendingHeld(b.results, b.start, m, Requests(b.pfns, sources), b.env.request.jiffies, a, f);
  }

  /** And if all calls go through, without mask and injection, exactly the faulty ones among them are bad. */
  lemma IntervalFaulty(b: Block, m: Machine, sources: nat, memory: seq<MemoryPage>, a: nat, f: nat)
    requires Happened(b, m, sources, memory) && IsFine(b) && IsInterval(b, m, sources, a) && IsMemory(memory, m)
    requires b.env.test.mask == 0 && b.after.kind == 0
    ensures f in BadFrames(b.results, b.badPages, |b.results|) <==>
      a <= f < a + |b.pfns| && Buddy.HeadFrom(b.start.blocks, f, a) && f < |memory| && !memory[f].Healthy()
  {
    hide Held, Recorded, Buddy.HeadFrom, PoolValid, Complete, BadFrames, Finds, TestedUpTo, IsInterval;
    IntervalRequests(b, m, sources, a);
    FaultyOfInterval(b.results, b.badPages, memory, b.env.test, b.start, m, Requests(b.pfns, sources), b.env.request.jiffies, a, f);
  }

  class SlowScheduler {
    const device: Device
    const tester: Wrapper
    var records: map<nat, FrameRecord>
    var reportedBad: seq<nat>
    var reportedGood: seq<nat>
    ghost var log: seq<Block>  // the blocks so far

    constructor (device: Device, tester: Wrapper, records: map<nat, FrameRecord>)
      ensures this.device == device && this.tester == tester && this.records == records
      ensures reportedBad == [] && reportedGood == [] && log == []
    {
      this.device := device;
      this.tester := tester;
      this.records := records;
      reportedBad, reportedGood, log := [], [], [];
    }

    ghost function Now(): Moment
      reads this, device, device.f, device.f.frameStati, device.zone, tester
    {
      Moment(device.f.state, device.zone.View(), Held(device.f.Stati()), records, reportedBad, reportedGood, tester.injectionType)
    }

    ghost predicate Valid()
      reads device, device.f, device.f.frameStati, device.zone, tester
    {
      device.Valid() && tester.device == device && 0 <= tester.injectionType <= 7
    }

    /** Requests the frames and reads back what became of the requests. */
    method ClaimPfns(pfns: seq<nat>, sources: nat, env: BatchEnv) returns (r: Result<seq<FrameStatus>>, ghost start: Pool)
      requires Valid() && Sized(device.f.machine, pfns, sources, env.request.jiffies)
      modifies device.f`state, device.f`numFrameStati, device.f`frameStati, device.f.frameStati, device.zone, device`pos
      ensures Valid() && device.zone.poisoned == old(device.zone.poisoned)
      ensures device.f.frameStati == null || device.f.frameStati == old(device.f.frameStati) || fresh(device.f.frameStati)
      ensures r.Success? <==> Configures(old(device.f.state), pfns, env.request) && env.readFailsAt >= |pfns|
      ensures r.Success? ==> r.value == device.f.Stati()
      ensures !Device.Accepts(old(device.f.state), env.request) ==>
        device.f.View() == old(device.f.View()) && device.zone.View() == old(device.zone.View())
      ensures Device.Accepts(old(device.f.state), env.request) ==>
        Released(old(device.zone.View()), old(Held(device.f.Stati())), device.f.machine.unclean, env.request.withhold, start)
      ensures Device.Accepts(old(device.f.state), env.request) && !Configures(old(device.f.state), pfns, env.request) ==>
        && device.f.state == OPEN && device.f.Stati() == []
        && var reqs := Requests(pfns, sources);
           if pfns == [] || env.request.allocFails then device.zone.View() == start
           else env.request.copyFailsAt < |reqs|
                && Restored(start, Taking(start, device.f.machine, reqs, env.request.copyFailsAt), device.f.machine.unclean,
                            env.request.withholdUndo, device.zone.View())
      ensures Configures(old(device.f.state), pfns, env.request) ==>
        && Answers(device.f.Stati(), pfns) && Asked(device.f.Stati(), pfns, sources)
        && device.f.state == CONFIGURED && device.f.frameStati != null && fresh(device.f.frameStati)
        && device.zone.View() == PoolAfter(start, device.f.machine, Requests(pfns, sources), |pfns|)
        && Recorded(device.f.Stati(), start, device.f.machine, Requests(pfns, sources), env.request.jiffies, |pfns|)
    {
      hide Complete, Owned, Released, Restored, Taking, Recorded, PoolAfter, PoolValid, HeldOnce, Fits, Sized;
      var reqs := Requests(pfns, sources);
      r := Failure;
      var ret;
      ret, start := device.Configure(reqs, env.request);
      if ret < 0 {
        return;
      }
      if Configures(old(device.f.state), pfns, env.request) {
        RecordedFit(device.f.Stati(), start, device.f.machine, pfns, sources, env.request.jiffies);
      }
      var ok, config := device.ReadConfiguration(env.readFailsAt);
      if !ok || |config| != |reqs| {
        return;
      }
      r := Success(config);
    }

    /** The frames are mapped, tested, and unmapped again, whether or not the test gives a result. */
    method RunTests(claimed: map<nat, FrameStatus>, n: nat, memory: seq<MemoryPage>, env: BatchEnv)
      returns (r: Result<set<nat>>, ghost bad: seq<nat>)
      requires Valid() && device.f.state == CONFIGURED && IsMemory(memory, device.f.machine)
      requires n == Pages(device.f.Stati(), |device.f.Stati()|) && forall k: nat :: k in claimed <==> k < n
      requires Addressable(env.test.base, n) && Apart(memory, device.f)
      modifies tester`injectionType, device.f`state, device.f`vmas, device.f.frameStati
      modifies set x | 0 <= x < |memory| :: memory[x].cells
      ensures Valid() && device.f.Stati() == ArrayLeft(old(device.f.Stati()), env)
      ensures device.zone.View() == old(device.zone.View())
      ensures device.f.state == CONFIGURED && device.f.frameStati == old(device.f.frameStati)
      ensures r.Success? <==> Tests(old(device.f.Stati()), env)
      ensures tester.injectionType in {old(tester.injectionType), ReadInjectionType(env.test.injectionFile, old(tester.injectionType))}
      ensures r.Success? && n > 0 ==> tester.injectionType == ReadInjectionType(env.test.injectionFile, old(tester.injectionType))
      ensures r.Success? ==>
        && r.value == Elements(bad)
        && Wrapper.Tells(bad, memory, old(device.f.Stati()), env.test, tester.injectionType)
    {
      hide Complete, PoolValid, HeldOnce, Owned, Pages, Nth, Held, Wrapper.Tells, Wrapper.AllFine, IsMemory, Addressable, PageFrame,
           FramesIn, Zone.Valid, Marked, RoundUpToPage;
      ghost var stati := device.f.Stati();
      bad := [];
      if n == 0 {
        NothingToTell(memory, stati, env.test, tester.injectionType);
        return Success({}), bad;
      }
      PagesAtMost(stati, |stati|);
      Wrapper.SmallEnough(n, device.f.numFrameStati);
      var ret, _ := device.Mmap(n, env.mapFailsAt);
      if ret != 0 {
        return Failure, bad;
      }
      var physaddr := seq(n, k requires 0 <= k < n && k in claimed => claimed[k].pfn * PAGE_SIZE);
      var offsets;
      offsets, bad := tester.Test(PAGE_SIZE * n, physaddr, memory, env.test);
      device.f.VmaClose();
      if offsets.Failure? {
        return Failure, bad;
      }
      InBatch(bad, memory, stati, env.test, tester.injectionType);
      var ok, pages := PagesOfOffsets(offsets.value, n, bad);
      if !ok {
        return Failure, bad;
      }
      r := Success(pages);
    }

    static lemma NothingToTell(memory: seq<MemoryPage>, stati: seq<FrameStatus>, env: TestEnv, kind: int)
      requires Pages(stati, |stati|) == 0
      ensures Wrapper.Tells([], memory, stati, env, kind) && Elements([]) == {}
    {
    }

    static lemma InBatch(bad: seq<nat>, memory: seq<MemoryPage>, stati: seq<FrameStatus>, env: TestEnv, kind: int)
      requires Wrapper.Tells(bad, memory, stati, env, kind)
      ensures forall i :: 0 <= i < |bad| ==> bad[i] < Pages(stati, |stati|)
    {
    }

    /** The results of the tests go into the frames' records, and bad frames are poisoned and reported. */
    method RecordResults(results: seq<FrameStatus>, pfns: seq<nat>, badPages: set<nat>, now: seq<nat>) returns (ok: bool)
      requires Valid() && device.f.state == CONFIGURED && Answers(results, pfns)
      requires forall i :: 0 <= i < |pfns| ==> pfns[i] in records
      modifies `records, `reportedBad, `reportedGood, device.zone`poisoned
      ensures Valid() && ok
      ensures TestedUpTo(old(records), records, results, badPages, now, |results|)
      ensures reportedBad == old(reportedBad) + BadFrames(results, badPages, |results|)
      ensures reportedGood == old(reportedGood) + GoodFrames(results, badPages, |results|)
      ensures device.zone.View() ==
        old(device.zone.View()).(poisoned := old(device.zone.poisoned) + Elements(BadFrames(results, badPages, |results|)))
    {
      hide Complete, PoolValid, HeldOnce, Owned, Pages, TestedUpTo, HasResult, SameResults, InPlace, Failing, Elements, TestedOne,
           Zone.Valid, Valid, HeldOnce;
      TestedNone(records, results, badPages, now);
      var i := 0;
      while i < |results|
        invariant 0 <= i <= |results| && Valid() && device.f.state == CONFIGURED
        invariant records.Keys == old(records).Keys && TestedUpTo(old(records), records, results, badPages, now, i)
        invariant reportedBad == old(reportedBad) + BadFrames(results, badPages, i)
        invariant reportedGood == old(reportedGood) + GoodFrames(results, badPages, i)
        invariant device.zone.View() ==
          old(device.zone.View()).(poisoned := old(device.zone.poisoned) + Elements(BadFrames(results, badPages, i)))
      {
        ghost var mid, bad := records, BadFrames(results, badPages, i);
        ok := RecordResult(results, pfns, badPages, i, TimeOf(now, i));
        if !ok {
          return;
        }
        TestedNext(old(records), mid, records, results, badPages, now, i);
        ElementsNext(bad, results[i].pfn);
        assert BadFrames(results, badPages, i + 1) == if Failing(results, badPages, i) then bad + [results[i].pfn] else bad;
        i := i + 1;
      }
      ok := true;
    }

    static lemma ElementsNext(s: seq<nat>, x: nat)
      ensures Elements(s + [x]) == Elements(s) + {x}
    {
      forall y | y in Elements(s) + {x}
        ensures y in Elements(s + [x])
      {
        assert (s + [x])[|s|] == x;
        if y in Elements(s) {
          var i :| 0 <= i < |s| && s[i] == y;
          assert (s + [x])[i] == y;
        }
      }
    }

    /** The body of that loop. */
    method RecordResult(results: seq<FrameStatus>, pfns: seq<nat>, badPages: set<nat>, i: nat, now: nat) returns (ok: bool)
      requires Valid() && device.f.state == CONFIGURED && Answers(results, pfns) && i < |results|
      requires forall k :: 0 <= k < |pfns| ==> pfns[k] in records
      modifies `records, `reportedBad, `reportedGood, device.zone`poisoned
      ensures Valid() && ok
      ensures TestedOne(old(records), records, results[i], Failing(results, badPages, i), now)
      ensures var failing := Failing(results, badPages, i);
        && reportedBad == old(reportedBad) + (if failing then [results[i].pfn] else [])
        && reportedGood == old(reportedGood) + (if results[i].page != 0 && !failing then [results[i].pfn] else [])
        && device.zone.View() ==
          (if failing then old(device.zone.View()).(poisoned := old(device.zone.poisoned) + {results[i].pfn})
           else old(device.zone.View()))
    {
      hide Complete, PoolValid, HeldOnce, Owned, Pages, InPlace, Zone.Valid;
      ok := true;
      var st := results[i];
      PlaceOf(results, i);
      if st.pfn in pfns {
        records := records[st.pfn := records[st.pfn].(lastClaimingAttempt := now)];
        if st.page != 0 {
          records := records[st.pfn := records[st.pfn].(lastClaimingTime := st.jiffies, lastClaimingMethod := st.actualSource)];
          if st.vmaOffset / PAGE_SIZE in badPages {
            records := records[st.pfn := records[st.pfn].(
              numErrors := (records[st.pfn].numErrors + 1) % 0x1_0000_0000, lastFailedTest := now)];
            var ret := device.MarkPfnBad(st.pfn);
            if ret < 0 {
              return false;
            }
            reportedBad := reportedBad + [st.pfn];
          } else {
            records := records[st.pfn := records[st.pfn].(numErrors := 0, lastSuccessfulTest := now)];
            reportedGood := reportedGood + [st.pfn];
          }
        }
      }
    }

    /** The second half of a block, with the frames claimed and read: tested, recorded, the bad ones poisoned. */
    method TestAndRecord(results: seq<FrameStatus>, pfns: seq<nat>, memory: seq<MemoryPage>, env: BatchEnv)
      returns (r: Result<nat>, ghost badPages: set<nat>)
      requires Valid() && device.f.state == CONFIGURED && results == device.f.Stati() && Answers(results, pfns)
      requires forall i :: 0 <= i < |pfns| ==> pfns[i] in records
      requires IsMemory(memory, device.f.machine) && Addressable(env.test.base, |pfns|) && Apart(memory, device.f)
      modifies `records, `reportedBad, `reportedGood, tester`injectionType, device.f`state, device.f`vmas, device.f.frameStati
      modifies device.zone`poisoned, set x | 0 <= x < |memory| :: memory[x].cells
      ensures Valid() && device.f.state == CONFIGURED && device.f.vmas == old(device.f.vmas)
      ensures device.f.frameStati == old(device.f.frameStati) && device.f.Stati() == ArrayLeft(results, env)
      ensures tester.injectionType in {old(tester.injectionType), ReadInjectionType(env.test.injectionFile, old(tester.injectionType))}
      ensures r.Success? <==> Tests(results, env)
      ensures r.Failure? ==>
        && device.zone.View() == old(device.zone.View()) && records == old(records)
        && reportedBad == old(reportedBad) && reportedGood == old(reportedGood)
      ensures r.Success? ==>
        && r.value == Pages(results, |results|)
        && (r.value > 0 ==> tester.injectionType == ReadInjectionType(env.test.injectionFile, old(tester.injectionType)))
        && Finds(badPages, memory, results, env.test, tester.injectionType)
        && TestedUpTo(old(records), records, results, badPages, env.now, |results|)
        && reportedBad == old(reportedBad) + BadFrames(results, badPages, |results|)
        && reportedGood == old(reportedGood) + GoodFrames(results, badPages, |results|)
        && device.zone.View() == old(device.zone.View()).(
             poisoned := old(device.zone.poisoned) + Elements(BadFrames(results, badPages, |results|)))
    {
      hide Complete, PoolValid, HeldOnce, Owned, Pages, Nth, Held, TestedUpTo, Tests, Finds, Wrapper.Tells, Elements, BadFrames, GoodFrames,
           IsMemory, Addressable, Zone.Valid, Marked, AfterChild;
      r, badPages := Failure, {};
      var ok, claimed := CollectClaimed(results, pfns);
      if !ok {
        return;
      }
      PagesAtMost(results, |results|);
      FewerAddressable(env.test.base, |claimed|, |pfns|);
      var tests;
      ghost var bad;
      tests, bad := RunTests(claimed, |claimed|, memory, env);
      if tests.Failure? {
        return;
      }
      TellsFinds(bad, memory, results, env.test, tester.injectionType);
      badPages := tests.value;
      ok := RecordResults(results, pfns, tests.value, env.now);
      if !ok {
        return;
      }
      r := Success(|claimed|);
    }

    /**
     One block of frames: claimed, tested, recorded, the bad ones poisoned. The result is the number of
     claimed frames; `b` is the block as it happened. Nothing but a failing call stops the block, and
     then no frame is poisoned and no record changes.
     */
    method TestFramesAndRecordResult(pfns: seq<nat>, sources: nat, memory: seq<MemoryPage>, env: BatchEnv)
      returns (r: Result<nat>, ghost b: Block)
      requires Valid() && Sized(device.f.machine, pfns, sources, env.request.jiffies)
      requires forall i :: 0 <= i < |pfns| ==> pfns[i] in records
      requires IsMemory(memory, device.f.machine) && Addressable(env.test.base, |pfns|)
      modifies this, tester`injectionType, device.f, device.f.frameStati, device.zone, device`pos
      modifies set x | 0 <= x < |memory| :: memory[x].cells
      ensures Valid() && device.f.vmas == old(device.f.vmas)
      ensures device.f.frameStati == null || device.f.frameStati == old(device.f.frameStati) || fresh(device.f.frameStati)
      ensures log == old(log) + [b] && b.pfns == pfns && b.env == env && b.before == old(Now()) && b.after == Now()
      ensures Happened(b, device.f.machine, sources, memory)
      ensures r.Success? <==> IsFine(b)
      ensures r.Success? ==> r.value == Pages(b.results, |b.results|) && device.f.Stati() == ArrayLeft(b.results, env)
      // the headline: without mask and injection exactly the faulty frames among the claimed are poisoned, each once
      ensures r.Success? && env.test.mask == 0 && tester.injectionType == 0 ==>
        && device.zone.poisoned == old(device.zone.poisoned) + Faulty(memory, b.results)
        && Unique(BadFrames(b.results, b.badPages, |b.results|))
    {
      hide Complete, PoolValid, HeldOnce, Owned, Pages, Nth, Held, Released, Recorded, PoolAfter, TestedUpTo, Tests, Finds, ArrayLeft,
           Elements, BadFrames, GoodFrames, Addressable, Zone.Valid, Unique, Faulty, Restored, Taking, Sized;
      ghost var before := Now();
      r := Failure;
      ghost var results, badPages := [], {};
      ghost var start;
      var config;
      config, start := ClaimPfns(pfns, sources, env);
      EmptyHoldsNone();
      if Configures(before.state, pfns, env.request) {
        results := device.f.Stati();
        ArrayLeftHeld(results, env);
      }
      if config.Success? {
        r, badPages := TestAndRecord(config.value, pfns, memory, env);
      }
      b := Block(pfns, env, before, start, results, badPages, Now());
      log := log + [b];
      if r.Success? && env.test.mask == 0 && tester.injectionType == 0 {
        BadOnce(results, badPages, |results|);
        ExactlyTheFaulty(results, badPages, memory, env.test);
      }
    }

    static lemma EmptyHoldsNone()
      ensures Held([]) == {}
    {
    }

    static lemma FewerAddressable(base: Word, n: nat, m: nat)
      requires n <= m && Addressable(base, m)
      ensures Addressable(base, n)
    {
    }
  }
}
