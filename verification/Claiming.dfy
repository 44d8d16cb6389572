/** What a batch of frame requests does to the pool, request by request, and what it records. */
module Claiming {
  import opened Buddy
  import opened Kernel
  import opened Records

  /** An entry of the kernel's resource list. */
  datatype Resource = Resource(name: string, start: nat, end: nat)

  /** The machine: how many frames it has a page structure for, and its memory resources. */
  datatype Machine = Machine(numFrames: nat, resources: seq<Resource>, unclean: set<nat>)

  predicate Contains(r: Resource, pfn: nat) {
    r.name == "System RAM" && r.start <= pfn * PAGE_SIZE && pfn * PAGE_SIZE + PAGE_SIZE - 1 <= r.end
  }

  /** All bytes of the frame lie in one System RAM resource. */
  predicate InSystemRam(resources: seq<Resource>, pfn: nat) {
    exists i :: 0 <= i < |resources| && Contains(resources[i], pfn)
  }

  method MyPageIsSystemRam(resources: seq<Resource>, pfn: nat) returns (r: bool)
    ensures r <==> InSystemRam(resources, pfn)
  {
    var start, end := pfn * PAGE_SIZE, pfn * PAGE_SIZE + PAGE_SIZE - 1;
    var i := 0;
    while i < |resources|
      invariant 0 <= i <= |resources|
      invariant forall k :: 0 <= k < i ==> !Contains(resources[k], pfn)
    {
      if resources[i].name == "System RAM" {
        if resources[i].start <= start && end <= resources[i].end {
          return true;
        }
      }
      i := i + 1;
    }
    return false;
  }

  predicate Usable(m: Machine, pfn: nat) {
    pfn < m.numFrames && InSystemRam(m.resources, pfn)
  }

  /** The request may be and can be served: buddy pages are allowed and the frame heads a free block. */
  predicate Claims(bs: Blocks, m: Machine, req: FrameRequest) {
    Usable(m, req.pfn) && HasFlag(req.sources, SOURCE_FREE_BUDDY_PAGE) && req.pfn in bs
  }

  /** The pool after the first `i` requests. */
  ghost function PoolAfter(p: Pool, m: Machine, reqs: seq<FrameRequest>, i: nat): Pool
    requires i <= |reqs|
  {
    if i == 0 then p
    else
      var q := PoolAfter(p, m, reqs, i - 1);
      if Claims(q.blocks, m, reqs[i - 1]) then Taken(q, reqs[i - 1].pfn, m.unclean) else q
  }

  ghost predicate ClaimedAt(p: Pool, m: Machine, reqs: seq<FrameRequest>, i: nat)
    requires i < |reqs|
  {
    Claims(PoolAfter(p, m, reqs, i).blocks, m, reqs[i])
  }

  /** The record of a request, given the free blocks it meets and the next free place in the mapping. */
  function Record(bs: Blocks, m: Machine, req: FrameRequest, offset: nat, jiffies: nat): (st: FrameStatus)
    ensures st.request == req && st.jiffies == jiffies
    ensures st.page != 0 <==> Claims(bs, m, req)
  {
    if !Usable(m, req.pfn) then FrameStatus(req, 0, 0, jiffies, SOURCE_INVALID_PFN, 0)
    else if Claims(bs, m, req) then FrameStatus(req, offset, req.pfn, jiffies, SOURCE_FREE_BUDDY_PAGE, PageOf(req.pfn))
    else FrameStatus(req, 0, 0, jiffies, 0, 0)
  }

  /** What the record of a request tells, claimed, not claimable, or not System RAM; the frame's page comes after NULL. */
  lemma RecordTells(bs: Blocks, m: Machine, req: FrameRequest, offset: nat, jiffies: nat)
    ensures var st := Record(bs, m, req, offset, jiffies);
      if !(req.pfn < m.numFrames && InSystemRam(m.resources, req.pfn)) then st == FrameStatus(req, 0, 0, jiffies, 0x80000, 0)
      else if (req.sources / 2) % 2 == 1 && req.pfn in bs then st == FrameStatus(req, offset, req.pfn, jiffies, 2, req.pfn + 1)
      else st == FrameStatus(req, 0, 0, jiffies, 0, 0)
  {
    hide InSystemRam;
  }

  /** How many of the first `i` records hold a page. */
  function Pages(stati: seq<FrameStatus>, i: nat): nat
    requires i <= |stati|
  {
    if i == 0 then 0 else Pages(stati, i - 1) + if stati[i - 1].page != 0 then 1 else 0
  }

  /** What claiming for request `i` took, by the clock. */
  function TimeOf(jiffies: seq<nat>, i: nat): nat {
    if i < |jiffies| then jiffies[i] else 0
  }

  /** The records of the first `n` requests are those the requests called for, packed into consecutive offsets. */
  ghost predicate Recorded(stati: seq<FrameStatus>, p: Pool, m: Machine, reqs: seq<FrameRequest>, jiffies: seq<nat>, n: nat)
    requires n <= |reqs| == |stati|
  {
    forall i :: 0 <= i < n ==>
      stati[i] == Record(PoolAfter(p, m, reqs, i).blocks, m, reqs[i], PAGE_SIZE * Pages(stati, i), TimeOf(jiffies, i))
  }

  /** The frames the records hold. */
  ghost function Held(stati: seq<FrameStatus>): set<nat> {
    set i | 0 <= i < |stati| && stati[i].page != 0 :: PfnOf(stati[i].page)
  }

  /** No frame is held twice, and what is held came from the buddy allocator. */
  ghost predicate HeldOnce(stati: seq<FrameStatus>) {
    && (forall i :: 0 <= i < |stati| && stati[i].page != 0 ==> FromBuddy(stati[i].actualSource))
    && (forall i, j :: 0 <= i < j < |stati| && stati[i].page != 0 ==> stati[i].page != stati[j].page)
  }

  /** A frame that could not be mapped carries an error mark besides. */
  predicate FromBuddy(source: nat) {
    source == SOURCE_FREE_BUDDY_PAGE || source == SOURCE_FREE_BUDDY_PAGE + SOURCE_ERROR_NOT_MAPPABLE
  }

  /** What a complete array looks like: every record is of its request, the k-th page is at offset k, no frame twice. */
  ghost predicate Complete(stati: seq<FrameStatus>) {
    && |stati| > 0
    && (forall i :: 0 <= i < |stati| && stati[i].page != 0 ==> InPlace(stati, i))
    && (forall i :: 0 <= i < |stati| && stati[i].page == 0 ==> stati[i].pfn == 0 && stati[i].vmaOffset == 0)
    && HeldOnce(stati)
  }

  ghost predicate InPlace(stati: seq<FrameStatus>, i: nat)
    requires i < |stati|
  {
    stati[i].pfn == stati[i].request.pfn && stati[i].page == PageOf(stati[i].pfn)
    && stati[i].vmaOffset == PAGE_SIZE * Pages(stati, i)
  }

  lemma {:induction false} PagesLocal(a: seq<FrameStatus>, b: seq<FrameStatus>, i: nat)
    requires i <= |a| && i <= |b| && forall k :: 0 <= k < i ==> a[k].page == b[k].page
    ensures Pages(a, i) == Pages(b, i)
  {
    if i > 0 {
      PagesLocal(a, b, i - 1);
    }
  }

  // ---- What the requests take ----

  /** The frames the first `i` requests claim. */
  ghost function Taking(p: Pool, m: Machine, reqs: seq<FrameRequest>, i: nat): set<nat>
    requires i <= |reqs|
  {
    if i == 0 then {}
    else Taking(p, m, reqs, i - 1) + if ClaimedAt(p, m, reqs, i - 1) then {reqs[i - 1].pfn} else {}
  }

  /** `q` is `p` with the frames in `gone` taken out of the free blocks and referenced once, if clean. */
  ghost predicate TakenOut(p: Pool, gone: set<nat>, unclean: set<nat>, q: Pool) {
    && PoolValid(q) && |q.refCount| == |p.refCount|
    && q.poisoned == p.poisoned && q.retired == p.retired
    && (forall x :: Free(q.blocks, x) <==> Free(p.blocks, x) && x !in gone)
    && (forall x :: 0 <= x < |p.refCount| ==> q.refCount[x] == if x in gone && x !in unclean then 1 else p.refCount[x])
    && (forall x :: x in gone ==> x < |p.refCount| && Free(p.blocks, x))
  }

  lemma TakeOne(p: Pool, gone: set<nat>, unclean: set<nat>, q: Pool, f: nat)
    requires TakenOut(p, gone, unclean, q) && f in q.blocks
    ensures TakenOut(p, gone + {f}, unclean, Taken(q, f, unclean)) && f !in gone
  {
    HeadIsFree(q, f);
    TakenValid(q, f, unclean);
  }

  lemma {:induction false} RequestsTake(p: Pool, m: Machine, reqs: seq<FrameRequest>, i: nat)
    requires PoolValid(p) && i <= |reqs|
    ensures TakenOut(p, Taking(p, m, reqs, i), m.unclean, PoolAfter(p, m, reqs, i))
  {
    if i > 0 {
      RequestsTake(p, m, reqs, i - 1);
      if ClaimedAt(p, m, reqs, i - 1) {
        TakeOne(p, Taking(p, m, reqs, i - 1), m.unclean, PoolAfter(p, m, reqs, i - 1), reqs[i - 1].pfn);
      }
    }
  }

  lemma {:induction false} TakingGrows(p: Pool, m: Machine, reqs: seq<FrameRequest>, i: nat, k: nat)
    requires i < k <= |reqs| && ClaimedAt(p, m, reqs, i)
    ensures reqs[i].pfn in Taking(p, m, reqs, k)
    decreases k
  {
    if i < k - 1 {
      TakingGrows(p, m, reqs, i, k - 1);
    }
  }

  /** No frame is claimed twice in a batch, even if it is requested twice. */
  lemma ClaimedOnce(p: Pool, m: Machine, reqs: seq<FrameRequest>, i: nat, k: nat)
    requires PoolValid(p) && i < k < |reqs| && ClaimedAt(p, m, reqs, i) && ClaimedAt(p, m, reqs, k)
    ensures reqs[i].pfn != reqs[k].pfn
  {
    TakingGrows(p, m, reqs, i, k);
    RequestsTake(p, m, reqs, k);
    HeadIsFree(PoolAfter(p, m, reqs, k), reqs[k].pfn);
  }

  lemma {:induction false} TakingMembers(p: Pool, m: Machine, reqs: seq<FrameRequest>, n: nat, f: nat)
    requires n <= |reqs|
    ensures f in Taking(p, m, reqs, n) <==> exists i :: 0 <= i < n && ClaimedAt(p, m, reqs, i) && reqs[i].pfn == f
  {
    if n > 0 {
      TakingMembers(p, m, reqs, n - 1, f);
      if f in Taking(p, m, reqs, n) && f !in Taking(p, m, reqs, n - 1) {
        assert ClaimedAt(p, m, reqs, n - 1) && reqs[n - 1].pfn == f;
      }
    }
  }

  /** A fully recorded batch is complete and holds exactly what was taken. */
  lemma RecordedComplete(stati: seq<FrameStatus>, p: Pool, m: Machine, reqs: seq<FrameRequest>, jiffies: seq<nat>)
    requires PoolValid(p) && |reqs| == |stati| > 0 && Recorded(stati, p, m, reqs, jiffies, |reqs|)
    ensures Complete(stati)
    ensures Held(stati) == Taking(p, m, reqs, |reqs|)
  {
    forall i | 0 <= i < |stati|
      ensures stati[i] == Record(PoolAfter(p, m, reqs, i).blocks, m, reqs[i], PAGE_SIZE * Pages(stati, i), TimeOf(jiffies, i))
    {
    }
    HeldIsTaking(stati, p, m, reqs, jiffies, |reqs|);
  }

  /** A batch recorded up to `n` holds, once each, the frames taken so far. */
  lemma HeldIsTaking(stati: seq<FrameStatus>, p: Pool, m: Machine, reqs: seq<FrameRequest>, jiffies: seq<nat>, n: nat)
    requires PoolValid(p) && n <= |reqs| == |stati|
    requires Recorded(stati, p, m, reqs, jiffies, n) && forall i :: n <= i < |stati| ==> stati[i].page == 0
    ensures Held(stati) == Taking(p, m, reqs, n) && HeldOnce(stati)
  {
    forall i | 0 <= i < n
      ensures stati[i].page == if ClaimedAt(p, m, reqs, i) then PageOf(reqs[i].pfn) else 0
    {
      assert stati[i] == Record(PoolAfter(p, m, reqs, i).blocks, m, reqs[i], PAGE_SIZE * Pages(stati, i), TimeOf(jiffies, i));
    }
    forall i, k | 0 <= i < k < |stati| && stati[i].page != 0
      ensures stati[i].page != stati[k].page
    {
      if stati[k].page != 0 {
        ClaimedOnce(p, m, reqs, i, k);
      }
    }
    forall i | 0 <= i < |stati| && stati[i].page != 0
      ensures FromBuddy(stati[i].actualSource)
    {
      assert stati[i] == Record(PoolAfter(p, m, reqs, i).blocks, m, reqs[i], PAGE_SIZE * Pages(stati, i), TimeOf(jiffies, i));
    }
    forall f: nat
      ensures f in Held(stati) <==> f in Taking(p, m, reqs, n)
    {
      TakingMembers(p, m, reqs, n, f);
      if f in Held(stati) {
        var i :| 0 <= i < |stati| && stati[i].page != 0 && PfnOf(stati[i].page) == f;
        assert ClaimedAt(p, m, reqs, i);
      }
      if f in Taking(p, m, reqs, n) {
        var i :| 0 <= i < n && ClaimedAt(p, m, reqs, i) && reqs[i].pfn == f;
        assert stati[i].page != 0 && PfnOf(stati[i].page) == f;
      }
    }
  }

  // ---- Giving back ----

  /** The frames are out of the free blocks and referenced once, if clean. */
  ghost predicate Owned(p: Pool, held: set<nat>, unclean: set<nat>) {
    forall x :: x in held ==>
      && x < |p.refCount| && !Free(p.blocks, x) && x !in p.retired
      && p.refCount[x] == if x in unclean then 0 else 1
  }

  lemma TakenOwned(p: Pool, gone: set<nat>, unclean: set<nat>, q: Pool)
    requires PoolValid(p) && TakenOut(p, gone, unclean, q)
    ensures Owned(q, gone, unclean)
  {
  }

  /** One turn of the loop that gives frames back: a frame without a reference is not given back. */
  ghost predicate FreedOne(p: Pool, f: nat, withheld: bool, p': Pool)
    requires f < |p.refCount|
  {
    if p.refCount[f] > 0 then GivenBack(p, f, withheld, p') else p' == p.(retired := p.retired + {f})
  }

  /** A held frame that does not become free when it is given back: an unclean one, or a poisoned one that is withheld. */
  predicate Lost(p: Pool, unclean: set<nat>, withhold: set<nat>, x: nat) {
    x in unclean || (x in p.poisoned && x in withhold)
  }

  /** `q` is `p` after the frames in `gone` were given back: the lost ones are retired, the others free. */
  ghost predicate Released(p: Pool, gone: set<nat>, unclean: set<nat>, withhold: set<nat>, q: Pool) {
    && PoolValid(q) && |q.refCount| == |p.refCount| && q.poisoned == p.poisoned
    && (forall x :: 0 <= x < |p.refCount| ==> q.refCount[x] == if x in gone then 0 else p.refCount[x])
    && (forall x :: Free(q.blocks, x) <==> Free(p.blocks, x) || (x in gone && !Lost(p, unclean, withhold, x)))
    && (forall x :: x in q.retired <==> x in p.retired || (x in gone && Lost(p, unclean, withhold, x)))
  }

  lemma ReleaseOne(p: Pool, held: set<nat>, gone: set<nat>, unclean: set<nat>, withhold: set<nat>, q: Pool, f: nat, q': Pool)
    requires PoolValid(p) && Owned(p, held, unclean) && gone <= held && f in held && f !in gone
    requires Released(p, gone, unclean, withhold, q) && FreedOne(q, f, f in withhold, q')
    ensures Released(p, gone + {f}, unclean, withhold, q')
  {
    hide WellFormed, Free;
  }

  /** Clean frames without a poison mark all become free again, and nothing is retired. */
  lemma ReleasedClean(p: Pool, gone: set<nat>, unclean: set<nat>, withhold: set<nat>, q: Pool, x: nat)
    requires Released(p, gone, unclean, withhold, q) && gone !! (unclean + p.poisoned)
    ensures Free(q.blocks, x) <==> Free(p.blocks, x) || x in gone
    ensures q.retired == p.retired
  {
    hide Free;
  }

  /** The frames are as they were, but for the lost ones among those taken, which are retired. */
  ghost predicate Restored(p: Pool, gone: set<nat>, unclean: set<nat>, withhold: set<nat>, r: Pool) {
    && PoolValid(r) && r.refCount == p.refCount && r.poisoned == p.poisoned
    && (forall x :: Free(r.blocks, x) <==> Free(p.blocks, x) && !(x in gone && Lost(p, unclean, withhold, x)))
    && (forall x :: x in r.retired <==> x in p.retired || (x in gone && Lost(p, unclean, withhold, x)))
  }

  /** Giving back what was just taken restores the frames. */
  lemma TakeThenRelease(p: Pool, gone: set<nat>, unclean: set<nat>, withhold: set<nat>, q: Pool, r: Pool)
    requires PoolValid(p) && TakenOut(p, gone, unclean, q) && Released(q, gone, unclean, withhold, r)
    ensures Restored(p, gone, unclean, withhold, r)
  {
    hide Free, WellFormed;
  }

  /** The free frames are the same again exactly when no frame taken meanwhile is unclean, or poisoned and withheld. */
  lemma RestoredExactly(p: Pool, m: Machine, reqs: seq<FrameRequest>, n: nat, withhold: set<nat>, r: Pool)
    requires PoolValid(p) && n <= |reqs| && Restored(p, Taking(p, m, reqs, n), m.unclean, withhold, r)
    ensures (forall x :: Free(r.blocks, x) <==> Free(p.blocks, x)) <==>
      forall x :: x in Taking(p, m, reqs, n) ==> !Lost(p, m.unclean, withhold, x)
  {
    hide Free, WellFormed, PoolAfter, Lost;
    RequestsTake(p, m, reqs, n);
    forall x: nat | x in Taking(p, m, reqs, n)
      ensures Free(p.blocks, x)
    {
    }
  }

  /** A request that takes a lost frame before it fails: that frame was free and is not any more. */
  lemma NotRestored(p: Pool, m: Machine, reqs: seq<FrameRequest>, n: nat, withhold: set<nat>, r: Pool)
    requires PoolValid(p) && 0 < n <= |reqs| && Claims(p.blocks, m, reqs[0]) && Lost(p, m.unclean, withhold, reqs[0].pfn)
    requires Restored(p, Taking(p, m, reqs, n), m.unclean, withhold, r)
    ensures Free(p.blocks, reqs[0].pfn) && !Free(r.blocks, reqs[0].pfn) && reqs[0].pfn in r.retired
  {
    hide Free, WellFormed;
    assert PoolAfter(p, m, reqs, 0) == p;
    TakingGrows(p, m, reqs, 0, n);
    HeadIsFree(p, reqs[0].pfn);
  }

  /**
   One frame, free, whose page structure is not clean (or which is poisoned and withheld): a request for it that
   fails afterwards does not restore it.
   */
  lemma NotRestoredExample(unclean: bool, r: Pool)
    requires var p := Pool(map[0 := 0], [0], if unclean then {} else {0}, {});
      var m := Machine(1, [Resource("System RAM", 0, PAGE_SIZE - 1)], if unclean then {0} else {});
      Restored(p, Taking(p, m, [FrameRequest(0, SOURCE_FREE_BUDDY_PAGE)], 1), m.unclean, {0}, r)
    ensures Free(map[0 := 0], 0) && !Free(r.blocks, 0) && 0 in r.retired
  {
    var p := Pool(map[0 := 0], [0], if unclean then {} else {0}, {});
    var m := Machine(1, [Resource("System RAM", 0, PAGE_SIZE - 1)], if unclean then {0} else {});
    var reqs := [FrameRequest(0, SOURCE_FREE_BUDDY_PAGE)];
    assert Contains(m.resources[0], 0);
    NotRestored(p, m, reqs, 1, {0}, r);
  }

  lemma FlaggedFromBuddy(source: nat)
    requires FromBuddy(source)
    ensures FromBuddy(SetFlag(source, SOURCE_ERROR_NOT_MAPPABLE))
  {
  }

  /** The record with the not-mappable mark. */
  function WithMark(st: FrameStatus): FrameStatus {
    st.(actualSource := SetFlag(st.actualSource, SOURCE_ERROR_NOT_MAPPABLE))
  }

  /** On a frame from the buddy allocator the mark is bit 20, and leaves bit 1. */
  lemma MarkIs(source: nat)
    requires FromBuddy(source)
    ensures source == 2 || source == 0x10_0002
    ensures SetFlag(source, SOURCE_ERROR_NOT_MAPPABLE) == 0x10_0002
  {
  }

  lemma MarkTwice(st: FrameStatus)
    ensures WithMark(WithMark(st)) == WithMark(st)
    ensures WithMark(st) == st <==> HasFlag(st.actualSource, SOURCE_ERROR_NOT_MAPPABLE)
  {
  }

  /** The array with the mark on record `i`. */
  function Marked(stati: seq<FrameStatus>, i: nat): seq<FrameStatus>
    requires i < |stati|
  {
    stati[i := WithMark(stati[i])]
  }

  /** The kernel refuses to map the frame of record `failsAt`, if the record holds one. */
  predicate Refused(stati: seq<FrameStatus>, failsAt: nat) {
    failsAt < |stati| && stati[failsAt].page != 0
  }

  /** The array after its frames were mapped, up to the refused one. */
  function Mapped(stati: seq<FrameStatus>, failsAt: nat): seq<FrameStatus> {
    if Refused(stati, failsAt) then Marked(stati, failsAt) else stati
  }

  /** Marking a frame as not mappable leaves the rest of a complete array alone. */
  lemma MarkedComplete(stati: seq<FrameStatus>, i: nat)
    requires Complete(stati) && i < |stati| && stati[i].page != 0
    ensures Complete(Marked(stati, i)) && Held(Marked(stati, i)) == Held(stati)
    ensures forall k :: 0 <= k <= |stati| ==> Pages(Marked(stati, i), k) == Pages(stati, k)
  {
    hide SetFlag, FromBuddy;
    var stati' := Marked(stati, i);
    assert forall k :: 0 <= k < |stati| ==> stati'[k].page == stati[k].page;
    forall k | 0 <= k <= |stati|
      ensures Pages(stati', k) == Pages(stati, k)
    {
      PagesLocal(stati', stati, k);
    }
    FlaggedFromBuddy(stati[i].actualSource);
    SameHeld(stati', stati);
  }

  lemma SameHeld(a: seq<FrameStatus>, b: seq<FrameStatus>)
    requires |a| == |b| && forall k :: 0 <= k < |a| ==> a[k].page == b[k].page
    ensures Held(a) == Held(b)
  {
    forall x | x in Held(a)
      ensures x in Held(b)
    {
      var k :| 0 <= k < |a| && a[k].page != 0 && PfnOf(a[k].page) == x;
      assert b[k].page != 0 && PfnOf(b[k].page) == x;
    }
    forall x | x in Held(b)
      ensures x in Held(a)
    {
      var k :| 0 <= k < |b| && b[k].page != 0 && PfnOf(b[k].page) == x;
      assert a[k].page != 0 && PfnOf(a[k].page) == x;
    }
  }

  // ---- Mapping ----

  /** The record of the k-th page in the array, counted from 0. */
  ghost function Nth(stati: seq<FrameStatus>, k: nat): (i: nat)
    requires k < Pages(stati, |stati|)
    ensures i < |stati| && stati[i].page != 0 && Pages(stati, i) == k
  {
    NthBelow(stati, |stati|, k)
  }

  ghost function NthBelow(stati: seq<FrameStatus>, n: nat, k: nat): (i: nat)
    requires n <= |stati| && k < Pages(stati, n)
    ensures i < n && stati[i].page != 0 && Pages(stati, i) == k
  {
    if stati[n - 1].page != 0 && Pages(stati, n - 1) == k then n - 1 else NthBelow(stati, n - 1, k)
  }

  lemma {:induction false} PagesBelow(stati: seq<FrameStatus>, k: nat, i: nat)
    requires k < i <= |stati| && stati[k].page != 0
    ensures Pages(stati, k) < Pages(stati, i)
    decreases i
  {
    if k < i - 1 {
      PagesBelow(stati, k, i - 1);
    }
  }

  /** Page index and record determine each other. */
  lemma NthOf(stati: seq<FrameStatus>, i: nat)
    requires i < |stati| && stati[i].page != 0
    ensures Pages(stati, i) < Pages(stati, |stati|) && Nth(stati, Pages(stati, i)) == i
  {
    PagesBelow(stati, i, |stati|);
    var k := Nth(stati, Pages(stati, i));
    if k < i {
      PagesBelow(stati, k, i);
    } else if i < k {
      PagesBelow(stati, i, k);
    }
  }

  /** The frame behind page `k` of a mapping. */
  ghost function PageFrame(stati: seq<FrameStatus>, k: nat): nat
    requires k < Pages(stati, |stati|)
  {
    PfnOf(stati[Nth(stati, k)].page)
  }

  lemma {:induction false} PagesAtMost(stati: seq<FrameStatus>, n: nat)
    requires n <= |stati|
    ensures Pages(stati, n) <= n
  {
    if n > 0 {
      PagesAtMost(stati, n - 1);
    }
  }

  /** Page `k` of a mapping is the frame of the k-th page in the array, counted from 0. */
  ghost predicate MapsFirst(mapping: map<nat, nat>, stati: seq<FrameStatus>, n: nat)
    requires n <= |stati|
  {
    && (forall k: nat :: k in mapping <==> k < Pages(stati, n))
    && (forall i :: 0 <= i < n && stati[i].page != 0 ==>
         Pages(stati, i) in mapping && mapping[Pages(stati, i)] == PfnOf(stati[i].page))
  }

  // ---- Ascending contiguous requests ----

  /** The requests are for the frames from `a` on, all of them usable and allowed to come from the buddy allocator. */
  ghost predicate Ascending(m: Machine, reqs: seq<FrameRequest>, a: nat) {
    forall i :: 0 <= i < |reqs| ==>
      reqs[i].pfn == a + i && Usable(m, a + i) && HasFlag(reqs[i].sources, SOURCE_FREE_BUDDY_PAGE)
  }

  lemma {:induction false} AscendingBlocks(p: Pool, m: Machine, reqs: seq<FrameRequest>, a: nat, i: nat)
    requires Ascending(m, reqs, a) && i <= |reqs|
    ensures PoolAfter(p, m, reqs, i).blocks == ClaimRange(p.blocks, a, a + i)
  {
    if i > 0 {
      AscendingBlocks(p, m, reqs, a, i - 1);
      assert reqs[i - 1].pfn == a + i - 1;
    }
  }

  /** Such a request claims exactly the frames whose free block, before the request, starts at `a` or later. */
  lemma AscendingClaims(p: Pool, m: Machine, reqs: seq<FrameRequest>, a: nat, i: nat)
    requires PoolValid(p) && Ascending(m, reqs, a) && i < |reqs|
    ensures ClaimedAt(p, m, reqs, i) <==> HeadFrom(p.blocks, a + i, a)
  {
    AscendingBlocks(p, m, reqs, a, i);
    RangeClaims(p.blocks, |p.refCount|, a, a + i);
    assert reqs[i].pfn == a + i;
  }

  /** A frame of the interval is held after such a request exactly when its free block started at `a` or later. */
  lemma AscendingHeld(stati: seq<FrameStatus>, p: Pool, m: Machine, reqs: seq<FrameRequest>, jiffies: seq<nat>, a: nat, f: nat)
    requires PoolValid(p) && |reqs| == |stati| > 0 && Recorded(stati, p, m, reqs, jiffies, |reqs|) && Ascending(m, reqs, a)
    ensures f in Held(stati) <==> a <= f < a + |reqs| && HeadFrom(p.blocks, f, a)
  {
    hide Held, Recorded, HeadFrom, ClaimedAt, PoolValid;
    HeldIsTaking(stati, p, m, reqs, jiffies, |reqs|);
    TakingMembers(p, m, reqs, |reqs|, f);
    if a <= f < a + |reqs| {
      AscendingClaims(p, m, reqs, a, f - a);
    }
    forall i | 0 <= i < |reqs| && ClaimedAt(p, m, reqs, i)
      ensures HeadFrom(p.blocks, a + i, a)
    {
      AscendingClaims(p, m, reqs, a, i);
    }
  }
}
