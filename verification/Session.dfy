/** A session of the `/dev/phys_mem` device: an open file with its array of frame records. */
module Session {
  import opened Buddy
  import opened Kernel
  import opened Records
  import opened Claiming

  datatype State = CLOSED | OPEN | CONFIGURING | CONFIGURED | MAPPED | INVALID

  const EIO: int := 5
  const ENOMEM: int := 12
  const EFAULT: int := 14
  const EINVAL: int := 22
  const ERESTARTSYS: int := 512

  /** Which of the file operations a state has a handler for. */
  datatype Handlers = Handlers(llseek: bool, read: bool, ioctl: bool, mmap: bool)

  function FopsByState(state: State): Handlers {
    match state
    case CLOSED => Handlers(false, false, false, false)
    case OPEN => Handlers(false, false, true, false)
    case CONFIGURING => Handlers(false, false, false, false)
    case CONFIGURED => Handlers(true, true, true, true)
    case MAPPED => Handlers(true, true, false, true)
    case INVALID => Handlers(false, false, false, false)
  }

  /** Reading, seeking and mapping need an array, requests a session that is not mapped. */
  lemma HandlersAre(state: State)
    ensures var h := FopsByState(state);
      && (h.read <==> state == CONFIGURED || state == MAPPED) && h.llseek == h.mmap == h.read
      && (h.ioctl <==> state == OPEN || state == CONFIGURED)
  {
  }

  /** What a session is, seen from outside its critical sections. */
  datatype Snapshot = Snapshot(state: State, vmas: int, stati: seq<FrameStatus>)

  ghost predicate Settled(s: Snapshot) {
    && s.vmas >= 0
    && (s.state == MAPPED <==> s.vmas > 0)
    && (s.state == OPEN || s.state == CLOSED ==> s.stati == [])
    && (s.state == CONFIGURED || s.state == MAPPED ==> Complete(s.stati))
    && s.state != CONFIGURING && s.state != INVALID
  }

  /** One more mapping. */
  function WithMapping(v: Snapshot): Snapshot {
    v.(state := MAPPED, vmas := v.vmas + 1)
  }

  /** One mapping fewer. */
  function WithoutMapping(v: Snapshot): Snapshot {
    v.(state := if v.vmas == 1 then CONFIGURED else MAPPED, vmas := v.vmas - 1)
  }

  function RoundUpToPage(x: nat): nat {
    (x + PAGE_SIZE - 1) / PAGE_SIZE * PAGE_SIZE
  }

  /** The smallest number of whole pages that is not less. */
  lemma RoundsUp(x: nat, pages: nat)
    ensures RoundUpToPage(x) % 4096 == 0 && x <= RoundUpToPage(x) < x + 4096
    ensures x <= pages * 4096 ==> RoundUpToPage(x) <= pages * 4096
  {
  }

  /** An mmap of `length` bytes gets as far as mapping frames. */
  predicate TriesMmap(v: Snapshot, length: nat) {
    (v.state == CONFIGURED || v.state == MAPPED) && length <= RoundUpToPage(RECORD_SIZE * |v.stati|) * PAGE_SIZE
  }

  /** The session after an mmap: one more mapping, or the mark on the record whose frame the kernel refused. */
  function AfterMmap(v: Snapshot, length: nat, failsAt: nat): Snapshot {
    if !TriesMmap(v, length) then v
    else if Refused(v.stati, failsAt) then v.(stati := Marked(v.stati, failsAt))
    else WithMapping(v)
  }

  datatype ClaimResult = CLAIMED_SUCCESSFULLY | CLAIMED_TRY_NEXT | CLAIMED_ABORT

  /** The last claim method: never claims anything, and gives up on the first megabyte. */
  function IgnoreDifficultPages(pfn: nat): ClaimResult {
    if pfn * PAGE_SIZE <= 0x800 then CLAIMED_ABORT else CLAIMED_TRY_NEXT
  }

  /** The outside world during a request: what fails, and what the clock says. */
  datatype RequestEnv =
    RequestEnv(interrupted: bool, allocFails: bool, copyFailsAt: nat, withhold: set<nat>, withholdUndo: set<nat>, jiffies: seq<nat>)

  class PhysMemSession {
    const machine: Machine

    var state: State
    var vmas: int
    var numFrameStati: nat
    var frameStati: array?<FrameStatus>

    ghost function Stati(): seq<FrameStatus>
      reads this, frameStati
    {
      if frameStati == null then [] else frameStati[..]
    }

    ghost function View(): Snapshot
      reads this, frameStati
    {
      Snapshot(state, vmas, Stati())
    }

    ghost predicate ArrayValid()
      reads this, frameStati
    {
      numFrameStati == |Stati()|
    }

    ghost predicate Valid()
      reads this, frameStati
    {
      ArrayValid() && Settled(View()) && (state == OPEN || state == CLOSED <==> frameStati == null)
    }

    /** The zone is the machine's, and what the session holds is taken from it. */
    ghost predicate Holds(zone: Zone)
      reads this, frameStati, zone
    {
      && zone.Valid() && zone.numFrames == machine.numFrames && zone.unclean == machine.unclean
      && HeldOnce(Stati()) && Owned(zone.View(), Held(Stati()), machine.unclean)
    }

    /** Opening the device. */
    constructor (machine: Machine)
      ensures Valid() && state == OPEN && this.machine == machine && frameStati == null
    {
      this.machine := machine;
      state := OPEN;
      vmas := 0;
      numFrameStati := 0;
      frameStati := null;
    }

    // ---- Giving frames back ----

    method FreePageStati(zone: Zone, withhold: set<nat>)
      requires Holds(zone) && ArrayValid()
      modifies `frameStati, `numFrameStati, frameStati, zone
      ensures frameStati == null && ArrayValid() && zone.Valid()
      ensures Released(old(zone.View()), old(Held(Stati())), machine.unclean, withhold, zone.View())
      ensures zone.poisoned == old(zone.poisoned)
    {
      hide Released, Owned, PoolValid;
      ghost var p, stati := zone.View(), Stati();
      ReleasedNone(p, machine.unclean, withhold);
      if frameStati != null {
        var i := 0;
        while i < numFrameStati
          invariant frameStati == old(frameStati) && 0 <= i <= numFrameStati == |stati| == frameStati.Length
          invariant frameStati[i..] == stati[i..]
          invariant zone.Valid() && Released(p, Held(stati[..i]), machine.unclean, withhold, zone.View())
          invariant zone.poisoned == p.poisoned
        {
          assert frameStati[i] == frameStati[i..][0];
          HeldNext(stati, i);
          if frameStati[i].page != 0 {
            FreeFrame(zone, i, withhold, p, stati);
          }
          i := i + 1;
        }
        assert stati[..i] == stati;
      }
      numFrameStati := 0;
      frameStati := null;
    }

    /** The body of that loop: the page pointer is cleared, then the frame is given back or dropped. */
    method FreeFrame(zone: Zone, i: nat, withhold: set<nat>, ghost p: Pool, ghost stati: seq<FrameStatus>)
      requires frameStati != null && i < frameStati.Length == |stati| && frameStati[i] == stati[i] && stati[i].page != 0
      requires zone.Valid() && zone.unclean == machine.unclean && zone.numFrames == |p.refCount|
      requires PoolValid(p) && HeldOnce(stati) && Owned(p, Held(stati), machine.unclean)
      requires Released(p, Held(stati[..i]), machine.unclean, withhold, zone.View())
      modifies frameStati, zone
      ensures frameStati[..] == old(frameStati[..])[i := old(frameStati[i]).(page := 0)]
      ensures zone.Valid()
      ensures Released(p, Held(stati[..i + 1]), machine.unclean, withhold, zone.View())
      ensures zone.poisoned == old(zone.poisoned)
    {
      hide Released, PoolValid, WellFormed, Free, Buddy.Weighted;
      var f := PfnOf(frameStati[i].page);
      ghost var before := zone.View();
      HeldNext(stati, i);
      ReleaseReady(p, stati, i, machine.unclean, withhold, before);
      frameStati[i] := frameStati[i].(page := 0);
      if frameStati[i].actualSource != SOURCE_HOTPLUG_CLAIM {
        if zone.refCount[f] != 0 {
          zone.FreePages(f, f in withhold);
        } else {
          zone.Drop(f);
        }
      }
      ReleaseOne(p, Held(stati), Held(stati[..i]), machine.unclean, withhold, before, f, zone.View());
    }

    static lemma HeldNext(stati: seq<FrameStatus>, i: nat)
      requires i < |stati|
      ensures Held(stati[..i]) <= Held(stati)
      ensures Held(stati[..i + 1]) ==
        if stati[i].page != 0 then Held(stati[..i]) + {PfnOf(stati[i].page)} else Held(stati[..i])
      ensures stati[i].page != 0 ==> PfnOf(stati[i].page) in Held(stati)
      ensures HeldOnce(stati) && stati[i].page != 0 ==> PfnOf(stati[i].page) !in Held(stati[..i])
    {
      var a, b := stati[..i], stati[..i + 1];
      forall x | x in Held(b)
        ensures x in Held(a) || (stati[i].page != 0 && x == PfnOf(stati[i].page))
      {
        var k :| 0 <= k < |b| && b[k].page != 0 && PfnOf(b[k].page) == x;
        assert k < i ==> a[k] == b[k];
      }
      forall x | x in Held(a)
        ensures x in Held(b) && x in Held(stati)
      {
        var k :| 0 <= k < |a| && a[k].page != 0 && PfnOf(a[k].page) == x;
        assert a[k] == b[k] == stati[k];
      }
      assert b[i] == stati[i];
    }

    static lemma ReleasedNone(p: Pool, unclean: set<nat>, withhold: set<nat>)
      requires PoolValid(p)
      ensures Released(p, Held([]), unclean, withhold, p)
    {
    }

    /** A frame still held while others were given back is still out of the free blocks. */
    static lemma ReleaseReady(p: Pool, stati: seq<FrameStatus>, i: nat, unclean: set<nat>, withhold: set<nat>, q: Pool)
      requires PoolValid(p) && HeldOnce(stati) && Owned(p, Held(stati), unclean) && i < |stati| && stati[i].page != 0
      requires Released(p, Held(stati[..i]), unclean, withhold, q)
      ensures var f := PfnOf(stati[i].page);
        f < |q.refCount| && f !in q.retired && !Free(q.blocks, f) && FromBuddy(stati[i].actualSource)
    {
      HeldNext(stati, i);
    }

    // ---- Requesting frames ----

    method TryClaimFreeBuddyPage(zone: Zone, req: FrameRequest) returns (result: ClaimResult)
      requires zone.Valid() && req.pfn < zone.numFrames
      modifies zone
      ensures zone.Valid()
      ensures result == if HasFlag(req.sources, SOURCE_FREE_BUDDY_PAGE) && req.pfn in old(zone.buddy)
                        then CLAIMED_SUCCESSFULLY else CLAIMED_TRY_NEXT
      ensures zone.View() == if result == CLAIMED_SUCCESSFULLY then Taken(old(zone.View()), req.pfn, zone.unclean)
                             else old(zone.View())
    {
      result := CLAIMED_TRY_NEXT;
      if HasFlag(req.sources, SOURCE_FREE_BUDDY_PAGE) {
        var ok := zone.DoTryClaimFreeBuddyPage(req.pfn);
        if ok {
          result := CLAIMED_SUCCESSFULLY;
        }
      }
    }

    /** One request: the claim methods are tried in turn, and the outcome is recorded. */
    method ServeRequest(zone: Zone, req: FrameRequest, offset: nat, jiffies: nat) returns (st: FrameStatus)
      requires zone.Valid() && zone.numFrames == machine.numFrames && zone.unclean == machine.unclean
      modifies zone
      ensures zone.Valid()
      ensures st == Record(old(zone.buddy), machine, req, offset, jiffies)
      ensures zone.View() == if Claims(old(zone.buddy), machine, req)
                             then Taken(old(zone.View()), req.pfn, machine.unclean) else old(zone.View())
      ensures zone.poisoned == old(zone.poisoned)
    {
      var ram := MyPageIsSystemRam(machine.resources, req.pfn);
      if req.pfn >= machine.numFrames || !ram {
        return FrameStatus(req, 0, 0, jiffies, SOURCE_INVALID_PFN, 0);
      }
      var result, claimMethod := CLAIMED_TRY_NEXT, 0;
      ghost var pool := zone.View();
      while result == CLAIMED_TRY_NEXT
        invariant 0 <= claimMethod <= 3 && zone.Valid()
        invariant claimMethod == 0 ==> result == CLAIMED_TRY_NEXT && zone.View() == pool
        invariant claimMethod > 0 ==>
          && (result == CLAIMED_SUCCESSFULLY <==> Claims(pool.blocks, machine, req))
          && zone.View() == if result == CLAIMED_SUCCESSFULLY then Taken(pool, req.pfn, machine.unclean) else pool
        invariant claimMethod == 3 ==> result != CLAIMED_TRY_NEXT
        decreases 3 - claimMethod
      {
        if claimMethod == 0 {
          result := TryClaimFreeBuddyPage(zone, req);
        } else if claimMethod == 1 {
          result := IgnoreDifficultPages(req.pfn);
        } else {
          result := CLAIMED_ABORT;
        }
        claimMethod := claimMethod + 1;
      }
      if result == CLAIMED_SUCCESSFULLY {
        st := FrameStatus(req, offset, req.pfn, jiffies, SOURCE_FREE_BUDDY_PAGE, PageOf(req.pfn));
      } else {
        st := FrameStatus(req, 0, 0, jiffies, 0, 0);
      }
    }

    /** The loop over a batch, up to a request that cannot be copied in. */
    method ServeBatch(zone: Zone, reqs: seq<FrameRequest>, env: RequestEnv) returns (served: nat)
      requires zone.Valid() && zone.numFrames == machine.numFrames && zone.unclean == machine.unclean
      requires frameStati != null && frameStati.Length == |reqs|
      requires forall i :: 0 <= i < |reqs| ==> frameStati[i].page == 0
      modifies frameStati, zone
      ensures zone.Valid()
      ensures served == if env.copyFailsAt < |reqs| then env.copyFailsAt else |reqs|
      ensures zone.View() == PoolAfter(old(zone.View()), machine, reqs, served)
      ensures Recorded(frameStati[..], old(zone.View()), machine, reqs, env.jiffies, served)
      ensures forall i :: served <= i < |reqs| ==> frameStati[i].page == 0
      ensures zone.poisoned == old(zone.poisoned)
    {
      hide Claims, Taken, Record, PoolValid, Weighted, Zone.Valid;
      ghost var p := zone.View();
      var offset, i := 0, 0;
      while i < |reqs|
        invariant 0 <= i <= |reqs| && i <= if env.copyFailsAt < |reqs| then env.copyFailsAt else |reqs|
        invariant zone.Valid() && zone.View() == PoolAfter(p, machine, reqs, i) && zone.poisoned == p.poisoned
        invariant Recorded(frameStati[..], p, machine, reqs, env.jiffies, i)
        invariant offset == PAGE_SIZE * Pages(frameStati[..], i)
        invariant forall k :: i <= k < |reqs| ==> frameStati[k].page == 0
      {
        if i == env.copyFailsAt {
          return i;
        }
        offset := ServeNext(zone, reqs, i, offset, env.jiffies, p);
        i := i + 1;
      }
      served := i;
    }

    method ServeNext(zone: Zone, reqs: seq<FrameRequest>, i: nat, offset: nat, jiffies: seq<nat>, ghost p: Pool)
      returns (next: nat)
      requires zone.Valid() && zone.numFrames == machine.numFrames && zone.unclean == machine.unclean
      requires frameStati != null && i < |reqs| == frameStati.Length
      requires zone.View() == PoolAfter(p, machine, reqs, i)
      requires Recorded(frameStati[..], p, machine, reqs, jiffies, i) && offset == PAGE_SIZE * Pages(frameStati[..], i)
      modifies frameStati, zone
      ensures zone.Valid() && zone.View() == PoolAfter(p, machine, reqs, i + 1)
      ensures Recorded(frameStati[..], p, machine, reqs, jiffies, i + 1) && next == PAGE_SIZE * Pages(frameStati[..], i + 1)
      ensures forall k :: 0 <= k < |reqs| && k != i ==> frameStati[k] == old(frameStati[k])
      ensures zone.poisoned == old(zone.poisoned)
    {
      hide Claims, Taken, Record, PoolValid, Weighted;
      ghost var before := frameStati[..];
      var st := ServeRequest(zone, reqs[i], offset, TimeOf(jiffies, i));
      frameStati[i] := st;
      RecordedNext(before, frameStati[..], p, machine, reqs, jiffies, i);
      next := if st.page != 0 then offset + PAGE_SIZE else offset;
    }

    static lemma RecordedNext(before: seq<FrameStatus>, after: seq<FrameStatus>, p: Pool, m: Machine,
                              reqs: seq<FrameRequest>, jiffies: seq<nat>, i: nat)
      requires i < |reqs| == |before| == |after| && after == before[i := after[i]]
      requires Recorded(before, p, m, reqs, jiffies, i)
      requires after[i] == Record(PoolAfter(p, m, reqs, i).blocks, m, reqs[i], PAGE_SIZE * Pages(before, i), TimeOf(jiffies, i))
      ensures Recorded(after, p, m, reqs, jiffies, i + 1)
      ensures Pages(after, i + 1) == Pages(before, i) + if after[i].page != 0 then 1 else 0
    {
      hide Record, PoolAfter;
      forall k | 0 <= k <= i
        ensures Pages(after, k) == Pages(before, k)
      {
        PagesLocal(after, before, k);
      }
    }

    /**
     The request ioctl. An earlier configuration is given back first; `start` is the pool then. The request
     is then served completely, or the frames it took are given back and the session is open again.
     */
    method HandleRequestPages(zone: Zone, reqs: seq<FrameRequest>, env: RequestEnv) returns (ret: int, ghost start: Pool)
      requires Valid() && Holds(zone)
      modifies `state, `numFrameStati, `frameStati, frameStati, zone
      ensures Valid() && Holds(zone) && (frameStati == null || frameStati == old(frameStati) || fresh(frameStati))
      ensures zone.poisoned == old(zone.poisoned)
      ensures env.interrupted || (old(state) != OPEN && old(state) != CONFIGURED) ==>
        && ret == (if env.interrupted then -ERESTARTSYS else -EINVAL)
        && View() == old(View()) && zone.View() == old(zone.View())
      ensures !env.interrupted && (old(state) == OPEN || old(state) == CONFIGURED) ==>
        && Released(old(zone.View()), old(Held(Stati())), machine.unclean, env.withhold, start)
        && if reqs == [] then ret == 0 && state == OPEN && zone.View() == start
           else if env.allocFails then ret == -ENOMEM && state == OPEN && zone.View() == start
           else if env.copyFailsAt < |reqs| then
             && ret == -EFAULT && state == OPEN
             && Restored(start, Taking(start, machine, reqs, env.copyFailsAt), machine.unclean, env.withholdUndo, zone.View())
           else
             && ret == 0 && state == CONFIGURED && |Stati()| == |reqs| && frameStati != null && fresh(frameStati)
             && zone.View() == PoolAfter(start, machine, reqs, |reqs|)
             && Recorded(Stati(), start, machine, reqs, env.jiffies, |reqs|)
    {
      hide PoolValid, Weighted, Owned, Released, Restored, PoolAfter, Recorded, Complete, Taking, HeldOnce, Taken, TakenOut;
      start := zone.View();
      if env.interrupted {
        return -ERESTARTSYS, start;
      }
      if state != OPEN && state != CONFIGURED {
        return -EINVAL, start;
      }
      NothingHeld(start, machine.unclean, env.withhold);
      if state == CONFIGURED {
        FreePageStati(zone, env.withhold);
      }
      start := zone.View();
      NothingHeld(start, machine.unclean, env.withhold);
      if reqs == [] {
        state := OPEN;
        return 0, start;
      }
      if env.allocFails {
        state := OPEN;
        return -ENOMEM, start;
      }
      ret := ServeOrUndo(zone, reqs, env);
    }

    static lemma NothingHeld(p: Pool, unclean: set<nat>, withhold: set<nat>)
      requires PoolValid(p)
      ensures HeldOnce([]) && Owned(p, Held([]), unclean) && Released(p, Held([]), unclean, withhold, p)
    {
    }

    /** The second half of the request: a new array, the batch, and the way back when the batch cannot be read. */
    method ServeOrUndo(zone: Zone, reqs: seq<FrameRequest>, env: RequestEnv) returns (ret: int)
      requires frameStati == null && numFrameStati == 0 && vmas == 0 && reqs != []
      requires zone.Valid() && zone.numFrames == machine.numFrames && zone.unclean == machine.unclean
      modifies `state, `numFrameStati, `frameStati, zone
      ensures Valid() && Holds(zone) && (frameStati == null || fresh(frameStati)) && zone.poisoned == old(zone.poisoned)
      ensures env.copyFailsAt < |reqs| ==>
        && ret == -EFAULT && state == OPEN
        && Restored(old(zone.View()), Taking(old(zone.View()), machine, reqs, env.copyFailsAt), machine.unclean, env.withholdUndo, zone.View())
      ensures env.copyFailsAt >= |reqs| ==>
        && ret == 0 && state == CONFIGURED && |Stati()| == |reqs| && frameStati != null
        && zone.View() == PoolAfter(old(zone.View()), machine, reqs, |reqs|)
        && Recorded(Stati(), old(zone.View()), machine, reqs, env.jiffies, |reqs|)
    {
      hide PoolValid, Weighted, FreeFrames, Owned, Released, Restored, PoolAfter, Recorded, Complete, Taking, HeldOnce, Taken, TakenOut,
           Held, Zone.Lists, Zone.Counted;
      ghost var start := zone.View();
      state := CONFIGURING;
      frameStati := new FrameStatus[|reqs|](i => BLANK);
      numFrameStati := |reqs|;
      var served := ServeBatch(zone, reqs, env);
      RequestsTake(start, machine, reqs, served);
      HeldIsTaking(Stati(), start, machine, reqs, env.jiffies, served);
      TakenOwned(start, Taking(start, machine, reqs, served), machine.unclean, zone.View());
      if served < |reqs| {
        ghost var full := zone.View();
        FreePageStati(zone, env.withholdUndo);
        TakeThenRelease(start, Taking(start, machine, reqs, served), machine.unclean, env.withholdUndo, full, zone.View());
        NothingHeld(zone.View(), machine.unclean, env.withholdUndo);
        state := OPEN;
        return -EFAULT;
      }
      RecordedComplete(Stati(), start, machine, reqs, env.jiffies);
      state := CONFIGURED;
      return 0;
    }

    // ---- The other operations ----

    /** Marks any frame, in the states that allow it; whether the session holds the frame is not looked at. */
    method HandleMarkPagePoison(zone: Zone, badPfn: nat, interrupted: bool) returns (ret: int)
      requires Valid() && Holds(zone)
      modifies zone`poisoned
      ensures Holds(zone)
      ensures ret == if interrupted then -ERESTARTSYS else if state != MAPPED && state != CONFIGURED then -EINVAL else 0
      ensures zone.View() == if ret == 0 then old(zone.View()).(poisoned := old(zone.poisoned) + {badPfn}) else old(zone.View())
    {
      if interrupted {
        return -ERESTARTSYS;
      }
      if state != MAPPED && state != CONFIGURED {
        return -EINVAL;
      }
      zone.SetPageHWPoison(badPfn);
      return 0;
    }

    /** Mapping the frames one after the other; `failsAt` is the record at which the kernel refuses. */
    method AssembleVma(failsAt: nat) returns (ret: int, mapping: map<nat, nat>)
      requires ArrayValid() && Complete(Stati())
      modifies frameStati
      ensures ArrayValid() && Complete(Stati()) && Held(Stati()) == old(Held(Stati()))
      ensures Stati() == Mapped(old(Stati()), failsAt)
      ensures ret == 0 <==> !Refused(old(Stati()), failsAt)
      ensures ret == 0 ==> MapsFirst(mapping, Stati(), |Stati()|)
    {
      hide Complete, Held, MapsFirst, Pages;
      ghost var stati := Stati();
      mapping := map[];
      MapsNone(stati);
      var i := 0;
      while i < numFrameStati
        invariant frameStati == old(frameStati) && 0 <= i <= numFrameStati == |stati| && Stati() == stati
        invariant MapsFirst(mapping, stati, i)
        invariant failsAt >= i || !Refused(stati, failsAt)
      {
        MapsNext(mapping, stati, i);
        if frameStati[i].page != 0 {
          InPlaceAt(stati, i);
          if i == failsAt {
            MarkedComplete(stati, i);
            frameStati[i] := frameStati[i].(actualSource := SetFlag(frameStati[i].actualSource, SOURCE_ERROR_NOT_MAPPABLE));
            return -EINVAL, mapping;
          }
          mapping := mapping[frameStati[i].vmaOffset / PAGE_SIZE := PfnOf(frameStati[i].page)];
        }
        i := i + 1;
      }
      return 0, mapping;
    }

    static lemma InPlaceAt(stati: seq<FrameStatus>, i: nat)
      requires Complete(stati) && i < |stati| && stati[i].page != 0
      ensures stati[i].vmaOffset / PAGE_SIZE == Pages(stati, i)
    {
      assert InPlace(stati, i);
    }

    static lemma MapsNone(stati: seq<FrameStatus>)
      ensures MapsFirst(map[], stati, 0)
    {
    }

    /** The next page of the array goes to the next page of the mapping. */
    static lemma MapsNext(mapping: map<nat, nat>, stati: seq<FrameStatus>, i: nat)
      requires i < |stati| && MapsFirst(mapping, stati, i)
      ensures if stati[i].page == 0 then MapsFirst(mapping, stati, i + 1)
              else MapsFirst(mapping[Pages(stati, i) := PfnOf(stati[i].page)], stati, i + 1)
    {
      hide Pages;
      PagesNext(stati, i);
      if stati[i].page != 0 {
        var mapping' := mapping[Pages(stati, i) := PfnOf(stati[i].page)];
        forall k | 0 <= k < i + 1 && stati[k].page != 0
          ensures Pages(stati, k) in mapping' && mapping'[Pages(stati, k)] == PfnOf(stati[k].page)
        {
          if k < i {
            PagesBelow(stati, k, i);
          }
        }
      }
    }

    static lemma PagesNext(stati: seq<FrameStatus>, i: nat)
      requires i < |stati|
      ensures Pages(stati, i + 1) == Pages(stati, i) + if stati[i].page != 0 then 1 else 0
    {
    }

    /** Mapping the session's frames and counting the mapping, taken as one step. */
    method FileMmapConfigured(length: nat, failsAt: nat, interrupted: bool) returns (ret: int, mapping: map<nat, nat>)
      requires Valid()
      modifies `state, `vmas, frameStati
      ensures Valid() && Held(Stati()) == old(Held(Stati())) && HeldOnce(Stati()) == old(HeldOnce(Stati()))
      ensures ret == 0 <==> !interrupted && TriesMmap(old(View()), length) && !Refused(old(Stati()), failsAt)
      ensures View() == if interrupted then old(View()) else AfterMmap(old(View()), length, failsAt)
      ensures ret == 0 ==> MapsFirst(mapping, Stati(), |Stati()|)
    {
      hide Complete, Held, MapsFirst, Marked;
      mapping := map[];
      if interrupted {
        return -ERESTARTSYS, mapping;
      }
      if state != CONFIGURED && state != MAPPED {
        return -EIO, mapping;
      }
      var maxSize := RoundUpToPage(RECORD_SIZE * numFrameStati) * PAGE_SIZE;
      if length > maxSize {
        return -EINVAL, mapping;
      }
      CompleteHeldOnce(Stati());
      ret, mapping := AssembleVma(failsAt);
      CompleteHeldOnce(Stati());
      if ret == 0 {
        assert Stati() == old(Stati());
        VmaOpen();
      }
    }

    static lemma CompleteHeldOnce(stati: seq<FrameStatus>)
      requires Complete(stati)
      ensures HeldOnce(stati)
    {
    }

    /** A mapping came into being, by mmap or by a fork. */
    method VmaOpen()
      requires Valid() && (state == CONFIGURED || state == MAPPED)
      modifies `state, `vmas
      ensures Valid() && View() == WithMapping(old(View()))
    {
      hide Complete;
      if vmas == 0 {
        state := MAPPED;
      }
      vmas := vmas + 1;
    }

    /** A mapping is gone. */
    method VmaClose()
      requires Valid() && vmas > 0
      modifies `state, `vmas
      ensures Valid() && View() == WithoutMapping(old(View()))
    {
      hide Complete;
      vmas := vmas - 1;
      if vmas == 0 {
        state := CONFIGURED;
      }
    }

    /** A read of `count` bytes at `pos`: the bytes of the array there, as far as it goes, if they can be copied out. */
    method FileReadConfigured(pos: nat, count: nat, interrupted: bool, copyFails: bool) returns (ret: int, data: seq<Byte>, pos': nat)
      requires Valid()
      ensures !interrupted && (state == CONFIGURED || state == MAPPED) ==>
        var bytes := EncodeAll(Stati());
        var there := if pos >= |bytes| then [] else bytes[pos..if pos + count > |bytes| then |bytes| else pos + count];
        if copyFails && there != [] then ret == -EFAULT && data == [] && pos' == pos
        else ret == |data| && pos' == pos + |data| && data == there
      ensures interrupted ==> ret == -ERESTARTSYS && data == [] && pos' == pos
      ensures !interrupted && state != CONFIGURED && state != MAPPED ==> ret == -EIO && data == [] && pos' == pos
    {
      hide Complete, EncodeAll;
      pos', data := pos, [];
      if interrupted {
        return -ERESTARTSYS, data, pos';
      }
      if state != CONFIGURED && state != MAPPED {
        return -EIO, data, pos';
      }
      var maxSize := RECORD_SIZE * numFrameStati;
      if pos > maxSize {
        return 0, data, pos';
      }
      var n := if pos + count > maxSize then maxSize - pos else count;
      if copyFails && n > 0 {
        return -EFAULT, data, pos';
      }
      data := EncodeAll(if frameStati == null then [] else frameStati[..])[pos..pos + n];
      return n, data, pos + n;
    }

    /** Where a seek counts from: the beginning, the current position or the end. */
    static function SeekBase(whence: int, pos: nat, size: nat): nat {
      if whence == 0 then 0 else if whence == 1 then pos else size
    }

    method FileLlseekConfigured(pos: nat, off: int, whence: int, interrupted: bool) returns (ret: int, pos': nat)
      requires Valid()
      ensures ret < 0 ==> pos' == pos
      ensures ret >= 0 ==> pos' == ret
      ensures ret >= 0 <==>
        && !interrupted && (state == CONFIGURED || state == MAPPED)
        && 0 <= whence <= 2 && off + SeekBase(whence, pos, RECORD_SIZE * numFrameStati) >= 0
      ensures ret >= 0 ==> ret == off + SeekBase(whence, pos, RECORD_SIZE * numFrameStati)
    {
      hide Complete;
      if interrupted {
        return -ERESTARTSYS, pos;
      }
      if state != CONFIGURED && state != MAPPED {
        return -EIO, pos;
      }
      var newPos := 0;
      match whence {
        case 0 => newPos := off;
        case 1 => newPos := pos + off;
        case 2 => newPos := RECORD_SIZE * numFrameStati + off;
        case _ => return -EINVAL, pos;
      }
      if newPos < 0 {
        return -EINVAL, pos;
      }
      return newPos, newPos;
    }

    /** How far the release loop still has to go. */
    static function Rank(state: State): nat {
      match state
      case CLOSED => 0
      case OPEN => 1
      case _ => 2
    }

    /** Closing the file: with no mapping left the loop ends, with the session closed and every frame given back. */
    method PhysMemRelease(zone: Zone, withhold: set<nat>, interrupted: bool) returns (ret: int)
      requires Valid() && Holds(zone) && vmas == 0
      modifies this, frameStati, zone
      ensures Valid() && Holds(zone)
      ensures interrupted ==> ret == -ERESTARTSYS && View() == old(View()) && zone.View() == old(zone.View())
      ensures !interrupted ==>
        && ret == 0 && state == CLOSED && frameStati == null
        && Released(old(zone.View()), old(Held(Stati())), machine.unclean, withhold, zone.View())
    {
      hide PoolValid, Weighted, Owned, Released, Complete, HeldOnce;
      if interrupted {
        return -ERESTARTSYS;
      }
      ghost var p, stati := zone.View(), Stati();
      NothingHeld(p, machine.unclean, withhold);
      while state != CLOSED
        invariant Valid() && Holds(zone) && vmas == 0
        invariant frameStati == old(frameStati) || frameStati == null
        invariant frameStati == null ==> Released(p, Held(stati), machine.unclean, withhold, zone.View())
        invariant frameStati != null ==> Stati() == stati && zone.View() == p
        decreases Rank(state)
      {
        match state {
          case OPEN =>
            vmas := 0;
            state := CLOSED;
          case CONFIGURING =>
            return -ERESTARTSYS;
          case CONFIGURED =>
            FreePageStati(zone, withhold);
            NothingHeld(zone.View(), machine.unclean, withhold);
            state := OPEN;
          case MAPPED =>
          case INVALID =>
        }
      }
      ret := 0;
    }
  }
}
