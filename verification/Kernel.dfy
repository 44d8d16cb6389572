/**
 The part of the kernel's memory management the module touches: the free lists of a zone,
 the reference counts and the poison marks of its frames.
 */
module Kernel {
  import opened Buddy

  /**
   What a zone holds, as a value. `retired` are frames that are neither free nor in use by anyone
   the module knows of: given back but withheld, or dropped without being given back.
   */
  datatype Pool = Pool(blocks: Blocks, refCount: seq<nat>, poisoned: set<nat>, retired: set<nat>)

  ghost predicate PoolValid(p: Pool) {
    && WellFormed(p.blocks, |p.refCount|)
    && (forall x :: 0 <= x < |p.refCount| && Free(p.blocks, x) ==> p.refCount[x] == 0 && x !in p.retired)
    && (forall x :: x in p.retired ==> x < |p.refCount|)
  }

  /** Frame `f` of a free block is taken; its reference count is set unless its page structure is not clean. */
  function Taken(p: Pool, f: nat, unclean: set<nat>): Pool {
    p.(blocks := Claim(p.blocks, f),
       refCount := if f in unclean || f >= |p.refCount| then p.refCount else p.refCount[f := 1])
  }

  /** `__free_pages`: the last reference returns the frame to the free blocks, unless it is poisoned and withheld. */
  ghost predicate GivenBack(p: Pool, f: nat, withheld: bool, p': Pool)
    requires f < |p.refCount| && p.refCount[f] > 0
  {
    && p'.refCount == p.refCount[f := p.refCount[f] - 1]
    && p'.poisoned == p.poisoned
    && WellFormed(p'.blocks, |p'.refCount|)
    && if p.refCount[f] > 1 then p'.blocks == p.blocks && p'.retired == p.retired
       else if f in p.poisoned && withheld then p'.blocks == p.blocks && p'.retired == p.retired + {f}
       else (forall x :: Free(p'.blocks, x) <==> Free(p.blocks, x) || x == f) && p'.retired == p.retired
  }

  lemma TakenValid(p: Pool, f: nat, unclean: set<nat>)
    requires PoolValid(p) && f in p.blocks
    ensures f < |p.refCount| && PoolValid(Taken(p, f, unclean))
    ensures forall x :: Free(Taken(p, f, unclean).blocks, x) <==> Free(p.blocks, x) && x != f
  {
    ClaimWellFormed(p.blocks, f, |p.refCount|);
    forall x: nat
      ensures Free(Claim(p.blocks, f), x) <==> Free(p.blocks, x) && x != f
    {
      ClaimTakesOne(p.blocks, f, |p.refCount|, x);
    }
  }

  lemma HeadIsFree(p: Pool, f: nat)
    requires PoolValid(p) && f in p.blocks
    ensures f < |p.refCount| && Free(p.blocks, f) && p.refCount[f] == 0
  {
    assert Covers(p.blocks, f, f);
  }

  class Zone {
    const numFrames: nat
    /** Frames whose map count, mapping or flags do not pass `check_new_page`. */
    const unclean: set<nat>

    var freeArea: seq<set<nat>>  // the free list of each order
    var nrFree: seq<int>
    var buddy: Blocks            // pages with the buddy mark, with the order kept in them
    var refCount: seq<nat>
    var poisoned: set<nat>
    var nrFreePages: int         // the zone counter NR_FREE_PAGES
    ghost var retired: set<nat>

    ghost function View(): Pool
      reads this
    {
      Pool(buddy, refCount, poisoned, retired)
    }

    /** The free lists hold the marked pages, each in the list of its order, and are counted right. */
    ghost predicate Lists()
      reads this
    {
      && |freeArea| == ORDERS && |nrFree| == ORDERS
      && (forall h :: h in buddy ==> buddy[h] < ORDERS && h in freeArea[buddy[h]])
      && (forall o, h :: 0 <= o < ORDERS && h in freeArea[o] ==> h in buddy && buddy[h] == o)
      && (forall o :: 0 <= o < ORDERS ==> nrFree[o] == |freeArea[o]|)
    }

    /** The zone counter agrees with the free lists' counts and is the number of free frames. */
    ghost predicate Counted()
      reads this
    {
      nrFreePages == Weighted(nrFree) == |FreeFrames(buddy, numFrames)|
    }

    ghost predicate Valid()
      reads this
    {
      Lists() && PoolValid(View()) && |refCount| == numFrames && Counted()
    }

    /** A zone where nothing is free. */
    constructor (numFrames: nat, unclean: set<nat>)
      ensures Valid() && buddy == map[] && nrFreePages == 0
      ensures this.numFrames == numFrames && this.unclean == unclean
    {
      this.numFrames := numFrames;
      this.unclean := unclean;
      freeArea := seq(ORDERS, _ => {});
      nrFree := seq(ORDERS, _ => 0);
      buddy := map[];
      refCount := seq(numFrames, _ => 0);
      poisoned := {};
      nrFreePages := 0;
      retired := {};
      new;
      NoneCounted(nrFree);
      NoFreeFrames(numFrames);
    }

    static lemma {:induction false} NoneCounted(counts: seq<int>)
      requires forall o :: 0 <= o < |counts| ==> counts[o] == 0
      ensures Weighted(counts) == 0
    {
      if counts != [] {
        NoneCounted(counts[..|counts| - 1]);
      }
    }

    method AddBlock(h: nat, o: nat)
      requires Lists() && h !in buddy && o < ORDERS
      modifies `freeArea, `nrFree, `buddy
      ensures Lists() && buddy == old(buddy)[h := o]
      ensures Weighted(nrFree) == old(Weighted(nrFree)) + Pow2(o)
    {
      WeightedUpdate(nrFree, o, 1);
      assert h !in freeArea[o];
      freeArea := freeArea[o := freeArea[o] + {h}];
      nrFree := nrFree[o := nrFree[o] + 1];
      buddy := buddy[h := o];
    }

    method RemoveBlock(h: nat)
      requires Lists() && h in buddy
      modifies `freeArea, `nrFree, `buddy
      ensures Lists() && buddy == old(buddy) - {h}
      ensures Weighted(nrFree) == old(Weighted(nrFree)) - Pow2(old(buddy)[h])
    {
      var o := buddy[h];
      WeightedUpdate(nrFree, o, -1);
      freeArea := freeArea[o := freeArea[o] - {h}];
      buddy := buddy - {h};
      nrFree := nrFree[o := nrFree[o] - 1];
    }

    /** Splits what is left of a block after its first frame was taken. */
    method MmBuddyExpand(head: nat, order: nat)
      requires Lists() && Hole(buddy, head, order) && order < ORDERS
      modifies `freeArea, `nrFree, `buddy
      ensures Lists() && buddy == Expand(old(buddy), head, order) && Splits(old(buddy), head, order, buddy)
      ensures Weighted(nrFree) == old(Weighted(nrFree)) + Pow2(order) - 1
    {
      hide Splits;
      ExpandSplits(buddy, head, order);
      var high := order;
      while high > 0
        invariant 0 <= high <= order
        invariant Lists() && Hole(buddy, head, high)
        invariant Expand(buddy, head, high) == Expand(old(buddy), head, order)
        invariant Weighted(nrFree) == old(Weighted(nrFree)) + Pow2(order) - Pow2(high)
      {
        high := high - 1;
        AddBlock(head + Pow2(high), high);
      }
    }

    /**
     Takes one frame out of the free block it heads. The free lists stay well formed and lose exactly
     one frame, as the zone counter says; a frame that fails the preparation is taken all the same.
     */
    method ClaimFreeBuddyPage(requested: nat) returns (ok: bool)
      requires Valid() && requested < numFrames
      modifies `freeArea, `nrFree, `buddy, `refCount, `nrFreePages
      ensures Valid()
      ensures ok <==> requested in old(buddy)
      ensures ok ==> View() == Taken(old(View()), requested, unclean)
      ensures ok ==> Splits(old(buddy) - {requested}, requested, old(buddy)[requested], buddy)
      ensures !ok ==> View() == old(View()) && nrFree == old(nrFree)
      ensures Weighted(nrFree) - old(Weighted(nrFree)) == nrFreePages - old(nrFreePages) == if ok then -1 else 0
    {
      hide WellFormed, Free, FreeFrames, Splits;
      ok := false;
      if requested in buddy {
        HeadIsFree(View(), requested);
        TakenValid(View(), requested, unclean);
      }
      if refCount[requested] == 0 && requested in buddy {
        var order := buddy[requested];
        ClaimHole(buddy, requested, numFrames);
        RemoveBlock(requested);
        MmBuddyExpand(requested, order);
        nrFreePages := nrFreePages - 1;
        ok := true;
        FreeFramesLess(old(buddy), buddy, numFrames, requested);
        PrepNewPage(requested);
      }
    }

    /** Sets the reference count of a fresh page, if its structure is clean; the caller ignores when it is not. */
    method PrepNewPage(f: nat)
      requires f < |refCount|
      modifies `refCount
      ensures refCount == if f in unclean || old(refCount)[f] != 0 then old(refCount) else old(refCount)[f := 1]
    {
      if f !in unclean && refCount[f] == 0 {
        refCount := refCount[f := 1];
      }
    }

    /** The attempt of the claimer: only frames in free blocks are tried, only heads are taken. */
    method DoTryClaimFreeBuddyPage(requested: nat) returns (ok: bool)
      requires Valid() && requested < numFrames
      modifies `freeArea, `nrFree, `buddy, `refCount, `nrFreePages
      ensures Valid()
      ensures ok <==> requested in old(buddy)
      ensures View() == if ok then Taken(old(View()), requested, unclean) else old(View())
    {
      ok := false;
      if requested in buddy {
        HeadIsFree(View(), requested);
        IsFreeBuddyPageIffFree(buddy, numFrames, requested);
      }
      if refCount[requested] == 0 && IsFreeBuddyPage(buddy, requested) {
        ok := ClaimFreeBuddyPage(requested);
      }
    }

    /** `__free_pages(page, 0)`; `withheld` is what the kernel decides about a poisoned frame. */
    method FreePages(f: nat, withheld: bool)
      requires Valid() && f < numFrames && refCount[f] > 0 && f !in retired
      modifies this
      ensures Valid() && GivenBack(old(View()), f, withheld, View())
    {
      hide Free, WellFormed, FreeFrames;
      refCount := refCount[f := refCount[f] - 1];
      if refCount[f] == 0 {
        if f in poisoned && withheld {
          retired := retired + {f};
        } else {
          ReturnFrame(f);
        }
      }
    }

    /** Puts a frame back as a block of its own. */
    method ReturnFrame(f: nat)
      requires Lists() && WellFormed(buddy, numFrames) && !Free(buddy, f) && f < numFrames
      modifies `freeArea, `nrFree, `buddy, `nrFreePages
      ensures Lists() && WellFormed(buddy, numFrames)
      ensures forall x :: Free(buddy, x) <==> old(Free(buddy, x)) || x == f
      ensures Weighted(nrFree) - old(Weighted(nrFree)) == nrFreePages - old(nrFreePages) == 1
      ensures |FreeFrames(buddy, numFrames)| == |old(FreeFrames(buddy, numFrames))| + 1
    {
      hide Free, WellFormed, FreeFrames;
      ghost var before := buddy;
      NotFreeNotHead(before, f);
      AddedFrame(before, f, numFrames);
      AddBlock(f, 0);
      FreeFramesLess(buddy, before, numFrames, f);
      nrFreePages := nrFreePages + 1;
    }

    static lemma NotFreeNotHead(bs: Blocks, f: nat)
      requires !Free(bs, f)
      ensures f !in bs
    {
      if f in bs {
        assert Covers(bs, f, f);
      }
    }

    static lemma AddedFrame(bs: Blocks, f: nat, limit: nat)
      requires WellFormed(bs, limit) && !Free(bs, f) && f < limit
      ensures WellFormed(bs[f := 0], limit)
      ensures forall x :: Free(bs[f := 0], x) <==> Free(bs, x) || x == f
    {
      var bs' := bs[f := 0];
      NotFreeNotHead(bs, f);
      assert forall h :: h in bs ==> !Covers(bs, h, f);
      forall x: nat
        ensures Free(bs', x) <==> Free(bs, x) || x == f
      {
        if Free(bs, x) {
          var h: nat :| Covers(bs, h, x);
          assert Covers(bs', h, x);
        }
        assert Covers(bs', f, f);
        if Free(bs', x) {
          var h: nat :| Covers(bs', h, x);
          assert h == f || Covers(bs, h, x);
        }
      }
    }

    /** Drops a frame that has no reference without giving it back. */
    ghost method Drop(f: nat)
      requires Valid() && f < numFrames && !Free(buddy, f)
      modifies `retired
      ensures Valid() && View() == old(View()).(retired := old(retired) + {f})
    {
      hide WellFormed, Weighted, FreeFrames, Free;
      retired := retired + {f};
    }

    method SetPageHWPoison(f: nat)
      requires Valid()
      modifies `poisoned
      ensures Valid() && View() == old(View()).(poisoned := old(poisoned) + {f})
    {
      poisoned := poisoned + {f};
    }
  }
}
