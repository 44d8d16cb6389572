/**
 Many sessions on one pool, step by step. A caller first picks the handler by the state it reads
 without the lock, and enters it later. A request gives frames back and takes them one at a time,
 so the steps of other sessions come in between; the semaphore of its session is held meanwhile.
 */
module World {
  import opened Buddy
  import opened Kernel
  import opened Records
  import opened Claiming
  import opened Session

  /** What a request or a release goes on with once the old frames are given back. */
  datatype Continuation = ThenClaim(reqs: seq<FrameRequest>) | ThenOpen | ThenClose

  /** Whether the semaphore is free, or where the holder is in its critical section. */
  datatype Control = Unlocked | Freeing(done: nat, next: Continuation) | Claiming(reqs: seq<FrameRequest>, at: nat)

  datatype Sess = Sess(state: State, vmas: int, stati: seq<FrameStatus>, control: Control)

  datatype Op = Request(reqs: seq<FrameRequest>) | Mark(pfn: nat) | Read | Seek | Mmap(length: nat)

  /** `chosen` are the handlers callers have picked but not yet entered. */
  datatype World = World(pool: Pool, sessions: map<nat, Sess>, chosen: map<nat, (nat, Op)>)

  datatype Step =
    | OpenDevice(s: nat)
    | Dispatch(c: nat, s: nat, op: Op)
    | Enter(c: nat, failsAt: nat, interrupted: bool)
    | FreeStep(s: nat, withheld: bool)
    | FreeDone(s: nat, allocFails: bool)
    | ClaimStep(s: nat, jiffies: nat)
    | ClaimFault(s: nat)
    | ClaimDone(s: nat)
    | Fork(s: nat)
    | Unmap(s: nat)
    | Release(s: nat, interrupted: bool)

  predicate HasHandler(h: Handlers, op: Op) {
    match op
    case Request(_) => h.ioctl
    case Mark(_) => h.ioctl
    case Read => h.read
    case Seek => h.llseek
    case Mmap(_) => h.mmap
  }

  /** The session as its handlers see it. */
  function Seen(x: Sess): Snapshot {
    Snapshot(x.state, x.vmas, x.stati)
  }

  function SeenAs(x: Sess, v: Snapshot): Sess {
    Sess(v.state, v.vmas, v.stati, x.control)
  }

  /** The session after a caller entered the handler it had picked. */
  function EnteredSession(x: Sess, op: Op, failsAt: nat): Sess {
    match op
    case Request(reqs) =>
      if x.state == OPEN || x.state == CONFIGURED then x.(control := Freeing(0, ThenClaim(reqs))) else x
    case Mmap(length) => SeenAs(x, AfterMmap(Seen(x), length, failsAt))
    case _ => x
  }

  function EnteredPool(p: Pool, x: Sess, op: Op): Pool {
    if op.Mark? && (x.state == MAPPED || x.state == CONFIGURED) then p.(poisoned := p.poisoned + {op.pfn}) else p
  }

  /** The session after all its frames were given back. */
  function FreedSession(x: Sess, allocFails: bool): Sess
    requires x.control.Freeing?
  {
    match x.control.next
    case ThenClaim(reqs) =>
      if reqs == [] || allocFails then Sess(OPEN, x.vmas, [], Unlocked)
      else Sess(CONFIGURING, x.vmas, seq(|reqs|, _ => BLANK), Claiming(reqs, 0))
    case ThenOpen => Sess(OPEN, x.vmas, [], Unlocked)
    case ThenClose => Sess(CLOSED, 0, [], Unlocked)
  }

  /** The world `w` with session `s` replaced. */
  function With(w: World, s: nat, x: Sess): World {
    w.(sessions := w.sessions[s := x])
  }

  ghost predicate Next(m: Machine, w: World, step: Step, w': World) {
    match step
    case OpenDevice(s) => s !in w.sessions && w' == With(w, s, Sess(OPEN, 0, [], Unlocked))
    case Dispatch(c, s, op) =>
      && s in w.sessions && c !in w.chosen
      && w' == if HasHandler(FopsByState(w.sessions[s].state), op) then w.(chosen := w.chosen[c := (s, op)]) else w
    case Enter(c, failsAt, interrupted) =>
      && c in w.chosen && w.chosen[c].0 in w.sessions
      && var (s, op) := w.chosen[c];
         var x := w.sessions[s];
         if interrupted then w' == w.(chosen := w.chosen - {c})
         else
           && x.control.Unlocked?
           && w' == World(EnteredPool(w.pool, x, op), w.sessions[s := EnteredSession(x, op, failsAt)], w.chosen - {c})
    case FreeStep(s, withheld) =>
      && s in w.sessions && w.sessions[s].control.Freeing? && w.sessions[s].control.done < |w.sessions[s].stati|
      && var x := w.sessions[s];
         var i := x.control.done;
         var st := x.stati[i];
         && w'.chosen == w.chosen
         && w'.sessions == w.sessions[s := x.(stati := x.stati[i := st.(page := 0)], control := Freeing(i + 1, x.control.next))]
         && if st.page == 0 then w'.pool == w.pool
            else PfnOf(st.page) < |w.pool.refCount| && FreedOne(w.pool, PfnOf(st.page), withheld, w'.pool)
    case FreeDone(s, allocFails) =>
      && s in w.sessions && w.sessions[s].control.Freeing? && w.sessions[s].control.done >= |w.sessions[s].stati|
      && w' == With(w, s, FreedSession(w.sessions[s], allocFails))
    case ClaimStep(s, jiffies) =>
      && s in w.sessions && w.sessions[s].control.Claiming?
      && w.sessions[s].control.at < |w.sessions[s].control.reqs| && w.sessions[s].control.at < |w.sessions[s].stati|
      && var x := w.sessions[s];
         var i := x.control.at;
         var req := x.control.reqs[i];
         && w'.chosen == w.chosen
         && w'.sessions == w.sessions[s := x.(
              stati := x.stati[i := Record(w.pool.blocks, m, req, PAGE_SIZE * Pages(x.stati, i), jiffies)],
              control := Claiming(x.control.reqs, i + 1))]
         && w'.pool == if Claims(w.pool.blocks, m, req) then Taken(w.pool, req.pfn, m.unclean) else w.pool
    case ClaimFault(s) =>
      && s in w.sessions && w.sessions[s].control.Claiming? && w.sessions[s].control.at < |w.sessions[s].control.reqs|
      && w' == With(w, s, w.sessions[s].(control := Freeing(0, ThenOpen)))
    case ClaimDone(s) =>
      && s in w.sessions && w.sessions[s].control.Claiming? && w.sessions[s].control.at == |w.sessions[s].control.reqs|
      && w' == With(w, s, w.sessions[s].(state := CONFIGURED, control := Unlocked))
    case Fork(s) =>
      && s in w.sessions && w.sessions[s].control.Unlocked? && w.sessions[s].vmas > 0
      && w' == With(w, s, SeenAs(w.sessions[s], WithMapping(Seen(w.sessions[s]))))
    case Unmap(s) =>
      && s in w.sessions && w.sessions[s].control.Unlocked? && w.sessions[s].vmas > 0
      && w' == With(w, s, SeenAs(w.sessions[s], WithoutMapping(Seen(w.sessions[s]))))
    case Release(s, interrupted) =>
      && s in w.sessions && w.sessions[s].vmas == 0
      && if interrupted || w.sessions[s].state == CLOSED then w' == w
         else
           && w.sessions[s].control.Unlocked?
           && w' == With(w, s, w.sessions[s].(control := Freeing(0, ThenClose)))
  }

  // ---- The invariant of one session ----

  /** The first `n` records are packed and from the buddy allocator, the others hold nothing. */
  ghost predicate Packed(stati: seq<FrameStatus>, n: nat)
    requires n <= |stati|
  {
    && (forall i :: 0 <= i < n && stati[i].page != 0 ==> InPlace(stati, i) && FromBuddy(stati[i].actualSource))
    && (forall i :: 0 <= i < n && stati[i].page == 0 ==> stati[i].pfn == 0 && stati[i].vmaOffset == 0)
    && (forall i :: n <= i < |stati| ==> stati[i].page == 0)
  }

  ghost predicate SessionInv(x: Sess) {
    && x.vmas >= 0
    && (x.state == MAPPED <==> x.vmas > 0)
    && x.state != INVALID
    && match x.control
       case Unlocked =>
         && x.state != CONFIGURING
         && (x.state == OPEN || x.state == CLOSED ==> x.stati == [])
         && (x.state == CONFIGURED || x.state == MAPPED ==> |x.stati| > 0 && Packed(x.stati, |x.stati|))
       case Freeing(i, next) =>
         && x.vmas == 0 && x.state != CLOSED
         && i <= |x.stati| && forall k :: 0 <= k < i ==> x.stati[k].page == 0
       case Claiming(reqs, i) =>
         && x.state == CONFIGURING
         && |x.stati| == |reqs| > 0 && i <= |reqs| && Packed(x.stati, i)
  }

  lemma EnteredInv(x: Sess, op: Op, failsAt: nat)
    requires SessionInv(x) && x.control.Unlocked?
    ensures SessionInv(EnteredSession(x, op, failsAt))
    ensures |EnteredSession(x, op, failsAt).stati| == |x.stati|
    ensures forall k :: 0 <= k < |x.stati| ==> EnteredSession(x, op, failsAt).stati[k].page == x.stati[k].page
  {
    if op.Mmap? && failsAt < |x.stati| && x.stati[failsAt].page != 0 && x.state != OPEN && x.state != CLOSED {
      MarkedPacked(x.stati, failsAt);
    }
  }

  lemma MarkedPacked(stati: seq<FrameStatus>, i: nat)
    requires Packed(stati, |stati|) && i < |stati| && stati[i].page != 0
    ensures Packed(Marked(stati, i), |stati|)
  {
    hide SetFlag, FromBuddy;
    var stati' := Marked(stati, i);
    forall k | 0 <= k < |stati|
      ensures Pages(stati', k) == Pages(stati, k)
    {
      PagesLocal(stati', stati, k);
    }
    assert InPlace(stati, i);
    FlaggedFromBuddy(stati[i].actualSource);
    forall k | 0 <= k < |stati| && stati'[k].page != 0
      ensures InPlace(stati', k) && FromBuddy(stati'[k].actualSource)
    {
      assert InPlace(stati, k);
    }
  }

  lemma ClaimedInv(x: Sess, bs: Blocks, m: Machine, jiffies: nat)
    requires SessionInv(x) && x.control.Claiming? && x.control.at < |x.control.reqs|
    ensures var i := x.control.at;
      SessionInv(x.(stati := x.stati[i := Record(bs, m, x.control.reqs[i], PAGE_SIZE * Pages(x.stati, i), jiffies)],
                    control := Claiming(x.control.reqs, i + 1)))
  {
    var i := x.control.at;
    var stati' := x.stati[i := Record(bs, m, x.control.reqs[i], PAGE_SIZE * Pages(x.stati, i), jiffies)];
    forall k | 0 <= k <= i
      ensures Pages(stati', k) == Pages(x.stati, k)
    {
      PagesLocal(stati', x.stati, k);
    }
    forall k | 0 <= k < i && stati'[k].page != 0
      ensures InPlace(stati', k)
    {
      assert InPlace(x.stati, k);
    }
    assert stati'[i].page != 0 ==> InPlace(stati', i);
  }

  lemma BlankPacked(n: nat)
    ensures Packed(seq(n, _ => BLANK), 0)
  {
  }

  // ---- Which session holds which frame ----

  predicate HoldsAt(w: World, s: nat, i: nat) {
    s in w.sessions && i < |w.sessions[s].stati| && w.sessions[s].stati[i].page != 0
  }

  function FrameAt(w: World, s: nat, i: nat): nat
    requires HoldsAt(w, s, i)
  {
    PfnOf(w.sessions[s].stati[i].page)
  }

  /** A held frame is out of the free blocks and, if clean, has exactly one reference. */
  predicate OutAndReferenced(m: Machine, refCount: seq<nat>, f: nat) {
    f < |refCount| && refCount[f] == if f in m.unclean then 0 else 1
  }

  ghost predicate FramesInv(m: Machine, w: World) {
    && PoolValid(w.pool)
    && (forall s, i :: HoldsAt(w, s, i) ==>
         && OutAndReferenced(m, w.pool.refCount, FrameAt(w, s, i))
         && !Free(w.pool.blocks, FrameAt(w, s, i)) && FrameAt(w, s, i) !in w.pool.retired)
    && (forall s, i, t, j :: HoldsAt(w, s, i) && HoldsAt(w, t, j) && (s != t || i != j) ==> FrameAt(w, s, i) != FrameAt(w, t, j))
  }

  ghost predicate Inv(m: Machine, w: World) {
    FramesInv(m, w) && forall s :: s in w.sessions ==> SessionInv(w.sessions[s])
  }

  ghost predicate HeldSomewhere(w: World, x: nat) {
    exists s, i :: HoldsAt(w, s, i) && FrameAt(w, s, i) == x
  }

  /** The frame is free, held by a session, or retired. */
  ghost predicate Known(w: World, x: nat) {
    Free(w.pool.blocks, x) || x in w.pool.retired || HeldSomewhere(w, x)
  }

  /** No frame changes hands. */
  ghost predicate SameFrames(w: World, w': World) {
    && w'.pool.blocks == w.pool.blocks && w'.pool.refCount == w.pool.refCount && w'.pool.retired == w.pool.retired
    && (forall s, i :: HoldsAt(w', s, i) <==> HoldsAt(w, s, i))
    && (forall s, i :: HoldsAt(w, s, i) && HoldsAt(w', s, i) ==> FrameAt(w', s, i) == FrameAt(w, s, i))
  }

  lemma SameFramesKept(m: Machine, w: World, w': World)
    requires FramesInv(m, w) && SameFrames(w, w')
    ensures FramesInv(m, w')
    ensures forall x :: Known(w', x) <==> Known(w, x)
  {
    hide Free, WellFormed;
    forall x: nat
      ensures HeldSomewhere(w', x) <==> HeldSomewhere(w, x)
    {
      if HeldSomewhere(w, x) {
        var s, i :| HoldsAt(w, s, i) && FrameAt(w, s, i) == x;
        assert HoldsAt(w', s, i);
      }
      if HeldSomewhere(w', x) {
        var s, i :| HoldsAt(w', s, i) && FrameAt(w', s, i) == x;
        assert HoldsAt(w, s, i);
      }
    }
  }

  /** Replacing a session by one with the same pages moves no frame. */
  lemma SamePages(w: World, w': World, s: nat, x: Sess)
    requires w'.sessions == w.sessions[s := x]
    requires w'.pool.blocks == w.pool.blocks && w'.pool.refCount == w.pool.refCount && w'.pool.retired == w.pool.retired
    requires forall i :: 0 <= i < |x.stati| && x.stati[i].page != 0 ==> HoldsAt(w, s, i) && FrameAt(w, s, i) == PfnOf(x.stati[i].page)
    requires forall i: nat :: HoldsAt(w, s, i) ==> i < |x.stati| && x.stati[i].page != 0
    ensures SameFrames(w, w')
  {
    hide Free, WellFormed;
  }

  // ---- Giving one frame back ----

  /** The record `i` of session `s` lets go of its frame, everything else stays where it is. */
  ghost predicate LetsGo(w: World, w': World, s: nat, i: nat)
    requires HoldsAt(w, s, i)
  {
    && !HoldsAt(w', s, i)
    && (forall t, j :: HoldsAt(w', t, j) <==> HoldsAt(w, t, j) && (t != s || j != i))
    && (forall t, j :: HoldsAt(w, t, j) && HoldsAt(w', t, j) ==> FrameAt(w', t, j) == FrameAt(w, t, j))
  }

  /** Giving a frame back leaves every other frame as it is. */
  lemma FreedOneFrames(p: Pool, f: nat, withheld: bool, p': Pool)
    requires PoolValid(p) && f < |p.refCount| && !Free(p.blocks, f) && f !in p.retired && p.refCount[f] <= 1
    requires FreedOne(p, f, withheld, p')
    ensures PoolValid(p') && |p'.refCount| == |p.refCount|
    ensures forall x :: x != f ==> (Free(p'.blocks, x) <==> Free(p.blocks, x)) && (x in p'.retired <==> x in p.retired)
    ensures forall x :: 0 <= x < |p.refCount| && x != f ==> p'.refCount[x] == p.refCount[x]
    ensures Free(p'.blocks, f) || f in p'.retired
  {
    hide Free, WellFormed;
  }

  lemma LetGoKept(m: Machine, w: World, w': World, s: nat, i: nat, withheld: bool)
    requires FramesInv(m, w) && HoldsAt(w, s, i) && LetsGo(w, w', s, i)
    requires FreedOne(w.pool, FrameAt(w, s, i), withheld, w'.pool)
    ensures FramesInv(m, w')
    ensures forall x :: Known(w', x) <==> Known(w, x)
  {
    hide Free, WellFormed, FreedOne, PoolValid;
    var f := FrameAt(w, s, i);
    FreedOneFrames(w.pool, f, withheld, w'.pool);
    assert forall t, j :: HoldsAt(w', t, j) ==> FrameAt(w', t, j) == FrameAt(w, t, j) && FrameAt(w, t, j) != f;
    forall x: nat
      ensures Known(w', x) <==> Known(w, x)
    {
      if HeldSomewhere(w, x) && x != f {
        var t, j :| HoldsAt(w, t, j) && FrameAt(w, t, j) == x;
        assert HoldsAt(w', t, j);
      }
      if HeldSomewhere(w', x) {
        var t, j :| HoldsAt(w', t, j) && FrameAt(w', t, j) == x;
        assert HoldsAt(w, t, j);
      }
      assert HeldSomewhere(w, f);
    }
  }

  // ---- Taking one frame ----

  /** The record `i` of session `s` comes to hold `f`, everything else stays where it is. */
  ghost predicate GetsHold(w: World, w': World, s: nat, i: nat, f: nat) {
    && !HoldsAt(w, s, i) && HoldsAt(w', s, i) && FrameAt(w', s, i) == f
    && (forall t, j :: HoldsAt(w', t, j) <==> HoldsAt(w, t, j) || (t == s && j == i))
    && (forall t, j :: HoldsAt(w, t, j) && HoldsAt(w', t, j) ==> FrameAt(w', t, j) == FrameAt(w, t, j))
  }

  lemma TakenFrames(p: Pool, f: nat, unclean: set<nat>)
    requires PoolValid(p) && f in p.blocks
    ensures var p' := Taken(p, f, unclean);
      && PoolValid(p') && |p'.refCount| == |p.refCount| && p'.retired == p.retired
      && f < |p.refCount| && p'.refCount[f] == (if f in unclean then 0 else 1)
      && Free(p.blocks, f) && f !in p.retired && !Free(p'.blocks, f)
      && (forall x :: x != f ==> (Free(p'.blocks, x) <==> Free(p.blocks, x)))
      && (forall x :: 0 <= x < |p.refCount| && x != f ==> p'.refCount[x] == p.refCount[x])
  {
    HeadIsFree(p, f);
    TakenValid(p, f, unclean);
  }

  lemma GetHoldKept(m: Machine, w: World, w': World, s: nat, i: nat, f: nat)
    requires FramesInv(m, w) && f in w.pool.blocks && GetsHold(w, w', s, i, f)
    requires w'.pool == Taken(w.pool, f, m.unclean)
    ensures FramesInv(m, w')
    ensures forall x :: Known(w', x) <==> Known(w, x)
  {
    hide Free, WellFormed, Taken, PoolValid;
    TakenFrames(w.pool, f, m.unclean);
    assert forall t, j :: HoldsAt(w, t, j) ==> FrameAt(w, t, j) != f;
    forall x: nat
      ensures Known(w', x) <==> Known(w, x)
    {
      if HeldSomewhere(w, x) {
        var t, j :| HoldsAt(w, t, j) && FrameAt(w, t, j) == x;
        assert HoldsAt(w', t, j);
      }
      if HeldSomewhere(w', x) && x != f {
        var t, j :| HoldsAt(w', t, j) && FrameAt(w', t, j) == x;
        assert HoldsAt(w, t, j);
      }
      assert HeldSomewhere(w', f);
    }
  }

  // ---- Every step ----

  /** The steps that give a frame back. */
  lemma FreeStepKept(m: Machine, w: World, w': World, s: nat, withheld: bool)
    requires Inv(m, w) && Next(m, w, FreeStep(s, withheld), w')
    ensures FramesInv(m, w') && forall x :: Known(w', x) <==> Known(w, x)
  {
    hide Free, WellFormed, FreedOne, PoolValid, Packed;
    var x := w.sessions[s];
    var i := x.control.done;
    var x' := w'.sessions[s];
    if x.stati[i].page == 0 {
      SamePages(w, w', s, x');
      SameFramesKept(m, w, w');
    } else {
      assert HoldsAt(w, s, i);
      LetGoKept(m, w, w', s, i, withheld);
    }
  }

  /** The steps that serve a request. */
  lemma ClaimStepKept(m: Machine, w: World, w': World, s: nat, jiffies: nat)
    requires Inv(m, w) && Next(m, w, ClaimStep(s, jiffies), w')
    ensures FramesInv(m, w') && forall x :: Known(w', x) <==> Known(w, x)
  {
    hide Free, WellFormed, PoolValid, InPlace, Pages, Taken;
    var x := w.sessions[s];
    var i := x.control.at;
    var req := x.control.reqs[i];
    var x' := w'.sessions[s];
    assert x.stati[i].page == 0;
    if Claims(w.pool.blocks, m, req) {
      GetHoldKept(m, w, w', s, i, req.pfn);
    } else {
      SamePages(w, w', s, x');
      SameFramesKept(m, w, w');
    }
  }

  /** The steps that change a session but none of its pages. */
  lemma QuietStepKept(m: Machine, w: World, w': World, step: Step)
    requires Inv(m, w) && Next(m, w, step, w') && !step.FreeStep? && !step.ClaimStep?
    ensures FramesInv(m, w') && forall x :: Known(w', x) <==> Known(w, x)
  {
    hide Free, WellFormed, PoolValid, Packed, EnteredSession;
    match step
    case Enter(c, failsAt, _) =>
      var (s, op) := w.chosen[c];
      if w.sessions[s].control.Unlocked? {
        EnteredInv(w.sessions[s], op, failsAt);
      }
      SamePages(w, w', s, w'.sessions[s]);
      SameFramesKept(m, w, w');
    case OpenDevice(s) =>
      SamePages(w, w', s, w'.sessions[s]);
      SameFramesKept(m, w, w');
    case Dispatch(_, _, _) =>
      SameFramesKept(m, w, w');
    case Release(s, _) =>
      SamePages(w, w', s, w'.sessions[s]);
      SameFramesKept(m, w, w');
    case FreeDone(s, allocFails) =>
      SamePages(w, w', s, w'.sessions[s]);
      SameFramesKept(m, w, w');
    case ClaimFault(s) =>
      SamePages(w, w', s, w'.sessions[s]);
      SameFramesKept(m, w, w');
    case ClaimDone(s) =>
      SamePages(w, w', s, w'.sessions[s]);
      SameFramesKept(m, w, w');
    case Fork(s) =>
      SamePages(w, w', s, w'.sessions[s]);
      SameFramesKept(m, w, w');
    case Unmap(s) =>
      SamePages(w, w', s, w'.sessions[s]);
      SameFramesKept(m, w, w');
  }

  /** Every step keeps the invariant of the session it is about. */
  lemma SessionKept(m: Machine, w: World, w': World, step: Step)
    requires Inv(m, w) && Next(m, w, step, w')
    ensures forall s :: s in w'.sessions ==> SessionInv(w'.sessions[s])
  {
    hide FramesInv;
    match step
    case Enter(_, _, _) => HandlerKept(m, w, w', step);
    case OpenDevice(_) => HandlerKept(m, w, w', step);
    case Dispatch(_, _, _) => HandlerKept(m, w, w', step);
    case Fork(_) => HandlerKept(m, w, w', step);
    case Unmap(_) => HandlerKept(m, w, w', step);
    case _ => SectionKept(m, w, w', step);
  }

  /** The steps outside a request or a release. */
  lemma HandlerKept(m: Machine, w: World, w': World, step: Step)
    requires Inv(m, w) && Next(m, w, step, w')
    requires step.Enter? || step.OpenDevice? || step.Dispatch? || step.Fork? || step.Unmap?
    ensures forall s :: s in w'.sessions ==> SessionInv(w'.sessions[s])
  {
    hide FramesInv, EnteredSession, EnteredPool, HasHandler, Packed;
    if step.Enter? {
      var (s, op) := w.chosen[step.c];
      if w.sessions[s].control.Unlocked? {
        EnteredInv(w.sessions[s], op, step.failsAt);
      }
    }
  }

  /** The steps of a request or a release. */
  lemma SectionKept(m: Machine, w: World, w': World, step: Step)
    requires Inv(m, w) && Next(m, w, step, w')
    requires step.FreeStep? || step.FreeDone? || step.ClaimStep? || step.ClaimFault? || step.ClaimDone? || step.Release?
    ensures forall s :: s in w'.sessions ==> SessionInv(w'.sessions[s])
  {
    hide FramesInv, FreedOne, Claims, Record, Taken, Packed;
    match step
    case ClaimStep(s, jiffies) =>
      ClaimedInv(w.sessions[s], w.pool.blocks, m, jiffies);
    case FreeDone(s, allocFails) =>
      if w.sessions[s].control.next.ThenClaim? {
        BlankPacked(|w.sessions[s].control.next.reqs|);
      }
    case _ =>
  }

  /** Every step of every caller keeps the invariant, and no frame is lost or appears. */
  lemma StepKeeps(m: Machine, w: World, w': World, step: Step)
    requires Inv(m, w) && Next(m, w, step, w')
    ensures Inv(m, w')
    ensures forall x :: Known(w', x) <==> Known(w, x)
  {
    hide FramesInv, SessionInv, Known, Next;
    SessionKept(m, w, w', step);
    match step
    case FreeStep(s, withheld) => FreeStepKept(m, w, w', s, withheld);
    case ClaimStep(s, jiffies) => ClaimStepKept(m, w, w', s, jiffies);
    case _ => QuietStepKept(m, w, w', step);
  }

  // ---- Runs ----

  ghost predicate Follows(m: Machine, w: World, w': World) {
    exists step :: Next(m, w, step, w')
  }

  /** A run: each world follows from the one before by some step. */
  ghost predicate IsRun(m: Machine, run: seq<World>) {
    && |run| > 0
    && forall k :: 0 <= k < |run| - 1 ==> Follows(m, run[k], run[k + 1])
  }

  /** Nobody has opened the device yet. */
  ghost predicate Initial(m: Machine, w: World) {
    PoolValid(w.pool) && w.sessions == map[] && w.chosen == map[]
  }

  lemma {:induction false} RunKeeps(m: Machine, run: seq<World>, k: nat)
    requires IsRun(m, run) && Inv(m, run[0]) && k < |run|
    ensures Inv(m, run[k])
    ensures forall x :: Known(run[k], x) <==> Known(run[0], x)
  {
    hide Inv, Known, Next;
    if k > 0 {
      RunKeeps(m, run, k - 1);
      assert Follows(m, run[k - 1], run[k - 1 + 1]);
      var step :| Next(m, run[k - 1], step, run[k]);
      StepKeeps(m, run[k - 1], run[k], step);
    }
  }

  /**
   Over every run of any number of sessions: the free frames, the retired ones and those held by each
   session are disjoint, and together they are the frames that were free or retired at the start.
   */
  lemma FramesConserved(m: Machine, run: seq<World>, k: nat)
    requires IsRun(m, run) && Initial(m, run[0]) && k < |run|
    ensures var w := run[k];
      && (forall x :: Known(w, x) <==> Free(run[0].pool.blocks, x) || x in run[0].pool.retired)
      && (forall x :: !(Free(w.pool.blocks, x) && x in w.pool.retired))
      && (forall s, i :: HoldsAt(w, s, i) ==> !Free(w.pool.blocks, FrameAt(w, s, i)) && FrameAt(w, s, i) !in w.pool.retired)
      && (forall s, i, t, j :: HoldsAt(w, s, i) && HoldsAt(w, t, j) && (s != t || i != j) ==>
           FrameAt(w, s, i) != FrameAt(w, t, j))
  {
    hide WellFormed;
    RunKeeps(m, run, k);
    assert forall x :: !HeldSomewhere(run[0], x);
    forall x: nat
      ensures !(Free(run[k].pool.blocks, x) && x in run[k].pool.retired)
    {
    }
  }

  /** In every reachable world a frame about to be given back has no reference exactly if it is unclean. */
  lemma NotFreeingOnlyUnclean(m: Machine, run: seq<World>, k: nat, s: nat, i: nat)
    requires IsRun(m, run) && Initial(m, run[0]) && k < |run| && HoldsAt(run[k], s, i)
    ensures var f := FrameAt(run[k], s, i);
      f < |run[k].pool.refCount| && (run[k].pool.refCount[f] == 0 <==> f in m.unclean) && run[k].pool.refCount[f] <= 1
  {
    hide WellFormed;
    RunKeeps(m, run, k);
  }

  lemma Extended(m: Machine, run: seq<World>, step: Step, w: World)
    requires IsRun(m, run) && Next(m, run[|run| - 1], step, w)
    ensures IsRun(m, run + [w])
  {
    hide Next;
    var run' := run + [w];
    assert Follows(m, run[|run| - 1], w);
    forall k | 0 <= k < |run'| - 1
      ensures Follows(m, run'[k], run'[k + 1])
    {
      assert k < |run| - 1 ==> Follows(m, run[k], run[k + 1]);
    }
  }

  /** A run that opens the device and gets as far as claiming the first frame of a request. */
  lemma ClaimRun(m: Machine, p: Pool, f: nat, reqs: seq<FrameRequest>) returns (run: seq<World>, stati: seq<FrameStatus>)
    requires PoolValid(p) && f in p.blocks && Usable(m, f)
    requires reqs != [] && reqs[0] == FrameRequest(f, SOURCE_FREE_BUDDY_PAGE)
    ensures |run| > 0 && IsRun(m, run) && Initial(m, run[0]) && run[0].pool == p
    ensures |stati| == |reqs| && stati[0] == FrameStatus(reqs[0], 0, f, 0, SOURCE_FREE_BUDDY_PAGE, PageOf(f))
    ensures forall i :: 0 < i < |stati| ==> stati[i] == BLANK
    ensures run[|run| - 1] == World(Taken(p, f, m.unclean), map[0 := Sess(CONFIGURING, 0, stati, Claiming(reqs, 1))], map[])
  {
    hide InSystemRam, Claim, WellFormed, Free, IsRun;
    assert HasFlag(SOURCE_FREE_BUDDY_PAGE, SOURCE_FREE_BUDDY_PAGE);
    var w0 := World(p, map[], map[]);
    var w1 := With(w0, 0, Sess(OPEN, 0, [], Unlocked));
    var w2 := w1.(chosen := map[0 := (0, Request(reqs))]);
    var w3 := World(p, w1.sessions[0 := Sess(OPEN, 0, [], Freeing(0, ThenClaim(reqs)))], map[]);
    var w4 := With(w3, 0, FreedSession(w3.sessions[0], false));
    var st := Record(p.blocks, m, reqs[0], 0, 0);
    stati := w4.sessions[0].stati[0 := st];
    var w5 := World(Taken(p, f, m.unclean), map[0 := Sess(CONFIGURING, 0, stati, Claiming(reqs, 1))], map[]);
    run := [w0];
    RunOfOne(m, w0);
    Extended(m, run, OpenDevice(0), w1);
    run := run + [w1];
    Extended(m, run, Dispatch(0, 0, Request(reqs)), w2);
    run := run + [w2];
    Extended(m, run, Enter(0, 0, false), w3);
    run := run + [w3];
    Extended(m, run, FreeDone(0, false), w4);
    run := run + [w4];
    assert Pages(w4.sessions[0].stati, 0) == 0;
    assert w5.sessions == w4.sessions[0 := w4.sessions[0].(stati := stati, control := Claiming(reqs, 1))];
    Extended(m, run, ClaimStep(0, 0), w5);
    run := run + [w5];
  }

  lemma RunOfOne(m: Machine, w: World)
    ensures IsRun(m, [w])
  {
  }

  /**
   And unclean frames take the other branch: any free one that heads its block and may be claimed. The request
   fails on its second frame; the last step finds the frame without a reference, and drops it.
   */
  lemma UncleanReached(m: Machine, p: Pool, f: nat) returns (run: seq<World>)
    requires PoolValid(p) && f in p.blocks && f in m.unclean && Usable(m, f)
    ensures IsRun(m, run) && Initial(m, run[0]) && run[0].pool == p && |run| > 1
    ensures var w, w' := run[|run| - 2], run[|run| - 1];
      && HoldsAt(w, 0, 0) && FrameAt(w, 0, 0) == f && f < |w.pool.refCount| && w.pool.refCount[f] == 0
      && Next(m, w, FreeStep(0, false), w')
      && !HoldsAt(w', 0, 0) && f in w'.pool.retired && !Free(w'.pool.blocks, f)
    ensures Free(p.blocks, f)
  {
    hide Claim, WellFormed, Free, IsRun, InSystemRam;
    HeadIsFree(p, f);
    TakenValid(p, f, m.unclean);
    var req := FrameRequest(f, SOURCE_FREE_BUDDY_PAGE);
    var stati;
    run, stati := ClaimRun(m, p, f, [req, req]);
    var w := run[|run| - 1];
    var w1 := With(w, 0, w.sessions[0].(control := Freeing(0, ThenOpen)));
    var w2 := World(w.pool.(retired := w.pool.retired + {f}),
                    map[0 := Sess(CONFIGURING, 0, stati[0 := stati[0].(page := 0)], Freeing(1, ThenOpen))], map[]);
    Extended(m, run, ClaimFault(0), w1);
    run := run + [w1];
    assert w2.sessions == w1.sessions[0 := w2.sessions[0]];
    Extended(m, run, FreeStep(0, false), w2);
    run := run + [w2];
  }

  /**
   The session states any caller can find with the semaphore free: mapped exactly while mappings live,
   open or closed without an array, configured or mapped with a complete one, never configuring.
   */
  lemma SettledWhenUnlocked(m: Machine, run: seq<World>, k: nat, s: nat)
    requires IsRun(m, run) && Initial(m, run[0]) && k < |run|
    requires s in run[k].sessions && run[k].sessions[s].control.Unlocked?
    ensures var x := run[k].sessions[s]; Settled(Snapshot(x.state, x.vmas, x.stati))
  {
    hide WellFormed, Free;
    RunKeeps(m, run, k);
    var w := run[k];
    var x := w.sessions[s];
    assert SessionInv(x);
    if x.state == CONFIGURED || x.state == MAPPED {
      forall i, j | 0 <= i < j < |x.stati| && x.stati[i].page != 0
        ensures x.stati[i].page != x.stati[j].page
      {
        if x.stati[j].page != 0 {
          assert HoldsAt(w, s, i) && HoldsAt(w, s, j);
          assert FrameAt(w, s, i) != FrameAt(w, s, j);
        }
      }
    }
  }

  /** The step is an mmap of session `s` that gets as far as a frame the kernel refuses. */
  predicate MarksRecord(w: World, step: Step, s: nat, i: nat) {
    && step.Enter? && !step.interrupted && step.c in w.chosen && s in w.sessions && w.chosen[step.c].0 == s
    && w.chosen[step.c].1.Mmap? && TriesMmap(Seen(w.sessions[s]), w.chosen[step.c].1.length)
    && i == step.failsAt && Refused(w.sessions[s].stati, i)
  }

  /**
   While a mapping lives, a step of any caller changes the array exactly if it is another mmap of the same session
   that the kernel refuses at a frame without the mark; and then it sets the mark and nothing else.
   */
  lemma MappedArrayStable(m: Machine, w: World, w': World, step: Step, s: nat)
    requires Inv(m, w) && Next(m, w, step, w') && s in w.sessions && w.sessions[s].vmas > 0
    ensures s in w'.sessions && |w'.sessions[s].stati| == |w.sessions[s].stati|
    ensures forall i :: 0 <= i < |w.sessions[s].stati| ==>
      w'.sessions[s].stati[i] == if MarksRecord(w, step, s, i) then WithMark(w.sessions[s].stati[i]) else w.sessions[s].stati[i]
    ensures w'.sessions[s].stati != w.sessions[s].stati <==>
      exists i: nat :: MarksRecord(w, step, s, i) && !HasFlag(w.sessions[s].stati[i].actualSource, SOURCE_ERROR_NOT_MAPPABLE)
    ensures w'.sessions[s].vmas > 0 || (step == Unmap(s) && w.sessions[s].vmas == 1)
  {
    hide FramesInv, FreedOne, Packed, Record, WithMark, HasFlag, RoundUpToPage;
    assert SessionInv(w.sessions[s]);
    var stati := w.sessions[s].stati;
    if step.Enter? && MarksRecord(w, step, s, step.failsAt) {
      MarkTwice(stati[step.failsAt]);
      assert w'.sessions[s].stati[step.failsAt] == WithMark(stati[step.failsAt]);
    } else {
      assert w'.sessions[s].stati == stati;
    }
  }

  /** One record over a stretch of a run in which a mapping lives: it is as it was, or marked, if some step marks it. */
  lemma {:induction false} MappedArrayStableInRun(m: Machine, run: seq<World>, steps: seq<Step>, k: nat, n: nat, s: nat, i: nat)
    requires IsRun(m, run) && Initial(m, run[0]) && k <= n < |run| && s in run[k].sessions
    requires |steps| == |run| - 1 && forall j :: 0 <= j < |steps| ==> Next(m, run[j], steps[j], run[j + 1])
    requires forall j :: k <= j < n ==> s in run[j].sessions && run[j].sessions[s].vmas > 0
    requires i < |run[k].sessions[s].stati|
    ensures s in run[n].sessions && |run[n].sessions[s].stati| == |run[k].sessions[s].stati|
    ensures run[n].sessions[s].stati[i] ==
      if exists j :: k <= j < n && MarksRecord(run[j], steps[j], s, i) then WithMark(run[k].sessions[s].stati[i])
      else run[k].sessions[s].stati[i]
    decreases n
  {
    hide Next, Inv, Initial, WithMark, MarksRecord;
    if k < n {
      MappedArrayStableInRun(m, run, steps, k, n - 1, s, i);
      InitialInv(m, run[0]);
      RunKeeps(m, run, n - 1);
      assert Next(m, run[n - 1], steps[n - 1], run[n - 1 + 1]);
      MappedArrayStable(m, run[n - 1], run[n], steps[n - 1], s);
      MarkTwice(run[k].sessions[s].stati[i]);
    }
  }

  /** And a second mmap does change the array: a run in which one frame is claimed and mapped, and then refused. */
  lemma SecondMmapMarks(m: Machine, p: Pool, f: nat) returns (run: seq<World>)
    requires PoolValid(p) && f in p.blocks && Usable(m, f)
    ensures IsRun(m, run) && Initial(m, run[0]) && run[0].pool == p && |run| > 1
    ensures var w, w' := run[|run| - 2], run[|run| - 1];
      && 0 in w.sessions && 0 in w'.sessions && w.sessions[0].vmas > 0 && w'.sessions[0].vmas == w.sessions[0].vmas
      && |w.sessions[0].stati| == 1 && w'.sessions[0].stati == Marked(w.sessions[0].stati, 0) != w.sessions[0].stati
  {
    hide Claim, WellFormed, Free, IsRun, InSystemRam, Taken;
    var stati;
    run, stati := ClaimRun(m, p, f, [FrameRequest(f, SOURCE_FREE_BUDDY_PAGE)]);
    var pool := run[|run| - 1].pool;
    var configured := World(pool, map[0 := Sess(CONFIGURED, 0, stati, Unlocked)], map[]);
    var asked := configured.(chosen := map[0 := (0, Mmap(PAGE_SIZE))]);
    var mapped := World(pool, map[0 := Sess(MAPPED, 1, stati, Unlocked)], map[]);
    var askedAgain := mapped.(chosen := map[0 := (0, Mmap(PAGE_SIZE))]);
    var marked := World(pool, map[0 := Sess(MAPPED, 1, Marked(stati, 0), Unlocked)], map[]);
    Extended(m, run, ClaimDone(0), configured);
    run := run + [configured];
    Extended(m, run, Dispatch(0, 0, Mmap(PAGE_SIZE)), asked);
    run := run + [asked];
    Extended(m, run, Enter(0, 1, false), mapped);
    run := run + [mapped];
    Extended(m, run, Dispatch(0, 0, Mmap(PAGE_SIZE)), askedAgain);
    run := run + [askedAgain];
    Extended(m, run, Enter(0, 0, false), marked);
    run := run + [marked];
    MarkTwice(stati[0]);
    assert !HasFlag(SOURCE_FREE_BUDDY_PAGE, SOURCE_ERROR_NOT_MAPPABLE);
    assert Marked(stati, 0)[0] != stati[0];
  }

  lemma InitialInv(m: Machine, w: World)
    requires Initial(m, w)
    ensures Inv(m, w)
  {
  }

  /** Without other callers in between, the steps of a request are the batch as one session serves it. */
  lemma {:induction false} UndisturbedRequest(m: Machine, run: seq<World>, s: nat, reqs: seq<FrameRequest>, jiffies: seq<nat>, k: nat)
    requires k <= |reqs| && |run| == |reqs| + 1
    requires forall i :: 0 <= i < |reqs| ==> Next(m, run[i], ClaimStep(s, TimeOf(jiffies, i)), run[i + 1])
    requires s in run[0].sessions && run[0].sessions[s].control == Claiming(reqs, 0) && |run[0].sessions[s].stati| == |reqs|
    ensures run[k].pool == PoolAfter(run[0].pool, m, reqs, k)
    ensures s in run[k].sessions && run[k].sessions[s].control == Claiming(reqs, k) && |run[k].sessions[s].stati| == |reqs|
    ensures Recorded(run[k].sessions[s].stati, run[0].pool, m, reqs, jiffies, k)
  {
    hide Claims, Record, Taken, Pages, Recorded, Free, WellFormed;
    if k == 0 {
      NothingRecorded(run[0].sessions[s].stati, run[0].pool, m, reqs, jiffies);
    } else {
      UndisturbedRequest(m, run, s, reqs, jiffies, k - 1);
      assert Next(m, run[k - 1], ClaimStep(s, TimeOf(jiffies, k - 1)), run[k - 1 + 1]);
      var before, after := run[k - 1].sessions[s].stati, run[k].sessions[s].stati;
      PhysMemSession.RecordedNext(before, after, run[0].pool, m, reqs, jiffies, k - 1);
    }
  }

  /**
   Without other callers in between, the steps that give frames back are the loop as one session runs it: after
   `k` of them the frames of the first `k` records are released and their page pointers cleared.
   */
  lemma {:induction false} UndisturbedRelease(m: Machine, run: seq<World>, s: nat, next: Continuation, withhold: set<nat>, k: nat)
    requires |run| > 0 && Inv(m, run[0]) && s in run[0].sessions && run[0].sessions[s].control == Freeing(0, next)
    requires HeldOnce(run[0].sessions[s].stati)
    requires k <= |run[0].sessions[s].stati| && |run| == |run[0].sessions[s].stati| + 1
    requires forall i :: 0 <= i < |run| - 1 ==> Next(m, run[i], FreeStep(s, FrameOf(run[0], s, i) in withhold), run[i + 1])
    ensures s in run[k].sessions && run[k].sessions[s].control == Freeing(k, next)
    ensures var stati := run[0].sessions[s].stati;
      && run[k].sessions[s].stati == Cleared(stati, k)
      && Released(run[0].pool, Held(stati[..k]), m.unclean, withhold, run[k].pool)
  {
    hide Released, FreedOne, PoolValid, WellFormed, Free, Held, HeldOnce;
    var stati, p := run[0].sessions[s].stati, run[0].pool;
    SessionOwns(m, run[0], s);
    if k == 0 {
      PhysMemSession.ReleasedNone(p, m.unclean, withhold);
      assert stati[..0] == [];
    } else {
      var i := k - 1;
      UndisturbedRelease(m, run, s, next, withhold, i);
      assert Next(m, run[i], FreeStep(s, FrameOf(run[0], s, i) in withhold), run[i + 1]);
      PhysMemSession.HeldNext(stati, i);
      if stati[i].page != 0 {
        ReleaseOne(p, Held(stati), Held(stati[..i]), m.unclean, withhold, run[i].pool, PfnOf(stati[i].page), run[k].pool);
      }
    }
  }

  /** The frame of a record, or 0. */
  function FrameOf(w: World, s: nat, i: nat): nat {
    if HoldsAt(w, s, i) then FrameAt(w, s, i) else 0
  }

  /** The array with the page pointers of its first `k` records cleared. */
  function Cleared(stati: seq<FrameStatus>, k: nat): seq<FrameStatus>
    requires k <= |stati|
  {
    seq(|stati|, i requires 0 <= i < |stati| => if i < k then stati[i].(page := 0) else stati[i])
  }

  lemma SessionOwns(m: Machine, w: World, s: nat)
    requires Inv(m, w) && s in w.sessions
    ensures PoolValid(w.pool) && Owned(w.pool, Held(w.sessions[s].stati), m.unclean)
  {
    hide PoolValid, Free, WellFormed;
    var stati := w.sessions[s].stati;
    forall x | x in Held(stati)
      ensures x < |w.pool.refCount| && !Free(w.pool.blocks, x) && x !in w.pool.retired
      ensures w.pool.refCount[x] == if x in m.unclean then 0 else 1
    {
      var i :| 0 <= i < |stati| && stati[i].page != 0 && PfnOf(stati[i].page) == x;
      assert HoldsAt(w, s, i) && FrameAt(w, s, i) == x;
    }
  }

  lemma NothingRecorded(stati: seq<FrameStatus>, p: Pool, m: Machine, reqs: seq<FrameRequest>, jiffies: seq<nat>)
    requires |stati| == |reqs|
    ensures Recorded(stati, p, m, reqs, jiffies, 0)
  {
  }
}
