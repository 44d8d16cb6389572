/** The client side of the device: the calls the scheduler makes on an open session. */
module Physmem {
  import opened Kernel
  import opened Records
  import opened Claiming
  import opened Session

  lemma RecordBeyond(stati: seq<FrameStatus>, pos: nat, i: nat)
    requires pos == RECORD_SIZE * i && i <= |stati|
    ensures var bytes := EncodeAll(stati);
      pos <= |bytes| && (pos == |bytes| <==> i == |stati|) && (i < |stati| ==> pos + RECORD_SIZE <= |bytes|)
  {
  }

  class Device {
    const f: PhysMemSession
    const zone: Zone
    var pos: nat  // the file position

    constructor (f: PhysMemSession, zone: Zone)
      ensures this.f == f && this.zone == zone && pos == 0
    {
      this.f := f;
      this.zone := zone;
      this.pos := 0;
    }

    ghost predicate Valid()
      reads f, f.frameStati, zone
    {
      f.Valid() && f.Holds(zone)
    }

    /** The request ioctl through the dispatcher. */
    method Configure(reqs: seq<FrameRequest>, env: RequestEnv) returns (ret: int, ghost start: Pool)
      requires Valid()
      modifies f`state, f`numFrameStati, f`frameStati, f.frameStati, zone
      ensures Valid() && (f.frameStati == null || f.frameStati == old(f.frameStati) || fresh(f.frameStati))
      ensures zone.poisoned == old(zone.poisoned)
      // the dispatcher and the handler refuse exactly in the other states, and on a signal
      ensures !Accepts(old(f.state), env) ==> ret < 0 && f.View() == old(f.View()) && zone.View() == old(zone.View())
      ensures Accepts(old(f.state), env) && reqs != [] && !env.allocFails && env.copyFailsAt >= |reqs| ==>
        && ret == 0 && f.state == CONFIGURED && f.vmas == 0 && |f.Stati()| == |reqs| && f.frameStati != null && fresh(f.frameStati)
        && zone.View() == PoolAfter(start, f.machine, reqs, |reqs|)
        && Recorded(f.Stati(), start, f.machine, reqs, env.jiffies, |reqs|)
      ensures Accepts(old(f.state), env) ==>
        Released(old(zone.View()), old(Held(f.Stati())), f.machine.unclean, env.withhold, start)
      ensures Accepts(old(f.state), env) && reqs == [] ==> ret == 0 && f.state == OPEN && zone.View() == start
      ensures Accepts(old(f.state), env) && reqs != [] && (env.allocFails || env.copyFailsAt < |reqs|) ==>
        && ret < 0 && f.state == OPEN
        && if env.allocFails then zone.View() == start
           else Restored(start, Taking(start, f.machine, reqs, env.copyFailsAt), f.machine.unclean, env.withholdUndo, zone.View())
    {
      hide Complete, Owned, Released, Recorded, PoolAfter, PoolValid, HeldOnce, Restored, Buddy.Weighted, Taking;
      if !FopsByState(f.state).ioctl {
        return -EIO, zone.View();
      }
      ret, start := f.HandleRequestPages(zone, reqs, env);
    }

    /** The request gets to change the session. */
    static predicate Accepts(state: State, env: RequestEnv) {
      (state == OPEN || state == CONFIGURED) && !env.interrupted
    }

    /** One record: a read of its size at the current position. */
    method ReadRecord(ghost i: nat, copyFails: bool) returns (ok: bool, data: seq<Byte>)
      requires Valid() && (f.state == CONFIGURED || f.state == MAPPED)
      requires i <= |f.Stati()| && pos == RECORD_SIZE * i
      modifies `pos
      ensures ok <==> i == |f.Stati()| || !copyFails
      ensures i == |f.Stati()| ==> data == [] && pos == old(pos)
      ensures ok && i < |f.Stati()| ==> data == EncodeRecord(f.Stati()[i]) && pos == old(pos) + RECORD_SIZE
    {
      hide Complete, EncodeAll, EncodeRecord, PoolValid, Owned;
      RecordBeyond(f.Stati(), pos, i);
      if i < |f.Stati()| {
        RecordAt(f.Stati(), i);
      }
      var ret;
      ret, data, pos := f.FileReadConfigured(pos, RECORD_SIZE, false, copyFails);
      ok := ret >= 0;
    }

    /** Reading the device record by record gives the session's array; `readFailsAt` is the record that cannot be copied out. */
    method ReadConfiguration(readFailsAt: nat) returns (ok: bool, records: seq<FrameStatus>)
      requires Valid() && forall i :: 0 <= i < |f.Stati()| ==> Fits(f.Stati()[i])
      modifies `pos
      ensures ok <==> (f.state == CONFIGURED || f.state == MAPPED) && readFailsAt >= |f.Stati()|
      ensures ok ==> records == f.Stati()
    {
      hide Complete, EncodeRecord, DecodeRecord, Fits, PoolValid, Owned, HeldOnce;
      records := [];
      if !FopsByState(f.state).llseek {
        return false, records;
      }
      var sought;
      sought, pos := f.FileLlseekConfigured(pos, 0, 0, false);
      while true
        invariant f.state == CONFIGURED || f.state == MAPPED
        invariant |records| <= |f.Stati()| && records == f.Stati()[..|records|]
        invariant pos == RECORD_SIZE * |records|
        invariant f.Stati() == old(f.Stati()) && readFailsAt >= |records|
        decreases |f.Stati()| - |records|
      {
        var readable, chunk := ReadRecord(|records|, |records| == readFailsAt);
        if !readable {
          return false, records;
        }
        if chunk == [] {
          break;
        }
        RecordRoundTrip(f.Stati()[|records|]);
        records := records + [DecodeRecord(chunk)];
      }
      ok := true;
    }

    method MarkPfnBad(badPfn: nat) returns (ret: int)
      requires Valid()
      modifies zone`poisoned
      ensures Valid()
      ensures ret == if f.state == CONFIGURED then 0 else if FopsByState(f.state).ioctl then -EINVAL else -EIO
      ensures zone.View() == if ret == 0 then old(zone.View()).(poisoned := old(zone.poisoned) + {badPfn}) else old(zone.View())
    {
      hide Complete, PoolValid, Owned, HeldOnce;
      if !FopsByState(f.state).ioctl {
        return -EIO;
      }
      ret := f.HandleMarkPagePoison(zone, badPfn, false);
    }

    /** A mapping of the first `count` pages of the session's frames. */
    method Mmap(count: nat, failsAt: nat) returns (ret: int, mapping: map<nat, nat>)
      requires Valid()
      modifies f`state, f`vmas, f.frameStati
      ensures Valid() && zone.View() == old(zone.View()) && f.View() == AfterMmap(old(f.View()), PAGE_SIZE * count, failsAt)
      ensures ret == 0 <==> TriesMmap(old(f.View()), PAGE_SIZE * count) && !Refused(old(f.Stati()), failsAt)
      ensures ret == 0 ==> MapsFirst(mapping, f.Stati(), |f.Stati()|)
    {
      hide Complete, PoolValid, Owned, HeldOnce, MapsFirst, Held;
      if !FopsByState(f.state).mmap {
        return -EIO, map[];
      }
      ret, mapping := f.FileMmapConfigured(PAGE_SIZE * count, failsAt, false);
    }
  }
}
