/** The Python side of the memory test: runs memtester on the session's frames and reads its report. */
module MemtesterWrapper {
  import opened FaultModel
  import opened MemTests
  import opened Records
  import opened Claiming
  import opened Session
  import opened Physmem
  import Memtester
  import Arith
  import Kernel
  import Report

  datatype Result<+T> = Success(value: T) | Failure

  const WORDS_PER_PAGE: nat := 512

  /** How memtester ends: by itself, or by a signal before or after its mmap, when part of the report may be out. */
  datatype Fate = Ends | DiesUnmapped | DiesTesting(written: nat)

  /** What the parent gets to know about that. */
  datatype ExitStatus = Exited(code: bv8) | Signaled

  /** What the test meets: switches, random values, the address of the mapping, and what fails. */
  datatype TestEnv = TestEnv(injectionFile: Report.Option<int>, page: int, mask: Word, draws: seq<seq<seq<Word>>>,
                             base: Word, failsAt: nat, io: Memtester.Io, fate: Fate)

  /** The array after the child process: it makes its own mapping, if it lives long enough. */
  function AfterChild(env: TestEnv, stati: seq<FrameStatus>): seq<FrameStatus> {
    if env.fate.DiesUnmapped? then stati else Mapped(stati, env.failsAt)
  }

  /** The memory of the machine, frame by frame. */
  ghost predicate IsMemory(memory: seq<MemoryPage>, m: Machine) {
    && |memory| == m.numFrames
    && forall f :: 0 <= f < |memory| ==> memory[f].Valid() && memory[f].Words() == WORDS_PER_PAGE
  }

  /** The memory under test is not where the kernel keeps the session's records. */
  ghost predicate Apart(memory: seq<MemoryPage>, f: PhysMemSession)
    reads f
  {
    forall x :: 0 <= x < |memory| ==> memory[x].cells as object? != f.frameStati as object?
  }

  /** The first `n` pages after `base` are addressable. */
  ghost predicate Addressable(base: Word, n: nat) {
    forall k :: 0 <= k < n ==> InSpace(Address(base, k * WORDS_PER_PAGE), WORDS_PER_PAGE)
  }

  /** The page `k` of the batch fails: its frame is faulty, or an injection is aimed at it. */
  ghost predicate PageFails(memory: seq<MemoryPage>, stati: seq<FrameStatus>, kind: int, page: int, k: nat)
    requires k < Pages(stati, |stati|) && PageFrame(stati, k) < |memory| && memory[PageFrame(stati, k)].Valid()
  {
    !memory[PageFrame(stati, k)].Healthy() || (1 <= kind <= 7 && page == k)
  }

  /** All pages of the array lie in memory. */
  ghost predicate FramesIn(memory: seq<MemoryPage>, stati: seq<FrameStatus>) {
    forall k :: 0 <= k < Pages(stati, |stati|) ==> PageFrame(stati, k) < |memory| && memory[PageFrame(stati, k)].Valid()
  }

  function ReadInjectionType(file: Report.Option<int>, default: int): int {
    if file.Some? && 0 <= file.value <= 7 then file.value else default
  }

  lemma FramesInMemory(f: PhysMemSession, zone: Kernel.Zone, memory: seq<MemoryPage>)
    requires f.Holds(zone) && IsMemory(memory, f.machine)
    ensures FramesIn(memory, f.Stati())
  {
    var stati := f.Stati();
    forall k | 0 <= k < Pages(stati, |stati|)
      ensures PageFrame(stati, k) < |memory| && memory[PageFrame(stati, k)].Valid()
    {
      var i := Nth(stati, k);
      assert PfnOf(stati[i].page) in Held(stati);
    }
  }

  class Wrapper {
    const device: Device
    var injectionType: int

    constructor (device: Device)
      ensures this.device == device && injectionType == 0
    {
      this.device := device;
      injectionType := 0;
    }

    /** memtester's mapping of the session, seen as pages of memory. */
    method MapPages(memory: seq<MemoryPage>, n: nat, failsAt: nat) returns (mapped: bool, pages: seq<MemoryPage>)
      requires device.Valid() && device.f.state == MAPPED && IsMemory(memory, device.f.machine)
      requires n == Pages(device.f.Stati(), |device.f.Stati()|)
      modifies device.f`state, device.f`vmas, device.f.frameStati
      ensures device.Valid() && device.f.Stati() == Mapped(old(device.f.Stati()), failsAt)
      ensures device.zone.View() == old(device.zone.View())
      ensures device.f.state == MAPPED && device.f.vmas == old(device.f.vmas) + if mapped then 1 else 0
      ensures mapped <==> !Refused(old(device.f.Stati()), failsAt)
      ensures device.f.frameStati == old(device.f.frameStati)
      ensures !mapped ==> pages == []
      ensures mapped ==> |pages| == n && device.f.Stati() == old(device.f.Stati())
      ensures mapped ==> forall k :: 0 <= k < n ==>
        PageFrame(device.f.Stati(), k) < |memory| && pages[k] == memory[PageFrame(device.f.Stati(), k)]
    {
      hide Complete, Kernel.PoolValid, HeldOnce, Nth, Held, Pages;
      pages := [];
      ghost var stati := device.f.Stati();
      PagesAtMost(stati, |stati|);
      FramesInMemory(device.f, device.zone, memory);
      SmallEnough(n, device.f.numFrameStati);
      var ret, mapping := device.Mmap(n, failsAt);
      mapped := ret == 0;
      if mapped {
        forall k | 0 <= k < n
          ensures k in mapping && mapping[k] == PageFrame(stati, k) < |memory|
        {
          assert stati[Nth(stati, k)].page != 0;
        }
        pages := seq(n, k requires 0 <= k < n && k in mapping && mapping[k] < |memory| => memory[mapping[k]]);
      }
    }

    static lemma SmallEnough(n: nat, records: nat)
      requires n <= records
      ensures PAGE_SIZE * n <= RoundUpToPage(RECORD_SIZE * records) * PAGE_SIZE
    {
    }

    /** Whether every call around the tests succeeds. */
    static ghost predicate AllFine(env: TestEnv, stati: seq<FrameStatus>) {
      env.io.(mapped := true).Fine() && !Refused(stati, env.failsAt) && env.fate.Ends?
    }

    /** What a finished run tells about the pages of the batch. */
    static ghost predicate Tells(bad: seq<nat>, memory: seq<MemoryPage>, stati: seq<FrameStatus>, env: TestEnv, kind: int) {
      var n := Pages(stati, |stati|);
      && Report.Batch(n, bad) && FramesIn(memory, stati)
      && (forall k :: 0 <= k < n && !memory[PageFrame(stati, k)].Healthy() ==> k in bad)
      && (env.mask == 0 ==> forall k :: 0 <= k < n ==> (k in bad <==> PageFails(memory, stati, kind, env.page, k)))
    }

    /** The child process: it drops its copy of the mapping, makes its own, tests it, and ends. */
    method RunMemtester(n: nat, memory: seq<MemoryPage>, env: TestEnv)
      returns (status: ExitStatus, text: string, ghost bad: seq<nat>)
      requires device.Valid() && device.f.state == MAPPED && IsMemory(memory, device.f.machine)
      requires n == Pages(device.f.Stati(), |device.f.Stati()|)
      requires 0 <= injectionType <= 7 && Addressable(env.base, n) && Apart(memory, device.f)
      modifies device.f`state, device.f`vmas, device.f.frameStati, set x | 0 <= x < |memory| :: memory[x].cells
      ensures device.Valid() && device.f.Stati() == AfterChild(env, old(device.f.Stati()))
      ensures device.zone.View() == old(device.zone.View())
      ensures device.f.state == MAPPED && device.f.vmas == old(device.f.vmas) && device.f.frameStati == old(device.f.frameStati)
      ensures status.Exited? && status.code in {0, 2, 4, 6} <==> AllFine(env, old(device.f.Stati()))
      ensures AllFine(env, old(device.f.Stati())) ==>
        && text == Report.Print(n, bad) && (status.code == 0 <==> bad == [])
        && Tells(bad, memory, old(device.f.Stati()), env, injectionType)
    {
      hide Complete, Kernel.PoolValid, HeldOnce, Nth, Held, Pages, Memtester.Outcome, Memtester.OtherOutcome, Memtester.ExitCode, Owned, InSpace, Address,
           Sound, Report.Print, Tells;
      ghost var stati := device.f.Stati();
      FramesInMemory(device.f, device.zone, memory);
      device.f.VmaOpen();
      device.f.VmaClose();
      if env.fate.DiesUnmapped? {
        return Signaled, "", [];
      }
      var mapped, pages := MapPages(memory, n, env.failsAt);
      var io := env.io.(mapped := mapped);
      ghost var address, other;
      var exitCode;
      exitCode, text, bad, address, other :=
        Memtester.RunRampagePages(pages, env.base, WORDS_PER_PAGE, injectionType, env.page, env.mask, env.draws, io);
      if mapped {
        device.f.VmaClose();
      }
      if env.fate.DiesTesting? {
        return Signaled, if env.fate.written <= |text| then text[..env.fate.written] else text, bad;
      }
      status := Exited(exitCode);
      Memtester.ExitCodes(address, other, !io.Fine());
      if AllFine(env, stati) {
        OutcomeTells(bad, memory, stati, env, injectionType, pages, address, other);
      }
    }

    static lemma OutcomeTells(bad: seq<nat>, memory: seq<MemoryPage>, stati: seq<FrameStatus>, env: TestEnv, kind: int,
                              pages: seq<MemoryPage>, address: bool, other: bool)
      requires FramesIn(memory, stati) && |pages| == Pages(stati, |stati|)
      requires forall k :: 0 <= k < |pages| ==> pages[k] == memory[PageFrame(stati, k)] && pages[k].Valid()
      requires Memtester.Outcome(pages, |pages|, kind, env.page, env.mask, bad, address, other)
      ensures Tells(bad, memory, stati, env, kind) && (bad == [] <==> !address && !other)
    {
      hide Nth, Pages, Sound, PageFrame;
    }

    /** The wrapper's checks on the report and the exit code. */
    static method ReadVerdict(status: ExitStatus, text: string, n: nat, ghost fine: bool, ghost bad: seq<nat>)
      returns (r: Result<seq<nat>>)
      requires status.Exited? && status.code in {0, 2, 4, 6} <==> fine
      requires fine ==> text == Report.Print(n, bad) && Report.Batch(n, bad) && (status.code == 0 <==> bad == [])
      ensures r.Success? <==> fine
      ensures fine ==> r.value == seq(|bad|, i requires 0 <= i < |bad| => PAGE_SIZE * bad[i])
    {
      hide Report.Accepts, Report.Verdict, Report.Print, Report.Batch;
      var parsed := Report.ParseResult(text, n);
      if fine {
        Report.RoundTrip(n, bad);
      }
      if parsed.None? {
        return Failure;
      }
      var badPages := parsed.value;
      if status.Signaled? || status.code !in {0, 2, 4, 6} || (badPages != []) != (status.code != 0) {
        return Failure;
      }
      r := Success(seq(|badPages|, i requires 0 <= i < |badPages| => PAGE_SIZE * badPages[i]));
    }

    /**
     One test of the claimed frames. It succeeds exactly when every call around the tests does, and then
     gives the offsets of the failing pages in ascending order: the wrapper's own checks never stop it.
     */
    method Test(length: nat, physaddr: seq<nat>, memory: seq<MemoryPage>, env: TestEnv)
      returns (r: Result<seq<nat>>, ghost bad: seq<nat>)
      requires device.Valid() && device.f.state == MAPPED && IsMemory(memory, device.f.machine)
      requires |physaddr| == Pages(device.f.Stati(), |device.f.Stati()|) > 0 && length == PAGE_SIZE * |physaddr|
      requires 0 <= injectionType <= 7 && Addressable(env.base, |physaddr|) && Apart(memory, device.f)
      modifies `injectionType, device.f`state, device.f`vmas, device.f.frameStati, set x | 0 <= x < |memory| :: memory[x].cells
      ensures device.Valid() && device.f.Stati() == AfterChild(env, old(device.f.Stati()))
      ensures device.zone.View() == old(device.zone.View())
      ensures device.f.state == MAPPED && device.f.vmas == old(device.f.vmas) && device.f.frameStati == old(device.f.frameStati)
      ensures injectionType == ReadInjectionType(env.injectionFile, old(injectionType))
      ensures injectionType == if env.injectionFile.Some? && 0 <= env.injectionFile.value <= 7 then env.injectionFile.value
                               else old(injectionType)
      ensures r.Success? <==> AllFine(env, old(device.f.Stati()))
      ensures r.Success? ==>
        && r.value == seq(|bad|, i requires 0 <= i < |bad| => PAGE_SIZE * bad[i])
        && Tells(bad, memory, old(device.f.Stati()), env, injectionType)
    {
      hide Complete, Kernel.PoolValid, HeldOnce, Nth, Held, Pages, Owned, InSpace, Address, Sound, Report.Print, AllFine,
           Addressable, IsMemory, PageFrame, FramesIn;
      Arith.DivisionUnique(length, |physaddr|, PAGE_SIZE, 0);
      r, bad := Failure, [];
      if physaddr == [] || length % |physaddr| != 0 {
        return;
      }
      var pageSize := length / |physaddr|;
      if pageSize != PAGE_SIZE {
        return;
      }
      injectionType := ReadInjectionType(env.injectionFile, injectionType);
      ghost var stati := device.f.Stati();
      var status, text;
      status, text, bad := RunMemtester(|physaddr|, memory, env);
      r := ReadVerdict(status, text, |physaddr|, AllFine(env, stati), bad);
    }
  }
}
