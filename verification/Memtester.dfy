/**
 memtester's RAMpage mode: every test on every page of a mapping, a report of the bad pages, an exit code.
 */
module Memtester {
  import opened FaultModel
  import opened MemTests
  import PatternFamilies
  import Report
  import Arith

  // ---- The table of tests ----

  datatype Test = Fill(pattern: Pattern, rounds: nat) | Combine(op: Operation) | Narrow(masks: seq<Word>)

  const TESTS: nat := 17

  /** No injection kind: the test has no injection loop. */
  const NEVER: int := -1

  /** The tests in the order of the table, given the random values the test will draw. */
  function Entry(t: nat, draws: seq<Word>): Test
    requires t < TESTS
  {
    match t
    case 0 => Fill(Drawn(draws, 0), 1)
    case 1 => Combine(Xor)
    case 2 => Combine(Sub)
    case 3 => Combine(Mul)
    case 4 => Combine(Div)
    case 5 => Combine(Or)
    case 6 => Combine(And)
    case 7 => Fill(SequentialIncrement(Draw(draws, 0)), 1)
    case 8 => Fill(SolidBits, 64)
    case 9 => Fill(BlockSequential, 256)
    case 10 => Fill(Checkerboard, 64)
    case 11 => Fill(BitSpread(draws), 128)
    case 12 => Fill(BitFlip, 512)
    case 13 => Fill(WalkingOnes, 128)
    case 14 => Fill(WalkingZeroes, 128)
    case 15 => Narrow(BYTE_MASKS)
    case _ => Narrow(SHORT_MASKS)
  }

  /** The injection kind a test reacts to. */
  function KindOf(t: nat): int {
    match t
    case 1 => 2
    case 5 => 6
    case 8 => 3
    case 10 => 4
    case 14 => 5
    case 15 => 7
    case _ => NEVER
  }

  /** The table: which tests, how many rounds, and the injection kind of those that have one. */
  lemma TableIs(draws: seq<Word>)
    ensures forall t :: 1 <= t <= 6 ==>
      Entry(t, draws) == Combine(if t == 1 then Xor else if t == 2 then Sub else if t == 3 then Mul else if t == 4 then Div
                                 else if t == 5 then Or else And)
    ensures Entry(7, draws).Fill? && Entry(7, draws).pattern.SequentialIncrement? && Entry(7, draws).rounds == 1
    ensures Entry(8, draws) == Fill(SolidBits, 64) && Entry(9, draws) == Fill(BlockSequential, 256)
    ensures Entry(10, draws) == Fill(Checkerboard, 64) && Entry(11, draws) == Fill(BitSpread(draws), 128)
    ensures Entry(12, draws) == Fill(BitFlip, 8 * 64)
    ensures Entry(13, draws) == Fill(WalkingOnes, 2 * 64) && Entry(14, draws) == Fill(WalkingZeroes, 2 * 64)
    ensures Entry(15, draws) == Narrow(BYTE_MASKS) && Entry(16, draws) == Narrow(SHORT_MASKS)
    ensures forall t :: 0 <= t < TESTS ==>
      KindOf(t) == if t == 1 then 2 else if t == 5 then 6 else if t == 8 then 3 else if t == 10 then 4 else if t == 14 then 5
                   else if t == 15 then 7 else -1
  {
  }

  /** The tests whose patterns give every bit both values. */
  predicate IsSeparating(t: nat) {
    t == 8 || t == 9 || t == 10 || t == 12 || t == 13 || t == 14
  }

  lemma SeparatingEntries(t: nat, draws: seq<Word>)
    requires t < TESTS && IsSeparating(t)
    ensures Entry(t, draws).Fill? && PatternFamilies.Separates(Entry(t, draws).pattern, Entry(t, draws).rounds)
    ensures Entry(t, draws).rounds >= 2
    ensures PatternFamilies.IsUniform(Entry(t, draws).pattern) || PatternFamilies.IsAlternating(Entry(t, draws).pattern)
  {
    hide PatternFamilies.BothValues, PatternFamilies.Separates;
    PatternFamilies.ComplementFamilies();
    PatternFamilies.WalkingFamilies();
    PatternFamilies.SeparatesIffBothValues(Entry(t, draws).pattern, Entry(t, draws).rounds);
  }

  /** Test `t` passes on a page without shared cells that held `held` before it: whatever is compared agrees. */
  ghost predicate Passes(p: MemoryPage, t: nat, draws: seq<Word>, inj: Injection, held: seq<Word>)
    requires p.Valid() && inj.Valid() && t < TESTS && |held| == p.Words()
  {
    match Entry(t, draws)
    case Fill(pattern, rounds) => forall j :: 0 <= j < rounds ==> RoundAgrees(p, inj, KindOf(t), pattern, j)
    case Combine(op) => CombinedAgrees(p, inj, KindOf(t), op, Draw(draws, 0), held)
    case Narrow(_) => forall j :: 0 <= j < 2 ==> RoundAgrees(p, inj, KindOf(t), Drawn(draws, p.Half()), j)
  }

  /** Runs the test `t` of the table. */
  method RunTest(p: MemoryPage, t: nat, draws: seq<Word>, inj: Injection) returns (r: int)
    requires p.Valid() && inj.Valid() && t < TESTS
    modifies p.cells
    ensures r == 0 || r == -1
    // on any page without shared cells it tells whether what it compares agrees
    ensures p.Injective() ==> (r == 0 <==> Passes(p, t, draws, inj, old(p.Contents())))
    // on a healthy page whose halves agree, only an injection makes it fail
    ensures p.Healthy() && (t == 0 || old(p.HalvesRead())) ==> (r == 0 <==> Unflipped(p, inj, KindOf(t)))
    // a separating test tells whether the halves have the same stuck bits
    ensures p.Injective() && IsSeparating(t) && Unflipped(p, inj, KindOf(t)) ==> (r == 0 <==> p.HalvesAlike())
    // and where words share cells, whether each word passes together with its twin
    ensures IsSeparating(t) && Unflipped(p, inj, KindOf(t)) ==>
      Entry(t, draws).Fill? && (r == 0 <==> PatternFamilies.HalvesPass(p, Entry(t, draws).pattern))
  {
    match Entry(t, draws)
    case Fill(pattern, rounds) =>
      r := RunFill(p, t, draws, inj);
    case Combine(op) =>
      r := RunCombine(p, t, op, Draw(draws, 0), inj);
    case Narrow(masks) =>
      MasksCover();
      r := NarrowTest(p, masks, draws, inj, KindOf(t));
      if p.Healthy() {
        HealthyRounds(p, 2, Drawn(draws, p.Half()), inj, KindOf(t));
      }
  }

  method RunFill(p: MemoryPage, t: nat, draws: seq<Word>, inj: Injection) returns (r: int)
    requires p.Valid() && inj.Valid() && t < TESTS && Entry(t, draws).Fill?
    modifies p.cells
    ensures r == 0 || r == -1
    ensures p.Injective() ==>
      (r == 0 <==> forall j :: 0 <= j < Entry(t, draws).rounds ==> RoundAgrees(p, inj, KindOf(t), Entry(t, draws).pattern, j))
    ensures p.Healthy() ==> (r == 0 <==> Unflipped(p, inj, KindOf(t)))
    ensures p.Injective() && IsSeparating(t) && Unflipped(p, inj, KindOf(t)) ==> (r == 0 <==> p.HalvesAlike())
    ensures IsSeparating(t) && Unflipped(p, inj, KindOf(t)) ==> (r == 0 <==> PatternFamilies.HalvesPass(p, Entry(t, draws).pattern))
  {
    hide RoundReads, PatternFamilies.HalvesPass, RoundAgrees, PatternFamilies.Separates, Sound, SameFault;
    var entry := Entry(t, draws);
    r := PatternTest(p, entry.rounds, entry.pattern, inj, KindOf(t));
    if p.Healthy() {
      HealthyRounds(p, entry.rounds, entry.pattern, inj, KindOf(t));
    }
    if IsSeparating(t) && Unflipped(p, inj, KindOf(t)) {
      SeparatingEntries(t, draws);
      PatternFamilies.SharedDetects(p, entry.pattern, entry.rounds);
      PatternFamilies.SeparatingDetects(p, entry.pattern, entry.rounds, inj, KindOf(t));
    }
  }

  method RunCombine(p: MemoryPage, t: nat, op: Operation, q: Word, inj: Injection) returns (r: int)
    requires p.Valid() && inj.Valid()
    modifies p.cells
    ensures r == 0 || r == -1
    ensures p.Injective() ==> (r == 0 <==> CombinedAgrees(p, inj, KindOf(t), op, q, old(p.Contents())))
    ensures p.Healthy() && old(p.HalvesRead()) ==> (r == 0 <==> Unflipped(p, inj, KindOf(t)))
  {
    hide CombinedAgrees, Stick, Sound, Apply;
    ghost var held := p.Contents();
    r := CombineTest(p, op, q, inj, KindOf(t));
    if p.Healthy() && old(p.HalvesRead()) {
      HealthyCombines(p, inj, KindOf(t), op, q, held);
    }
  }

  /** What a page reads as when all bits were stored as 1. */
  ghost function AllOnes(p: MemoryPage): (held: seq<Word>)
    requires p.Valid()
    ensures |held| == p.Words()
  {
    seq(p.Words(), i requires 0 <= i < p.Words() => Stick(p.FaultAt(i), ONES))
  }

  /** The memset between two tests. */
  method SetAll(p: MemoryPage)
    requires p.Valid()
    modifies p.cells
    ensures p.Contents() == AllOnes(p)
    ensures p.Healthy() ==> p.HalvesRead()
  {
    hide Stick, Sound;
    var i := 0;
    while i < p.Words()
      invariant 0 <= i <= p.Words()
      invariant forall k :: 0 <= k < i ==> p.cells[p.decode[k]] == ONES
    {
      p.Write(i, ONES);
      i := i + 1;
    }
    forall k | 0 <= k < p.Words() && p.Healthy()
      ensures p.Read(k) == ONES
    {
      StickAlike(p.FaultAt(k), p.FaultAt(k), ONES);
    }
  }

  // ---- One page ----

  /** Some test among the first `n` flips a word of its own in the first half. */
  ghost predicate Injected(p: MemoryPage, inj: Injection, n: nat)
    requires inj.Valid()
  {
    exists t :: 0 <= t < n && !Unflipped(p, inj, KindOf(t))
  }

  /** All tests on one page: which kinds of failure it shows. */
  /** The test mask of the command line lets test `t` run. */
  predicate Selected(mask: Word, t: nat) {
    mask == 0 || mask & Bit(t) != 0
  }

  /** The first selected test writes the page itself, so that none combines what the address test left. */
  ghost predicate StartsFresh(mask: Word) {
    forall t :: 1 <= t <= 6 && Selected(mask, t) ==> exists u :: 0 <= u < t && Selected(mask, u)
  }

  /** The random values for test `t`. */
  function DrawsOf(draws: seq<seq<Word>>, t: nat): seq<Word> {
    if t < |draws| then draws[t] else []
  }

  /** Some selected test among the first `n` fails on a page without shared cells. */
  ghost predicate SomeFails(p: MemoryPage, mask: Word, draws: seq<seq<Word>>, inj: Injection, n: nat)
    requires p.Valid() && inj.Valid() && n <= TESTS
  {
    exists t :: 0 <= t < n && Selected(mask, t) && !Passes(p, t, DrawsOf(draws, t), inj, AllOnes(p))
  }

  /** Some selected test among the first `n` finds twins that do not pass, whichever words share cells. */
  ghost predicate SomeUnlike(p: MemoryPage, mask: Word, draws: seq<seq<Word>>, inj: Injection, n: nat)
    requires p.Valid() && inj.Valid() && n <= TESTS
  {
    exists t :: 0 <= t < n && Selected(mask, t) && IsUnlike(p, draws, inj, t)
  }

  ghost predicate IsUnlike(p: MemoryPage, draws: seq<seq<Word>>, inj: Injection, t: nat)
    requires p.Valid() && inj.Valid() && t < TESTS
  {
    && IsSeparating(t) && Unflipped(p, inj, KindOf(t)) && Entry(t, DrawsOf(draws, t)).Fill?
    && !PatternFamilies.HalvesPass(p, Entry(t, DrawsOf(draws, t)).pattern)
  }

  /** All but the tests 1 to 6 do not look at what the page held. */
  lemma FreshPasses(p: MemoryPage, t: nat, draws: seq<Word>, inj: Injection, a: seq<Word>, b: seq<Word>)
    requires p.Valid() && inj.Valid() && t < TESTS && |a| == p.Words() == |b| && !(1 <= t <= 6)
    ensures Passes(p, t, draws, inj, a) <==> Passes(p, t, draws, inj, b)
  {
    hide RoundAgrees;
  }

  /** What has run among the first `t` tests, and what it leaves behind. */
  ghost predicate AnyRan(mask: Word, t: nat) {
    exists u :: 0 <= u < t && Selected(mask, u)
  }

  lemma AnyRanNext(mask: Word, t: nat)
    ensures AnyRan(mask, t + 1) <==> AnyRan(mask, t) || Selected(mask, t)
  {
    hide Selected;
    if AnyRan(mask, t + 1) {
      var u :| 0 <= u < t + 1 && Selected(mask, u);
      assert u < t || u == t;
    }
    if AnyRan(mask, t) {
      var u :| 0 <= u < t && Selected(mask, u);
      assert u < t + 1;
    }
  }

  lemma FailsNext(p: MemoryPage, mask: Word, draws: seq<seq<Word>>, inj: Injection, t: nat)
    requires p.Valid() && inj.Valid() && t < TESTS
    ensures SomeFails(p, mask, draws, inj, t + 1) <==>
      SomeFails(p, mask, draws, inj, t) || (Selected(mask, t) && !Passes(p, t, DrawsOf(draws, t), inj, AllOnes(p)))
    ensures SomeUnlike(p, mask, draws, inj, t + 1) <==>
      SomeUnlike(p, mask, draws, inj, t) || (Selected(mask, t) && IsUnlike(p, draws, inj, t))
  {
    hide Selected, Passes, AllOnes, IsUnlike, DrawsOf;
    if SomeFails(p, mask, draws, inj, t) {
      var u :| 0 <= u < t && Selected(mask, u) && !Passes(p, u, DrawsOf(draws, u), inj, AllOnes(p));
      assert u < t + 1;
    }
    if SomeUnlike(p, mask, draws, inj, t) {
      var u :| 0 <= u < t && Selected(mask, u) && IsUnlike(p, draws, inj, u);
      assert u < t + 1;
    }
  }

  /**
   All tests of one page. The address test misses nothing. On a page without shared cells the others fail exactly if
   some selected test does; on any page each separating test finds every word that does not pass with its twin.
   */
  method TestPage(p: MemoryPage, base: Word, mask: Word, draws: seq<seq<Word>>, inj: Injection)
    returns (address: bool, other: bool)
    requires p.Valid() && inj.Valid() && InSpace(base, p.Words())
    modifies p.cells
    ensures address <==> !p.Healthy() || exists i :: 0 <= i < p.Words() && inj.Hits(1, i)
    ensures mask == 0 && p.Healthy() ==> (other <==> Injected(p, inj, TESTS))
    ensures p.Injective() && StartsFresh(mask) ==> (other <==> SomeFails(p, mask, draws, inj, TESTS))
    ensures SomeUnlike(p, mask, draws, inj, TESTS) ==> other
  {
    hide Sound, InSpace, Stick, Passes, AllOnes, Unflipped, Entry, KindOf, IsSeparating, PatternFamilies.HalvesPass, StartsFresh, SomeFails, SomeUnlike, IsUnlike, AnyRan, Selected, DrawsOf, MemoryPage.Contents;
    var r := TestStuckAddress(p, base, inj);
    address, other := r != 0, false;
    var t := 0;
    NothingRan(p, mask, draws, inj);
    while t < TESTS
      invariant 0 <= t <= TESTS
      invariant t > 0 && mask == 0 && p.Healthy() ==> p.HalvesRead()
      invariant mask == 0 && p.Healthy() ==> (other <==> Injected(p, inj, t))
      invariant AnyRan(mask, t) ==> p.Contents() == AllOnes(p)
      invariant p.Injective() && StartsFresh(mask) ==> (other <==> SomeFails(p, mask, draws, inj, t))
      invariant SomeUnlike(p, mask, draws, inj, t) ==> other
    {
      AnyRanNext(mask, t);
      FailsNext(p, mask, draws, inj, t);
      AllSelected(mask, t);
      if Selected(mask, t) {
        FreshStart(p, mask, t, DrawsOf(draws, t), inj, p.Contents());
        r := RunTest(p, t, DrawsOf(draws, t), inj);
        UnlikeFails(p, draws, inj, t, r);
        if r != 0 {
          other := true;
        }
        SetAll(p);
      }
      t := t + 1;
    }
  }

  lemma NothingRan(p: MemoryPage, mask: Word, draws: seq<seq<Word>>, inj: Injection)
    requires p.Valid() && inj.Valid()
    ensures !AnyRan(mask, 0) && !SomeFails(p, mask, draws, inj, 0) && !SomeUnlike(p, mask, draws, inj, 0)
  {
  }

  lemma AllSelected(mask: Word, t: nat)
    ensures mask == 0 ==> Selected(mask, t)
  {
    hide Bit;
  }

  /** A selected test finds all ones, or does not look. */
  lemma FreshStart(p: MemoryPage, mask: Word, t: nat, draws: seq<Word>, inj: Injection, held: seq<Word>)
    requires p.Valid() && inj.Valid() && t < TESTS && |held| == p.Words() && Selected(mask, t)
    requires AnyRan(mask, t) ==> held == AllOnes(p)
    ensures StartsFresh(mask) ==> (Passes(p, t, draws, inj, held) <==> Passes(p, t, draws, inj, AllOnes(p)))
  {
    hide Passes, AllOnes, Selected;
    if !(1 <= t <= 6) {
      FreshPasses(p, t, draws, inj, held, AllOnes(p));
    }
  }

  lemma UnlikeFails(p: MemoryPage, draws: seq<seq<Word>>, inj: Injection, t: nat, r: int)
    requires p.Valid() && inj.Valid() && t < TESTS
    requires IsSeparating(t) && Unflipped(p, inj, KindOf(t)) ==>
      Entry(t, DrawsOf(draws, t)).Fill? && (r == 0 <==> PatternFamilies.HalvesPass(p, Entry(t, DrawsOf(draws, t)).pattern))
    ensures IsUnlike(p, draws, inj, t) ==> r != 0
  {
  }

  // ---- The whole mapping ----

  const FAIL_NONSTARTER: bv8 := 1
  const FAIL_ADDRESSLINES: bv8 := 2
  const FAIL_OTHERTEST: bv8 := 4

  /** How the calls around the tests end. When the report is not written out, only a part of it gets through. */
  datatype Io = Io(mapped: bool, resultOpen: bool, flushed: bool, closed: bool, unmapped: bool, written: nat) {
    predicate Fine() {
      mapped && resultOpen && flushed && closed && unmapped
    }
  }

  function ExitCode(address: bool, other: bool, nonstarter: bool): bv8 {
    (if address then FAIL_ADDRESSLINES else 0) | (if other then FAIL_OTHERTEST else 0)
      | (if nonstarter then FAIL_NONSTARTER else 0)
  }

  lemma ExitCodes(address: bool, other: bool, nonstarter: bool)
    ensures ExitCode(address, other, nonstarter) in {0, 2, 4, 6} <==> !nonstarter
    ensures ExitCode(address, other, nonstarter) == 0 <==> !address && !other && !nonstarter
    ensures ExitCode(address, other, nonstarter) | FAIL_ADDRESSLINES == ExitCode(true, other, nonstarter)
    ensures ExitCode(address, other, nonstarter) | FAIL_OTHERTEST == ExitCode(address, true, nonstarter)
    ensures ExitCode(address, other, nonstarter) | FAIL_NONSTARTER == ExitCode(address, other, true)
  {
  }

  /** The page `k` of a mapping, as the injection switches see it. */
  function At(kind: int, page: int, k: nat, pageSize: nat): Injection {
    Injection(kind, page, k * pageSize, pageSize)
  }

  /** A flip lands on a page exactly when it is the selected one. */
  lemma HitsPage(kind: int, page: int, k: nat, pageSize: nat, c: int, i: nat)
    requires 8 * i < pageSize
    ensures At(kind, page, k, pageSize).Hits(c, i) <==> kind == c && page == k
  {
    Arith.DivisionUnique(k * pageSize + 8 * i, pageSize, k, 8 * i);
  }

  /** An injection kind that has a test. */
  predicate HasTest(kind: int) {
    2 <= kind <= 7
  }

  lemma InjectedPage(p: MemoryPage, kind: int, page: int, k: nat)
    requires p.Valid() && 0 <= kind <= 7
    ensures (exists i :: 0 <= i < p.Words() && At(kind, page, k, 8 * p.Words()).Hits(1, i)) <==> kind == 1 && page == k
    ensures Injected(p, At(kind, page, k, 8 * p.Words()), TESTS) <==> HasTest(kind) && page == k
  {
    var inj := At(kind, page, k, 8 * p.Words());
    forall c: int, i: nat | i < p.Words()
      ensures inj.Hits(c, i) <==> kind == c && page == k
    {
      HitsPage(kind, page, k, 8 * p.Words(), c, i);
    }
    assert kind == 1 && page == k ==> inj.Hits(1, 0);
    forall t: nat
      ensures !Unflipped(p, inj, KindOf(t)) <==> kind == KindOf(t) && page == k
    {
      assert 0 < p.Half();
      assert kind == KindOf(t) && page == k ==> inj.Hits(KindOf(t), 0);
    }
    assert KindOf(1) == 2 && KindOf(5) == 6 && KindOf(8) == 3 && KindOf(10) == 4 && KindOf(14) == 5 && KindOf(15) == 7;
    if HasTest(kind) && page == k {
      var t := if kind == 2 then 1 else if kind == 6 then 5 else if kind == 3 then 8
               else if kind == 4 then 10 else if kind == 5 then 14 else 15;
      assert !Unflipped(p, inj, KindOf(t));
    }
  }

  /** The pages memtester is to report: the unhealthy ones, and the one an injection is aimed at. */
  ghost predicate IsBad(pages: seq<MemoryPage>, kind: int, page: int, k: nat)
    requires k < |pages| && pages[k].Valid()
  {
    !pages[k].Healthy() || (1 <= kind <= 7 && page == k)
  }

  /** A mapping of valid pages of one size at word-aligned addresses that do not wrap around. */
  ghost predicate Mapping(pages: seq<MemoryPage>, base: Word, words: nat) {
    && words > 0
    && (forall k :: 0 <= k < |pages| ==> pages[k].Valid() && pages[k].Words() == words)
    && (forall k :: 0 <= k < |pages| ==> InSpace(Address(base, k * words), words))
  }

  /** The address-line failures: every unhealthy page, and the page an injection of kind 1 is aimed at. */
  ghost predicate FailsAddress(pages: seq<MemoryPage>, kind: int, page: int, k: nat)
    requires k < |pages| && pages[k].Valid()
  {
    !pages[k].Healthy() || (kind == 1 && page == k)
  }

  method RunPage(pages: seq<MemoryPage>, base: Word, words: nat, k: nat, kind: int, page: int, mask: Word,
                 draws: seq<seq<Word>>)
    returns (address: bool, other: bool)
    requires Mapping(pages, base, words) && k < |pages| && 0 <= kind <= 7
    modifies pages[k].cells
    ensures address <==> FailsAddress(pages, kind, page, k)
    ensures mask == 0 && pages[k].Healthy() ==> (other <==> HasTest(kind) && page == k)
    ensures pages[k].Injective() && StartsFresh(mask) ==>
      (other <==> SomeFails(pages[k], mask, draws, At(kind, page, k, 8 * words), TESTS))
    ensures SomeUnlike(pages[k], mask, draws, At(kind, page, k, 8 * words), TESTS) ==> other
  {
    hide InSpace, Address, Sound, HasTest, StartsFresh, SomeFails, SomeUnlike;
    InjectedPage(pages[k], kind, page, k);
    address, other := TestPage(pages[k], Address(base, k * words), mask, draws, At(kind, page, k, 8 * words));
  }

  /** The random values for page `k`. */
  function PageDraws(draws: seq<seq<seq<Word>>>, k: nat): seq<seq<Word>> {
    if k < |draws| then draws[k] else []
  }

  /** Some selected test of the table fails on page `k`, if no two of its words share a cell. */
  ghost predicate FailsOther(pages: seq<MemoryPage>, kind: int, page: int, mask: Word, draws: seq<seq<seq<Word>>>, k: nat)
    requires k < |pages| && pages[k].Valid()
  {
    SomeFails(pages[k], mask, PageDraws(draws, k), At(kind, page, k, 8 * pages[k].Words()), TESTS)
  }

  /** Some selected test finds a word of page `k` that does not pass with its twin. */
  ghost predicate FindsUnlike(pages: seq<MemoryPage>, kind: int, page: int, mask: Word, draws: seq<seq<seq<Word>>>, k: nat)
    requires k < |pages| && pages[k].Valid()
  {
    SomeUnlike(pages[k], mask, PageDraws(draws, k), At(kind, page, k, 8 * pages[k].Words()), TESTS)
  }

  /** What the tests of the table say about the first `n` pages. */
  ghost predicate OtherOutcome(pages: seq<MemoryPage>, n: nat, kind: int, page: int, mask: Word, draws: seq<seq<seq<Word>>>,
                               bad: seq<nat>, other: bool)
    requires n <= |pages| && forall k :: 0 <= k < |pages| ==> pages[k].Valid()
  {
    && (forall k :: 0 <= k < n && FindsUnlike(pages, kind, page, mask, draws, k) ==> other)
    && (StartsFresh(mask) ==> FreshOutcome(pages, n, kind, page, mask, draws, bad, other))
  }

  /** The same under a mask whose first test writes the page: then nothing else makes them fail, or a page bad. */
  ghost predicate FreshOutcome(pages: seq<MemoryPage>, n: nat, kind: int, page: int, mask: Word, draws: seq<seq<seq<Word>>>,
                               bad: seq<nat>, other: bool)
    requires n <= |pages| && forall k :: 0 <= k < |pages| ==> pages[k].Valid()
  {
    && (forall k :: 0 <= k < n && pages[k].Injective() && FailsOther(pages, kind, page, mask, draws, k) ==> other)
    && ((forall k :: 0 <= k < n ==> pages[k].Injective()) && other ==>
         exists k :: 0 <= k < n && FailsOther(pages, kind, page, mask, draws, k))
    && (forall k :: 0 <= k < n ==>
         (k in bad <==> FailsAddress(pages, kind, page, k) || FailsOther(pages, kind, page, mask, draws, k)))
  }

  lemma FreshGrows(pages: seq<MemoryPage>, n: nat, kind: int, page: int, mask: Word, draws: seq<seq<seq<Word>>>,
                   bad: seq<nat>, other: bool, a: bool, o: bool)
    requires n < |pages| && forall k :: 0 <= k < |pages| ==> pages[k].Valid()
    requires FreshOutcome(pages, n, kind, page, mask, draws, bad, other) && Report.Batch(n, bad)
    requires a <==> FailsAddress(pages, kind, page, n)
    requires pages[n].Injective() ==> (o <==> FailsOther(pages, kind, page, mask, draws, n))
    ensures FreshOutcome(pages, n + 1, kind, page, mask, draws, if a || o then bad + [n] else bad, other || o)
  {
    hide FailsOther, Report.Batch, FailsAddress, MemoryPage.Injective;
    BatchGrows(n, bad, a || o);
    SharedFailsAddress(pages, kind, page, n);
    if (forall k :: 0 <= k < n + 1 ==> pages[k].Injective()) && (other || o) {
      if o {
        assert FailsOther(pages, kind, page, mask, draws, n);
      } else {
        var k :| 0 <= k < n && FailsOther(pages, kind, page, mask, draws, k);
        assert k < n + 1;
      }
    }
  }

  lemma OtherGrows(pages: seq<MemoryPage>, n: nat, kind: int, page: int, mask: Word, draws: seq<seq<seq<Word>>>,
                   bad: seq<nat>, other: bool, a: bool, o: bool)
    requires n < |pages| && forall k :: 0 <= k < |pages| ==> pages[k].Valid()
    requires OtherOutcome(pages, n, kind, page, mask, draws, bad, other) && Report.Batch(n, bad)
    requires a <==> FailsAddress(pages, kind, page, n)
    requires pages[n].Injective() && StartsFresh(mask) ==> (o <==> FailsOther(pages, kind, page, mask, draws, n))
    requires FindsUnlike(pages, kind, page, mask, draws, n) ==> o
    ensures OtherOutcome(pages, n + 1, kind, page, mask, draws, if a || o then bad + [n] else bad, other || o)
  {
    hide FailsOther, FindsUnlike, Report.Batch, StartsFresh, FailsAddress, FreshOutcome, MemoryPage.Injective;
    if StartsFresh(mask) {
      FreshGrows(pages, n, kind, page, mask, draws, bad, other, a, o);
    }
  }

  lemma OtherMeans(pages: seq<MemoryPage>, kind: int, page: int, mask: Word, draws: seq<seq<seq<Word>>>, k: nat)
    requires k < |pages| && pages[k].Valid()
    ensures FailsOther(pages, kind, page, mask, draws, k) <==>
      SomeFails(pages[k], mask, PageDraws(draws, k), At(kind, page, k, 8 * pages[k].Words()), TESTS)
    ensures FindsUnlike(pages, kind, page, mask, draws, k) <==>
      SomeUnlike(pages[k], mask, PageDraws(draws, k), At(kind, page, k, 8 * pages[k].Words()), TESTS)
  {
  }

  lemma SharedFailsAddress(pages: seq<MemoryPage>, kind: int, page: int, k: nat)
    requires k < |pages| && pages[k].Valid()
    ensures !pages[k].Injective() ==> FailsAddress(pages, kind, page, k)
  {
  }

  lemma NoOther(pages: seq<MemoryPage>, kind: int, page: int, mask: Word, draws: seq<seq<seq<Word>>>)
    requires forall k :: 0 <= k < |pages| ==> pages[k].Valid()
    ensures OtherOutcome(pages, 0, kind, page, mask, draws, [], false)
  {
  }

  /** A page whose halves have different stuck bits fails Solid Bits when nothing is injected. */
  lemma UnlikeHalvesFail(p: MemoryPage, draws: seq<seq<Word>>, inj: Injection)
    requires p.Valid() && inj.Valid() && p.Injective() && !p.HalvesAlike() && Unflipped(p, inj, 3)
    ensures SomeFails(p, 0, draws, inj, TESTS)
  {
    hide RoundAgrees, MemoryPage.HalvesAlike, Unflipped, PatternFamilies.Separates;
    var t := 8;
    assert KindOf(t) == 3;
    SeparatingEntries(t, DrawsOf(draws, t));
    PatternFamilies.SeparatingDetects(p, SolidBits, 64, inj, 3);
    assert !Passes(p, t, DrawsOf(draws, t), inj, AllOnes(p));
    AllSelected(0, t);
    assert Selected(0, t);
  }

  /**
   So without mask and injection a page with a stuck bit that its other half does not have fails both kinds of
   tests: the exit code is 6.
   */
  lemma UnlikeHalvesExit(pages: seq<MemoryPage>, page: int, draws: seq<seq<seq<Word>>>, bad: seq<nat>, address: bool, other: bool,
                         k: nat)
    requires forall i :: 0 <= i < |pages| ==> pages[i].Valid()
    requires Outcome(pages, |pages|, 0, page, 0, bad, address, other) && OtherOutcome(pages, |pages|, 0, page, 0, draws, bad, other)
    requires k < |pages| && pages[k].Injective() && !pages[k].HalvesAlike()
    ensures k in bad && ExitCode(address, other, false) == 6
  {
    hide ExitCode, SomeFails, MemoryPage.HalvesAlike;
    var inj := At(0, page, k, 8 * pages[k].Words());
    AllFresh();
    UnlikeHalvesFail(pages[k], PageDraws(draws, k), inj);
    assert FailsOther(pages, 0, page, 0, draws, k);
    if pages[k].Healthy() {
      HealthyAlike(pages[k]);
    }
    assert FailsAddress(pages, 0, page, k);
    ExitCodeValues();
  }

  lemma HealthyAlike(p: MemoryPage)
    requires p.Valid() && p.Healthy()
    ensures p.HalvesAlike()
  {
    hide Sound, SameFault;
    forall i | 0 <= i < p.Half()
      ensures SameFault(p.FaultAt(i), p.FaultAt(p.Half() + i))
    {
      SoundAlike(p.FaultAt(i), p.FaultAt(p.Half() + i));
    }
  }

  lemma AllFresh()
    ensures StartsFresh(0)
  {
    hide Bit;
    forall t | 1 <= t <= 6 && Selected(0, t)
      ensures exists u :: 0 <= u < t && Selected(0, u)
    {
      assert Selected(0, 0);
    }
  }

  /** What the exit code and the list of bad pages say about the first `n` pages. */
  ghost predicate Outcome(pages: seq<MemoryPage>, n: nat, kind: int, page: int, mask: Word,
                          bad: seq<nat>, address: bool, other: bool)
    requires n <= |pages| && forall k :: 0 <= k < |pages| ==> pages[k].Valid()
  {
    && Report.Batch(n, bad)
    && (bad != [] <==> address || other)
    && (address <==> exists k :: 0 <= k < n && FailsAddress(pages, kind, page, k))
    && (forall k :: 0 <= k < n && FailsAddress(pages, kind, page, k) ==> k in bad)
    && (mask == 0 ==> forall k :: 0 <= k < n ==> (k in bad <==> IsBad(pages, kind, page, k)))
    && (mask == 0 && (forall k :: 0 <= k < n ==> pages[k].Healthy()) ==> (other <==> HasTest(kind) && 0 <= page < n))
  }

  /**
   Injection is located exactly: on fault-free memory and with an empty mask, the only bad page is the one aimed
   at, and the exit code is 2 for the first kind and 4 for the others.
   */
  lemma InjectionLocated(pages: seq<MemoryPage>, kind: int, page: int, bad: seq<nat>, address: bool, other: bool)
    requires forall k :: 0 <= k < |pages| ==> pages[k].Valid() && pages[k].Healthy()
    requires Outcome(pages, |pages|, kind, page, 0, bad, address, other) && 0 <= kind <= 7
    ensures forall k: nat :: k in bad <==> 1 <= kind && k == page && page < |pages|
    ensures ExitCode(address, other, false) == if kind == 0 || !(0 <= page < |pages|) then 0 else if kind == 1 then 2 else 4
  {
    hide ExitCode;
    ExitCodeValues();
    assert forall k :: k in bad ==> k < |pages| && IsBad(pages, kind, page, k);
    assert 1 <= kind && 0 <= page < |pages| ==> IsBad(pages, kind, page, page);
  }

  lemma ExitCodeValues()
    ensures ExitCode(false, false, false) == 0
    ensures ExitCode(true, false, false) == 2 && ExitCode(false, true, false) == 4 && ExitCode(true, true, false) == 6
  {
  }

  lemma OutcomeGrows(pages: seq<MemoryPage>, n: nat, kind: int, page: int, mask: Word,
                     bad: seq<nat>, address: bool, other: bool, a: bool, o: bool)
    requires n < |pages| && forall k :: 0 <= k < |pages| ==> pages[k].Valid()
    requires 0 <= kind <= 7
    requires Outcome(pages, n, kind, page, mask, bad, address, other)
    requires a <==> FailsAddress(pages, kind, page, n)
    requires mask == 0 && pages[n].Healthy() ==> (o <==> HasTest(kind) && page == n)
    ensures Outcome(pages, n + 1, kind, page, mask, if a || o then bad + [n] else bad, address || a, other || o)
  {
    hide Sound, Report.Batch, FailsAddress, IsBad, MemoryPage.Healthy;
    FailsMeans(pages, kind, page, n);
    BatchGrows(n, bad, a || o);
    AddressGrows(pages, n, kind, page, address, a);
  }

  lemma FailsMeans(pages: seq<MemoryPage>, kind: int, page: int, k: nat)
    requires k < |pages| && pages[k].Valid()
    ensures FailsAddress(pages, kind, page, k) <==> !pages[k].Healthy() || (kind == 1 && page == k)
    ensures IsBad(pages, kind, page, k) <==> !pages[k].Healthy() || (1 <= kind <= 7 && page == k)
  {
  }

  lemma BatchGrows(n: nat, bad: seq<nat>, fails: bool)
    requires Report.Batch(n, bad)
    ensures var bad' := if fails then bad + [n] else bad;
      && Report.Batch(n + 1, bad') && (bad' != [] <==> bad != [] || fails)
      && forall k: nat :: k in bad' <==> k in bad || (k == n && fails)
    ensures forall k :: k in bad ==> k < n
  {
  }

  lemma AddressGrows(pages: seq<MemoryPage>, n: nat, kind: int, page: int, address: bool, a: bool)
    requires n < |pages| && forall k :: 0 <= k < |pages| ==> pages[k].Valid()
    requires address <==> exists k :: 0 <= k < n && FailsAddress(pages, kind, page, k)
    requires a <==> FailsAddress(pages, kind, page, n)
    ensures address || a <==> exists k :: 0 <= k < n + 1 && FailsAddress(pages, kind, page, k)
  {
    hide FailsAddress;
    if address {
      var k :| 0 <= k < n && FailsAddress(pages, kind, page, k);
      assert k < n + 1;
    }
  }

  /** The report file after the run: whole if it could be written out, cut off somewhere otherwise. */
  function Written(report: string, io: Io): string {
    if io.flushed && io.closed then report else report[..if io.written <= |report| then io.written else |report|]
  }

  /**
   The run of all pages. The report names the failing pages; the exit code is in {0, 2, 4, 6} unless
   a call around the tests fails, and then nonzero exactly when a page is bad.
   */
  method RunRampagePages(pages: seq<MemoryPage>, base: Word, words: nat, kind: int, page: int, mask: Word,
                         draws: seq<seq<seq<Word>>>, io: Io)
    returns (exitCode: bv8, text: string, ghost bad: seq<nat>, ghost address: bool, ghost other: bool)
    requires Mapping(pages, base, words) && 0 <= kind <= 7
    modifies set k | 0 <= k < |pages| :: pages[k].cells
    ensures !io.mapped || !io.resultOpen ==> exitCode == FAIL_NONSTARTER && text == ""
    ensures io.mapped && io.resultOpen ==>
      && Outcome(pages, |pages|, kind, page, mask, bad, address, other)
      && OtherOutcome(pages, |pages|, kind, page, mask, draws, bad, other)
      && exitCode == ExitCode(address, other, !io.Fine())
      && text == Written(Report.Print(|pages|, bad), io)
  {
    hide Outcome, OtherOutcome, ExitCode, Mapping;
    if !io.mapped || !io.resultOpen {
      return FAIL_NONSTARTER, "", [], false, false;
    }
    var report;
    exitCode, report, bad, address, other := TestPages(pages, base, words, kind, page, mask, draws);
    report := report + Report.END + "\n";
    LastLine(|pages|, bad);
    ExitCodes(address, other, false);
    if !io.flushed || !io.closed || !io.unmapped {
      exitCode := exitCode | FAIL_NONSTARTER;
    }
    text := Written(report, io);
  }

  /** The loop over the pages: the report up to its last line. */
  method TestPages(pages: seq<MemoryPage>, base: Word, words: nat, kind: int, page: int, mask: Word,
                   draws: seq<seq<seq<Word>>>)
    returns (exitCode: bv8, report: string, ghost bad: seq<nat>, ghost address: bool, ghost other: bool)
    requires Mapping(pages, base, words) && 0 <= kind <= 7
    modifies set k | 0 <= k < |pages| :: pages[k].cells
    ensures Outcome(pages, |pages|, kind, page, mask, bad, address, other)
    ensures OtherOutcome(pages, |pages|, kind, page, mask, draws, bad, other)
    ensures exitCode == ExitCode(address, other, false)
    ensures report == Report.Join(Report.Body(|pages|, bad))
  {
    hide Outcome, OtherOutcome, FailsOther, FindsUnlike, StartsFresh, SomeFails, SomeUnlike, Report.Batch, ExitCode, FailsAddress, IsBad, HasTest, InSpace, Address, Report.Join, Report.Body, Report.BadLine;
    bad, address, other := [], false, false;
    exitCode, report := 0, Report.Header(|pages|) + "\n";
    NoFailure(pages, kind, page, mask);
    NoOther(pages, kind, page, mask, draws);
    FirstLine(|pages|);
    var k := 0;
    while k < |pages|
      invariant 0 <= k <= |pages|
      invariant Outcome(pages, k, kind, page, mask, bad, address, other)
      invariant OtherOutcome(pages, k, kind, page, mask, draws, bad, other) && Report.Batch(k, bad)
      invariant exitCode == ExitCode(address, other, false)
      invariant report == Report.Join(Report.Body(|pages|, bad))
    {
      var a, o := RunPage(pages, base, words, k, kind, page, mask, PageDraws(draws, k));
      OtherMeans(pages, kind, page, mask, draws, k);
      exitCode := AddFailures(exitCode, a, o, address, other);
      if a || o {
        report := report + Report.BadLine(k) + "\n";
        NextLine(|pages|, bad, k);
      }
      OtherGrows(pages, k, kind, page, mask, draws, bad, other, a, o);
      BatchGrows(k, bad, a || o);
      OutcomeGrows(pages, k, kind, page, mask, bad, address, other, a, o);
      bad, address, other := if a || o then bad + [k] else bad, address || a, other || o;
      k := k + 1;
    }
  }

  method AddFailures(exitCode: bv8, a: bool, o: bool, ghost address: bool, ghost other: bool) returns (code: bv8)
    requires exitCode == ExitCode(address, other, false)
    ensures code == ExitCode(address || a, other || o, false)
  {
    hide ExitCode;
    ExitCodes(address, other, false);
    ExitCodes(address || a, other, false);
    code := exitCode;
    if a {
      code := code | FAIL_ADDRESSLINES;
    }
    if o {
      code := code | FAIL_OTHERTEST;
    }
  }

  lemma NoFailure(pages: seq<MemoryPage>, kind: int, page: int, mask: Word)
    requires forall k :: 0 <= k < |pages| ==> pages[k].Valid()
    ensures Outcome(pages, 0, kind, page, mask, [], false, false) && ExitCode(false, false, false) == 0
  {
  }

  lemma FirstLine(pageCount: nat)
    ensures Report.Join(Report.Body(pageCount, [])) == Report.Header(pageCount) + "\n"
  {
    var lines := Report.Body(pageCount, []);
    assert lines[..0] == [];
  }

  lemma NextLine(pageCount: nat, bad: seq<nat>, k: nat)
    ensures Report.Join(Report.Body(pageCount, bad + [k])) == Report.Join(Report.Body(pageCount, bad)) + Report.BadLine(k) + "\n"
  {
    assert (bad + [k])[..|bad|] == bad;
    var lines := Report.Body(pageCount, bad + [k]);
    assert lines[..|lines| - 1] == Report.Body(pageCount, bad);
  }

  lemma LastLine(pageCount: nat, bad: seq<nat>)
    ensures Report.Print(pageCount, bad) == Report.Join(Report.Body(pageCount, bad)) + Report.END + "\n"
  {
    var lines := Report.Body(pageCount, bad) + [Report.END];
    assert lines[..|lines| - 1] == Report.Body(pageCount, bad);
  }
}
