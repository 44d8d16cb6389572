/**
 The tests of memtester, run on one page. `count` is always the number of words of the page
 (stuck address) or of half of it (the comparisons), so it is taken from the page itself.
 */
module MemTests {
  import opened FaultModel

  /** Which words the `-i`/`-c` switches flip: `first` is the byte offset of the page in the mapping. */
  datatype Injection = Injection(kind: int, page: int, first: nat, pageSize: nat) {
    ghost predicate Valid() {
      pageSize > 0
    }

    predicate On(k: int) {
      kind == k && page >= 0
    }

    predicate Hits(k: int, i: nat)
      requires Valid()
    {
      On(k) && (first + 8 * i) / pageSize == page
    }
  }

  /** The address of the word `i` after `base`. */
  function Address(base: Word, i: nat): Word {
    if i == 0 then base else Next(Address(base, i - 1))
  }

  /** `n` words starting at a word-aligned address do not run past the end of the address space. */
  ghost predicate InSpace(base: Word, n: nat) {
    Aligned(base) && forall i :: 0 < i < n ==> Below(Address(base, i - 1), Address(base, i))
  }

  function Expected(base: Word, j: nat, i: nat): Word {
    if (j + i) % 2 == 0 then Address(base, i) else Complement(Address(base, i))
  }

  /** The words lie eight bytes apart, from the base on. */
  lemma AddressesAre(base: Word, i: nat)
    ensures Address(base, 0) == base && Address(base, i + 1) == Address(base, i) + 8
  {
    hide Next;
    NextIs(Address(base, i));
  }

  lemma {:induction false} AddressAligned(base: Word, i: nat)
    requires Aligned(base)
    ensures Aligned(Address(base, i))
  {
    hide Aligned, Next;
    if i > 0 {
      AddressAligned(base, i - 1);
      NextAligned(Address(base, i - 1));
    }
  }

  lemma {:induction false} AddressAscends(base: Word, n: nat, i: nat, k: nat)
    requires InSpace(base, n) && i < k < n
    ensures Below(Address(base, i), Address(base, k))
    decreases k
  {
    hide Aligned, Next, Below;
    assert Below(Address(base, k - 1), Address(base, k));
    if i < k - 1 {
      AddressAscends(base, n, i, k - 1);
      BelowTransitive(Address(base, i), Address(base, k - 1), Address(base, k));
    }
  }

  /** No two words of a page are ever expected to hold the same value, complemented or not. */
  lemma ExpectedDiffers(base: Word, n: nat, j: nat, i: nat, k: nat)
    requires InSpace(base, n) && i < k < n
    ensures Expected(base, j, i) != Expected(base, j, k)
  {
    hide Aligned, Next, Below, Complement;
    AddressAscends(base, n, i, k);
    BelowIrreflexive(Address(base, i));
    AddressAligned(base, i);
    AddressAligned(base, k);
    AlignedNotComplement(Address(base, i), Address(base, k));
    ComplementInjective(Address(base, i), Address(base, k));
  }

  // ---- Stuck address ----

  /** Word for word, what the round `j` reads back is what it expects. */
  ghost predicate RoundHolds(p: MemoryPage, base: Word, inj: Injection, j: nat)
    requires p.Valid() && inj.Valid()
  {
    forall i :: 0 <= i < p.Words() ==> Landed(inj.Hits(1, i), p.FaultAt(i), Expected(base, j, i)) == Expected(base, j, i)
  }

  method FillAddresses(p: MemoryPage, base: Word, j: nat)
    requires p.Valid()
    modifies p.cells
    ensures p.Injective() ==> forall i :: 0 <= i < p.Words() ==> p.cells[p.decode[i]] == Expected(base, j, i)
  {
    hide Stick, FlipLow, Complement, Next, Aligned, Below, Sound;
    var p1, i := base, 0;
    while i < p.Words()
      invariant 0 <= i <= p.Words()
      invariant p1 == Address(base, i)
      invariant p.Injective() ==> forall k :: 0 <= k < i ==> p.cells[p.decode[k]] == Expected(base, j, k)
    {
      p.Write(i, if (j + i) % 2 == 0 then p1 else Complement(p1));
      p1 := Next(p1);
      i := i + 1;
    }
  }

  /** The injection loop: flips the lowest bit of each word among the first `n` that the switches hit. */
  method FlipHits(p: MemoryPage, inj: Injection, k: int, n: nat)
    requires p.Valid() && inj.Valid() && n <= p.Words()
    modifies p.cells
    ensures p.Injective() ==> forall i :: 0 <= i < p.Words() ==>
      p.cells[p.decode[i]] == if i < n && inj.Hits(k, i) then FlipLow(old(p.Read(i))) else old(p.cells[p.decode[i]])
    ensures (forall i :: 0 <= i < n ==> !inj.Hits(k, i)) ==> p.cells[..] == old(p.cells[..])
  {
    hide Stick, FlipLow, Complement, Next, Aligned, Below, Sound;
    if inj.On(k) {
      var i := 0;
      while i < n
        invariant 0 <= i <= n
        invariant (forall m :: 0 <= m < n ==> !inj.Hits(k, m)) ==> p.cells[..] == old(p.cells[..])
        invariant p.Injective() ==> forall m :: 0 <= m < p.Words() ==>
          p.cells[p.decode[m]] == if m < i && inj.Hits(k, m) then FlipLow(old(p.Read(m))) else old(p.cells[p.decode[m]])
      {
        if (inj.first + 8 * i) / inj.pageSize == inj.page {
          assert inj.Hits(k, i);
          p.Write(i, FlipLow(p.Read(i)));
        }
        i := i + 1;
      }
    }
  }

  method CheckAddresses(p: MemoryPage, base: Word, j: nat) returns (r: int)
    requires p.Valid()
    ensures r == 0 || r == -1
    ensures r == 0 <==> forall i :: 0 <= i < p.Words() ==> p.Read(i) == Expected(base, j, i)
  {
    hide Stick, FlipLow, Complement, Next, Aligned, Below, Sound;
    var p1, i := base, 0;
    while i < p.Words()
      invariant 0 <= i <= p.Words()
      invariant p1 == Address(base, i)
      invariant forall k :: 0 <= k < i ==> p.Read(k) == Expected(base, j, k)
    {
      if p.Read(i) != if (j + i) % 2 == 0 then p1 else Complement(p1) {
        return -1;
      }
      p1 := Next(p1);
      i := i + 1;
    }
    return 0;
  }

  /** Reading back every expected value rules out shared cells. */
  lemma ReadsBackInjective(p: MemoryPage, base: Word, j: nat)
    requires p.Valid() && InSpace(base, p.Words())
    requires forall i :: 0 <= i < p.Words() ==> p.Read(i) == Expected(base, j, i)
    ensures p.Injective()
  {
    hide Stick, FlipLow, Complement, Next, Aligned, Below, Sound;
    forall i, k | 0 <= i < k < p.Words()
      ensures p.decode[i] != p.decode[k]
    {
      ExpectedDiffers(base, p.Words(), j, i, k);
      assert p.Read(i) == Expected(base, j, i) && p.Read(k) == Expected(base, j, k);
    }
  }

  method AddressRound(p: MemoryPage, base: Word, j: nat, inj: Injection) returns (r: int)
    requires p.Valid() && inj.Valid() && InSpace(base, p.Words())
    modifies p.cells
    ensures r == 0 || r == -1
    ensures r == 0 <==> p.Injective() && RoundHolds(p, base, inj, j)
  {
    hide Stick, FlipLow, Complement, Next, Aligned, Below, Sound;
    FillAddresses(p, base, j);
    FlipHits(p, inj, 1, p.Words());
    r := CheckAddresses(p, base, j);
    if r == 0 {
      ReadsBackInjective(p, base, j);
    }
  }

  /** Sixteen rounds hold exactly on a healthy page none of whose words is flipped. */
  lemma RoundsHold(p: MemoryPage, base: Word, inj: Injection)
    requires p.Valid() && inj.Valid()
    ensures (forall j :: 0 <= j < 16 ==> RoundHolds(p, base, inj, j))
       <==> forall i :: 0 <= i < p.Words() ==> Sound(p.FaultAt(i)) && !inj.Hits(1, i)
  {
    hide Stick, FlipLow, Complement, Next, Aligned, Below, Sound;
    if forall j :: 0 <= j < 16 ==> RoundHolds(p, base, inj, j) {
      assert RoundHolds(p, base, inj, 0) && RoundHolds(p, base, inj, 1);
      forall i | 0 <= i < p.Words()
        ensures Sound(p.FaultAt(i)) && !inj.Hits(1, i)
      {
        var v := Expected(base, 0, i);
        ComplementInjective(Address(base, i), v);
        assert Expected(base, 1, i) == Complement(v);
        KeepsBoth(inj.Hits(1, i), p.FaultAt(i), v);
      }
    }
    if forall i :: 0 <= i < p.Words() ==> Sound(p.FaultAt(i)) && !inj.Hits(1, i) {
      forall j, i | 0 <= j < 16 && 0 <= i < p.Words()
        ensures Landed(inj.Hits(1, i), p.FaultAt(i), Expected(base, j, i)) == Expected(base, j, i)
      {
        SoundLands(inj.Hits(1, i), p.FaultAt(i), Expected(base, j, i));
      }
    }
  }

  /** Fails exactly when the page is unhealthy (in either way, or both) or a word of it is flipped. */
  method TestStuckAddress(p: MemoryPage, base: Word, inj: Injection) returns (r: int)
    requires p.Valid() && inj.Valid() && InSpace(base, p.Words())
    modifies p.cells
    ensures r == 0 || r == -1
    ensures r == 0 <==> p.Healthy() && forall i :: 0 <= i < p.Words() ==> !inj.Hits(1, i)
  {
    hide Stick, FlipLow, Complement, Next, Aligned, Below, Sound;
    var j := 0;
    while j < 16
      invariant 0 <= j <= 16
      invariant j > 0 ==> p.Injective()
      invariant forall k :: 0 <= k < j ==> RoundHolds(p, base, inj, k)
    {
      r := AddressRound(p, base, j, inj);
      if r != 0 {
        RoundsHold(p, base, inj);
        return -1;
      }
      j := j + 1;
    }
    RoundsHold(p, base, inj);
    return 0;
  }

  // ---- Comparisons of the two halves ----

  method CompareRegions(p: MemoryPage) returns (r: int)
    requires p.Valid()
    ensures r == 0 || r == -1
    ensures r == 0 <==> p.HalvesRead()
  {
    hide Stick, FlipLow, Complement, Next, Aligned, Below, Sound;
    r := 0;
    var i := 0;
    while i < p.Half()
      invariant 0 <= i <= p.Half()
      invariant r == 0 || r == -1
      invariant r == 0 <==> forall k :: 0 <= k < i ==> p.Read(k) == p.Read(p.Half() + k)
    {
      if p.Read(i) != p.Read(p.Half() + i) {
        r := -1;
      }
      i := i + 1;
    }
  }

  /** The word `i` of the first half, written `v` and possibly flipped, reads like its twin written `w`. */
  ghost predicate Agrees(p: MemoryPage, inj: Injection, k: int, i: nat, v: Word, w: Word)
    requires p.Valid() && inj.Valid() && i < p.Half()
  {
    Landed(inj.Hits(k, i), p.FaultAt(i), v) == Stick(p.FaultAt(p.Half() + i), w)
  }

  /** The values the comparison tests write: the same ones, round by round, to both halves. */
  datatype Pattern =
    | Drawn(draws: seq<Word>, stride: nat)
    | SequentialIncrement(start: Word)
    | SolidBits
    | BlockSequential
    | Checkerboard
    | BitSpread(values: seq<Word>)
    | BitFlip
    | WalkingOnes
    | WalkingZeroes

  const CHECKERBOARD1: Word := 0x5555_5555_5555_5555
  const CHECKERBOARD2: Word := 0xAAAA_AAAA_AAAA_AAAA

  /** The `n`-th value drawn from a random sequence. */
  function Draw(draws: seq<Word>, n: nat): Word {
    if n < |draws| then draws[n] else 0
  }

  /** `ONE << j`, by doubling; 0 from 64 on. */
  function Bit(j: nat): Word {
    if j == 0 then 1 else Bit(j - 1) << 1
  }

  /** The number `n` as a word, by counting up. */
  function Count(start: Word, n: nat): Word {
    if n == 0 then start else Count(start, n - 1) + 1
  }

  /** The byte `b` in all eight bytes of a word. */
  function Bytes(b: Word): Word {
    b | (b << 8) | (b << 16) | (b << 24) | (b << 32) | (b << 40) | (b << 48) | (b << 56)
  }

  /** `j` bits up from bit 0 for 64 rounds, then back down. */
  function Walk(j: nat): Word {
    if j < 64 then Bit(j) else if j < 128 then Bit(127 - j) else 0
  }

  function Alternate(v: Word, i: nat): Word {
    if i % 2 == 0 then v else Complement(v)
  }

  function Value(pattern: Pattern, j: nat, i: nat): Word {
    match pattern
    case Drawn(draws, stride) => Draw(draws, j * stride + i)
    case SequentialIncrement(start) => Count(start, i)
    case SolidBits => Alternate(if j % 2 == 0 then ONES else 0, i)
    case BlockSequential => Bytes(Count(0, j))
    case Checkerboard => Alternate(if j % 2 == 0 then CHECKERBOARD1 else CHECKERBOARD2, i)
    case BitSpread(values) => Alternate(Draw(values, j), i)
    case BitFlip => Alternate(if j % 2 == 0 then Complement(Bit(j / 8)) else Bit(j / 8), i)
    case WalkingOnes => ONES ^ Walk(j)
    case WalkingZeroes => Walk(j)
  }

  ghost predicate RoundAgrees(p: MemoryPage, inj: Injection, k: int, pattern: Pattern, j: nat)
    requires p.Valid() && inj.Valid()
  {
    forall i :: 0 <= i < p.Half() ==> Agrees(p, inj, k, i, Value(pattern, j, i), Value(pattern, j, i))
  }

  /** The last of the first `n` columns that has a word in cell `c`: its value is the one that stays. */
  function LastColumn(p: MemoryPage, c: nat, n: nat): nat
    requires p.Valid() && n <= p.Half()
  {
    if n == 0 then 0
    else if p.decode[n - 1] == c || p.decode[p.Half() + n - 1] == c then n - 1
    else LastColumn(p, c, n - 1)
  }

  lemma ColumnNext(p: MemoryPage, c: nat, n: nat)
    requires p.Valid() && n < p.Half()
    ensures LastColumn(p, c, n + 1) == if p.decode[n] == c || p.decode[p.Half() + n] == c then n else LastColumn(p, c, n)
  {
  }

  /** Of the first `n` columns no later one has a word in the cell. */
  lemma {:induction false} LastColumnIs(p: MemoryPage, c: nat, n: nat, k: nat)
    requires p.Valid() && k < n <= p.Half() && (p.decode[k] == c || p.decode[p.Half() + k] == c)
    ensures k <= LastColumn(p, c, n) < n
    ensures p.decode[LastColumn(p, c, n)] == c || p.decode[p.Half() + LastColumn(p, c, n)] == c
  {
    if p.decode[n - 1] != c && p.decode[p.Half() + n - 1] != c {
      LastColumnIs(p, c, n - 1, k);
    }
  }

  /** So what stays in a word is the value of the last column that reaches its cell, its own or a later one. */
  lemma SourceIs(p: MemoryPage, m: nat, k: nat)
    requires p.Valid() && m < p.Words() && k < p.Half()
    ensures p.Column(m) <= Source(p, m) < p.Half()
    ensures p.decode[m] == p.decode[Source(p, m)] || p.decode[m] == p.decode[p.Half() + Source(p, m)]
    ensures p.decode[k] == p.decode[m] || p.decode[p.Half() + k] == p.decode[m] ==> k <= Source(p, m)
  {
    hide LastColumn;
    LastColumnIs(p, p.decode[m], p.Half(), p.Column(m));
    if p.decode[k] == p.decode[m] || p.decode[p.Half() + k] == p.decode[m] {
      LastColumnIs(p, p.decode[m], p.Half(), k);
    }
  }

  /** Where no two words share a cell, that is the word's own column. */
  lemma {:induction false} OwnColumn(p: MemoryPage, m: nat, n: nat)
    requires p.Valid() && p.Injective() && m < p.Words() && p.Column(m) < n <= p.Half()
    ensures LastColumn(p, p.decode[m], n) == p.Column(m)
  {
    if p.Column(m) < n - 1 {
      OwnColumn(p, m, n - 1);
    }
  }

  /** The column whose value the word `m` ends up with. */
  function Source(p: MemoryPage, m: nat): nat
    requires p.Valid() && m < p.Words()
  {
    LastColumn(p, p.decode[m], p.Half())
  }

  method FillHalves(p: MemoryPage, pattern: Pattern, j: nat)
    requires p.Valid()
    modifies p.cells
    ensures forall m :: 0 <= m < p.Words() ==> p.cells[p.decode[m]] == Value(pattern, j, Source(p, m))
    ensures p.Injective() ==> forall m :: 0 <= m < p.Words() ==> p.cells[p.decode[m]] == Value(pattern, j, p.Column(m))
  {
    hide Value, Stick, LastColumn, MemoryPage.Read;
    var i := 0;
    while i < p.Half()
      invariant 0 <= i <= p.Half()
      invariant forall m :: 0 <= m < p.Words() && p.Column(m) < i ==>
        p.cells[p.decode[m]] == Value(pattern, j, LastColumn(p, p.decode[m], i))
    {
      p.Write(p.Half() + i, Value(pattern, j, i));
      p.Write(i, Value(pattern, j, i));
      forall m | 0 <= m < p.Words() && p.Column(m) < i + 1
        ensures p.cells[p.decode[m]] == Value(pattern, j, LastColumn(p, p.decode[m], i + 1))
      {
        ColumnNext(p, p.decode[m], i);
      }
      i := i + 1;
    }
    forall m | 0 <= m < p.Words() && p.Injective()
      ensures LastColumn(p, p.decode[m], p.Half()) == p.Column(m)
    {
      OwnColumn(p, m, p.Half());
    }
  }

  /** With nothing flipped: in round `j` every word reads like its twin, each after the last value that reached its cell. */
  ghost predicate RoundReads(p: MemoryPage, pattern: Pattern, j: nat)
    requires p.Valid()
  {
    forall i :: 0 <= i < p.Half() ==> TwinsRead(p, pattern, j, i)
  }

  ghost predicate TwinsRead(p: MemoryPage, pattern: Pattern, j: nat, i: nat)
    requires p.Valid() && i < p.Half()
  {
    Stick(p.FaultAt(i), Value(pattern, j, Source(p, i)))
    == Stick(p.FaultAt(p.Half() + i), Value(pattern, j, Source(p, p.Half() + i)))
  }

  method PatternRound(p: MemoryPage, pattern: Pattern, j: nat, inj: Injection, k: int) returns (r: int)
    requires p.Valid() && inj.Valid()
    modifies p.cells
    ensures r == 0 || r == -1
    ensures p.Injective() ==> (r == 0 <==> RoundAgrees(p, inj, k, pattern, j))
    ensures Unflipped(p, inj, k) ==> (r == 0 <==> RoundReads(p, pattern, j))
  {
    hide Stick, FlipLow, Value, RoundAgrees, Source, RoundReads, MemoryPage.HalvesRead;
    FillHalves(p, pattern, j);
    FlipHits(p, inj, k, p.Half());
    r := CompareHalves(p, inj, k, pattern, j);
    if Unflipped(p, inj, k) {
      ReadsTwins(p, pattern, j);
    }
  }

  lemma ReadsTwins(p: MemoryPage, pattern: Pattern, j: nat)
    requires p.Valid() && forall m :: 0 <= m < p.Words() ==> p.cells[p.decode[m]] == Value(pattern, j, Source(p, m))
    ensures p.HalvesRead() <==> RoundReads(p, pattern, j)
  {
    hide Stick, Value, Source;
    if p.HalvesRead() {
      forall i | 0 <= i < p.Half()
        ensures TwinsRead(p, pattern, j, i)
      {
        assert p.Read(i) == p.Read(p.Half() + i);
      }
    }
    if RoundReads(p, pattern, j) {
      forall i | 0 <= i < p.Half()
        ensures p.Read(i) == p.Read(p.Half() + i)
      {
        assert TwinsRead(p, pattern, j, i);
      }
    }
  }

  /** The comparison that ends a round, once both halves hold the pattern and the flips are done. */
  method CompareHalves(p: MemoryPage, inj: Injection, k: int, ghost pattern: Pattern, ghost j: nat) returns (r: int)
    requires p.Valid() && inj.Valid()
    requires p.Injective() ==> forall i :: 0 <= i < p.Half() ==>
      && p.Read(i) == Landed(inj.Hits(k, i), p.FaultAt(i), Value(pattern, j, i))
      && p.Read(p.Half() + i) == Stick(p.FaultAt(p.Half() + i), Value(pattern, j, i))
    ensures r == 0 || r == -1
    ensures p.Injective() ==> (r == 0 <==> RoundAgrees(p, inj, k, pattern, j))
    ensures r == 0 <==> p.HalvesRead()
  {
    hide Stick, FlipLow, Value;
    r := CompareRegions(p);
    if p.Injective() && r == 0 {
      forall i | 0 <= i < p.Half()
        ensures Agrees(p, inj, k, i, Value(pattern, j, i), Value(pattern, j, i))
      {
        assert p.Read(i) == p.Read(p.Half() + i);
      }
    }
  }

  /** The loop shared by the tests that write the same values to both halves and compare. */
  method PatternTest(p: MemoryPage, rounds: nat, pattern: Pattern, inj: Injection, k: int) returns (r: int)
    requires p.Valid() && inj.Valid()
    modifies p.cells
    ensures r == 0 || r == -1
    ensures p.Injective() ==> (r == 0 <==> forall j :: 0 <= j < rounds ==> RoundAgrees(p, inj, k, pattern, j))
    ensures Unflipped(p, inj, k) ==> (r == 0 <==> forall j :: 0 <= j < rounds ==> RoundReads(p, pattern, j))
  {
    var j := 0;
    while j < rounds
      invariant 0 <= j <= rounds
      invariant p.Injective() ==> forall m :: 0 <= m < j ==> RoundAgrees(p, inj, k, pattern, m)
      invariant Unflipped(p, inj, k) ==> forall m :: 0 <= m < j ==> RoundReads(p, pattern, m)
    {
      hide *;
      r := PatternRound(p, pattern, j, inj, k);
      if r != 0 {
        return -1;
      }
      j := j + 1;
    }
    return 0;
  }

  /** On a healthy page the twins agree on a value exactly where nothing is flipped. */
  lemma HealthyAgrees(p: MemoryPage, inj: Injection, k: int, i: nat, v: Word)
    requires p.Valid() && inj.Valid() && i < p.Half() && p.Healthy()
    ensures Agrees(p, inj, k, i, v, v) <==> !inj.Hits(k, i)
  {
    hide Stick, FlipLow, Sound;
    SoundLands(inj.Hits(k, i), p.FaultAt(i), v);
    StickAlike(p.FaultAt(p.Half() + i), p.FaultAt(i), v);
  }

  /** No word of the first half is flipped. */
  ghost predicate Unflipped(p: MemoryPage, inj: Injection, k: int)
    requires inj.Valid()
  {
    forall i :: 0 <= i < p.Half() ==> !inj.Hits(k, i)
  }

  lemma HealthyRounds(p: MemoryPage, rounds: nat, pattern: Pattern, inj: Injection, k: int)
    requires p.Valid() && inj.Valid() && p.Healthy() && rounds > 0
    ensures (forall j :: 0 <= j < rounds ==> RoundAgrees(p, inj, k, pattern, j)) <==> Unflipped(p, inj, k)
  {
    hide Stick, FlipLow, Sound, Value;
    forall j, i | 0 <= j < rounds && 0 <= i < p.Half()
      ensures Agrees(p, inj, k, i, Value(pattern, j, i), Value(pattern, j, i)) <==> !inj.Hits(k, i)
    {
      HealthyAgrees(p, inj, k, i, Value(pattern, j, i));
    }
    if forall j :: 0 <= j < rounds ==> RoundAgrees(p, inj, k, pattern, j) {
      assert RoundAgrees(p, inj, k, pattern, 0);
      forall i | 0 <= i < p.Half()
        ensures !inj.Hits(k, i)
      {
        assert Agrees(p, inj, k, i, Value(pattern, 0, i), Value(pattern, 0, i));
      }
    }
  }

  // ---- Arithmetic on what the halves hold ----

  datatype Operation = Xor | Sub | Mul | Div | Or | And

  function Apply(op: Operation, x: Word, q: Word): Word {
    match op
    case Xor => Exclusive(x, q)
    case Sub => Minus(x, q)
    case Mul => Times(x, q)
    case Div => DividedBy(x, q)
    case Or => Either(x, q)
    case And => Both(x, q)
  }

  method CombineHalves(p: MemoryPage, op: Operation, q: Word)
    requires p.Valid()
    modifies p.cells
    ensures p.Injective() ==> forall m :: 0 <= m < p.Words() ==> p.cells[p.decode[m]] == Apply(op, old(p.Read(m)), q)
  {
    hide Stick, Apply;
    var i := 0;
    while i < p.Half()
      invariant 0 <= i <= p.Half()
      invariant p.Injective() ==> forall m :: 0 <= m < p.Words() ==>
        p.cells[p.decode[m]] == if p.Column(m) < i then Apply(op, old(p.Read(m)), q) else old(p.cells[p.decode[m]])
    {
      p.Write(i, Apply(op, p.Read(i), q));
      p.Write(p.Half() + i, Apply(op, p.Read(p.Half() + i), q));
      i := i + 1;
    }
  }

  /** The twins agree after the operation, given what the page held before it. */
  ghost predicate CombinedAgrees(p: MemoryPage, inj: Injection, k: int, op: Operation, q: Word, held: seq<Word>)
    requires p.Valid() && inj.Valid() && |held| == p.Words()
  {
    forall i :: 0 <= i < p.Half() ==> Agrees(p, inj, k, i, Apply(op, held[i], q), Apply(op, held[p.Half() + i], q))
  }

  /** Compares the results of the same operation on what the two halves held before. */
  method CombineTest(p: MemoryPage, op: Operation, q: Word, inj: Injection, k: int) returns (r: int)
    requires p.Valid() && inj.Valid()
    modifies p.cells
    ensures r == 0 || r == -1
    ensures p.Injective() ==> (r == 0 <==> CombinedAgrees(p, inj, k, op, q, old(p.Contents())))
  {
    hide Stick, FlipLow, Apply;
    ghost var held := p.Contents();
    CombineHalves(p, op, q);
    FlipHits(p, inj, k, p.Half());
    r := CompareCombined(p, inj, k, op, q, held);
  }

  method CompareCombined(p: MemoryPage, inj: Injection, k: int, op: Operation, q: Word, ghost held: seq<Word>)
    returns (r: int)
    requires p.Valid() && inj.Valid() && |held| == p.Words()
    requires p.Injective() ==> forall m :: 0 <= m < p.Words() ==>
      p.Read(m) == Landed(m < p.Half() && inj.Hits(k, m), p.FaultAt(m), Apply(op, held[m], q))
    ensures r == 0 || r == -1
    ensures p.Injective() ==> (r == 0 <==> CombinedAgrees(p, inj, k, op, q, held))
  {
    hide Stick, FlipLow, Apply;
    r := CompareRegions(p);
    if p.Injective() && r == 0 {
      forall i | 0 <= i < p.Half()
        ensures Agrees(p, inj, k, i, Apply(op, held[i], q), Apply(op, held[p.Half() + i], q))
      {
        assert p.Read(i) == p.Read(p.Half() + i);
      }
    }
  }

  /** On a healthy page whose halves hold the same, the operation keeps them the same. */
  lemma HealthyCombines(p: MemoryPage, inj: Injection, k: int, op: Operation, q: Word, held: seq<Word>)
    requires p.Valid() && inj.Valid() && p.Healthy() && |held| == p.Words()
    requires forall i :: 0 <= i < p.Half() ==> held[i] == held[p.Half() + i]
    ensures CombinedAgrees(p, inj, k, op, q, held) <==> Unflipped(p, inj, k)
  {
    hide Stick, FlipLow, Sound, Apply;
    forall i | 0 <= i < p.Half()
      ensures Agrees(p, inj, k, i, Apply(op, held[i], q), Apply(op, held[p.Half() + i], q)) <==> !inj.Hits(k, i)
    {
      HealthyAgrees(p, inj, k, i, Apply(op, held[i], q));
    }
    if CombinedAgrees(p, inj, k, op, q, held) {
      forall i | 0 <= i < p.Half()
        ensures !inj.Hits(k, i)
      {
        assert Agrees(p, inj, k, i, Apply(op, held[i], q), Apply(op, held[p.Half() + i], q));
      }
    }
  }

  // ---- Narrow writes ----

  const BYTE_MASKS: seq<Word> := [
    0xFF, 0xFF00, 0xFF_0000, 0xFF00_0000,
    0xFF_0000_0000, 0xFF00_0000_0000, 0xFF_0000_0000_0000, 0xFF00_0000_0000_0000]

  const SHORT_MASKS: seq<Word> := [0xFFFF, 0xFFFF_0000, 0xFFFF_0000_0000, 0xFFFF_0000_0000_0000]

  /** The bits covered by the first `n` masks. */
  function Covered(masks: seq<Word>, n: nat): Word
    requires n <= |masks|
  {
    if n == 0 then 0 else Union(Covered(masks, n - 1), masks[n - 1])
  }

  lemma {:induction false} MasksCover()
    ensures Covered(BYTE_MASKS, 8) == ONES && Covered(SHORT_MASKS, 4) == ONES
  {
    assert Covered(BYTE_MASKS, 2) == 0xFFFF;
    assert Covered(BYTE_MASKS, 4) == 0xFFFF_FFFF;
    assert Covered(BYTE_MASKS, 6) == 0xFFFF_FFFF_FFFF;
    assert Covered(SHORT_MASKS, 2) == 0xFFFF_FFFF;
  }

  /** Eight single bytes, and four pairs of bytes, from the lowest up. */
  lemma MasksAre(i: nat)
    ensures |BYTE_MASKS| == 8 && BYTE_MASKS[0] == 0xFF && (i < 7 ==> BYTE_MASKS[i + 1] == BYTE_MASKS[i] << 8)
    ensures |SHORT_MASKS| == 4 && SHORT_MASKS[0] == 0xFFFF && (i < 3 ==> SHORT_MASKS[i + 1] == SHORT_MASKS[i] << 16)
  {
    if i < 7 {
      assert i == 0 || i == 1 || i == 2 || i == 3 || i == 4 || i == 5 || i == 6;
    }
  }

  /** Storing a word piece by piece stores the word. */
  method StorePieces(p: MemoryPage, i: nat, v: Word, masks: seq<Word>)
    requires p.Valid() && i < p.Words() && Covered(masks, |masks|) == ONES
    modifies p.cells
    ensures p.cells[..] == old(p.cells[..])[p.decode[i] := v]
  {
    hide Merge, SameUnder, Union;
    var b := 0;
    SameUnderEnds(p.cells[p.decode[i]], v);
    while b < |masks|
      invariant 0 <= b <= |masks|
      invariant p.cells[..] == old(p.cells[..])[p.decode[i] := p.cells[p.decode[i]]]
      invariant SameUnder(p.cells[p.decode[i]], v, Covered(masks, b))
    {
      MergeSame(p.cells[p.decode[i]], v, Covered(masks, b), masks[b]);
      p.WriteNarrow(i, v, masks[b]);
      b := b + 1;
    }
    SameUnderEnds(p.cells[p.decode[i]], v);
  }

  /** One attempt: one half is written in words, the other one in pieces of the same words. */
  method FillPieces(p: MemoryPage, masks: seq<Word>, draws: seq<Word>, attempt: nat)
    requires p.Valid() && Covered(masks, |masks|) == ONES
    modifies p.cells
    ensures p.Injective() ==> forall m :: 0 <= m < p.Words() ==>
      p.cells[p.decode[m]] == Value(Drawn(draws, p.Half()), attempt, p.Column(m))
  {
    hide Covered, Value;
    var words, pieces := 0, p.Half();
    if attempt % 2 == 1 {
      words, pieces := p.Half(), 0;
    }
    var i := 0;
    while i < p.Half()
      invariant 0 <= i <= p.Half()
      invariant p.Injective() ==> forall m :: 0 <= m < p.Words() && p.Column(m) < i ==>
        p.cells[p.decode[m]] == Value(Drawn(draws, p.Half()), attempt, p.Column(m))
    {
      var v := Value(Drawn(draws, p.Half()), attempt, i);
      p.Write(words + i, v);
      StorePieces(p, pieces + i, v, masks);
      i := i + 1;
    }
  }

  method NarrowTest(p: MemoryPage, masks: seq<Word>, draws: seq<Word>, inj: Injection, k: int) returns (r: int)
    requires p.Valid() && inj.Valid() && Covered(masks, |masks|) == ONES
    modifies p.cells
    ensures r == 0 || r == -1
    ensures p.Injective() ==> (r == 0 <==> forall j :: 0 <= j < 2 ==> RoundAgrees(p, inj, k, Drawn(draws, p.Half()), j))
  {
    var attempt := 0;
    while attempt < 2
      invariant 0 <= attempt <= 2
      invariant p.Injective() ==> forall m :: 0 <= m < attempt ==> RoundAgrees(p, inj, k, Drawn(draws, p.Half()), m)
    {
      hide *;
      r := NarrowRound(p, masks, draws, attempt, inj, k);
      if r != 0 {
        return -1;
      }
      attempt := attempt + 1;
    }
    return 0;
  }

  method NarrowRound(p: MemoryPage, masks: seq<Word>, draws: seq<Word>, attempt: nat, inj: Injection, k: int)
    returns (r: int)
    requires p.Valid() && inj.Valid() && Covered(masks, |masks|) == ONES
    modifies p.cells
    ensures r == 0 || r == -1
    ensures p.Injective() ==> (r == 0 <==> RoundAgrees(p, inj, k, Drawn(draws, p.Half()), attempt))
  {
    hide Stick, FlipLow, Value, Covered;
    FillPieces(p, masks, draws, attempt);
    FlipHits(p, inj, k, p.Half());
    r := CompareHalves(p, inj, k, Drawn(draws, p.Half()), attempt);
  }
}
