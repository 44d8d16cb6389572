/**
 What the pattern tests can tell apart. A family of patterns separates any two cells with
 different stuck bits exactly when it gives every bit of every word both values.
 */
module PatternFamilies {
  import opened FaultModel
  import opened MemTests

  /** The cells read alike after every round. */
  ghost predicate AlikeOn(pattern: Pattern, rounds: nat, i: nat, f: Fault, g: Fault) {
    forall j :: 0 <= j < rounds ==> Stick(f, Value(pattern, j, i)) == Stick(g, Value(pattern, j, i))
  }

  ghost predicate Separates(pattern: Pattern, rounds: nat) {
    forall i: nat, f: Fault, g: Fault :: AlikeOn(pattern, rounds, i, f, g) ==> SameFault(f, g)
  }

  predicate Has(v: Word, m: Word) {
    v & m == m
  }

  predicate Lacks(v: Word, m: Word) {
    v & m == 0
  }

  ghost predicate EverHas(pattern: Pattern, rounds: nat, i: nat, m: Word) {
    exists j :: 0 <= j < rounds && Has(Value(pattern, j, i), m)
  }

  ghost predicate EverLacks(pattern: Pattern, rounds: nat, i: nat, m: Word) {
    exists j :: 0 <= j < rounds && Lacks(Value(pattern, j, i), m)
  }

  /** Every bit of every word is written both as 1 and as 0. */
  ghost predicate BothValues(pattern: Pattern, rounds: nat) {
    forall i: nat, b: nat :: b < 64 ==> EverHas(pattern, rounds, i, Bit(b)) && EverLacks(pattern, rounds, i, Bit(b))
  }

  // ---- Single bits ----

  predicate OneHot(m: Word) {
    m != 0 && m & (m - 1) == 0
  }

  function Twice(m: Word): Word {
    m << 1
  }

  lemma {:induction false} Bit64()
    ensures Bit(63) != 0 && Bit(64) == 0
  {
    assert Bit(8) == 0x100;
    assert Bit(16) == 0x1_0000;
    assert Bit(24) == 0x100_0000;
    assert Bit(32) == 0x1_0000_0000;
    assert Bit(40) == 0x100_0000_0000;
    assert Bit(48) == 0x1_0000_0000_0000;
    assert Bit(56) == 0x100_0000_0000_0000;
    assert Bit(60) == 0x1000_0000_0000_0000;
  }

  lemma {:induction false} BitNonZero(b: nat)
    requires b < 64
    ensures Bit(b) != 0
    decreases 64 - b
  {
    Bit64();
    if b < 63 {
      BitNonZero(b + 1);
    }
  }

  lemma {:induction false} BitOneHot(b: nat)
    requires b < 64
    ensures OneHot(Bit(b))
  {
    BitNonZero(b);
    if b > 0 {
      BitOneHot(b - 1);
    }
  }

  /** All bits below `n`. */
  function Low(n: nat): Word {
    if n == 0 then 0 else Union(Low(n - 1), Bit(n - 1))
  }

  lemma {:induction false} LowIsPredecessor(n: nat)
    requires n <= 64
    ensures Low(n) == Bit(n) - 1
  {
    if n > 0 {
      LowIsPredecessor(n - 1);
      BitOneHot(n - 1);
    }
  }

  lemma LowAll()
    ensures Low(64) == ONES
  {
    LowIsPredecessor(64);
    Bit64();
  }

  lemma HasOrLacks(v: Word, m: Word)
    requires OneHot(m)
    ensures Has(v, m) || Lacks(v, m)
  {
  }

  lemma ComplementLacks(v: Word, m: Word)
    requires Has(v, m)
    ensures Lacks(Complement(v), m)
  {
  }

  lemma ComplementHas(v: Word, m: Word)
    requires Lacks(v, m)
    ensures Has(Complement(v), m)
  {
  }

  // ---- Stuck bits within a mask ----

  function Within(x: Word, m: Word): Word {
    x & m
  }

  /** The bits that read as 1 even when 0 is written, and those that may read as 1 when 1 is written. */
  function StuckHigh(f: Fault): Word {
    f.value & f.mask
  }

  function Raisable(f: Fault): Word {
    !f.mask | f.value
  }

  predicate SameWithin(f: Fault, g: Fault, m: Word) {
    Within(f.mask, m) == Within(g.mask, m) && Within(StuckHigh(f), m) == Within(StuckHigh(g), m)
  }

  lemma BothWithin(f: Fault, g: Fault, v: Word, w: Word, m: Word)
    requires Has(v, m) && Lacks(w, m)
    requires Stick(f, v) == Stick(g, v) && Stick(f, w) == Stick(g, w)
    ensures SameWithin(f, g, m)
  {
    hide Stick, Has, Lacks, Within, StuckHigh, Raisable;
    ReadAsOne(f, v, m);
    ReadAsOne(g, v, m);
    ReadAsZero(f, w, m);
    ReadAsZero(g, w, m);
    MasksAgree(f, g, m);
  }

  lemma ReadAsOne(f: Fault, v: Word, m: Word)
    requires Has(v, m)
    ensures Within(Stick(f, v), m) == Within(Raisable(f), m)
  {
  }

  lemma ReadAsZero(f: Fault, w: Word, m: Word)
    requires Lacks(w, m)
    ensures Within(Stick(f, w), m) == Within(StuckHigh(f), m)
  {
  }

  /** The stuck bits within `m`, from what is read of the two values. */
  function MaskOf(raisable: Word, high: Word, m: Word): Word {
    high | (m & !raisable)
  }

  lemma MaskFromReads(mask: Word, value: Word, m: Word)
    ensures mask & m == ((value & mask) & m) | (m & !((!mask | value) & m))
  {
  }

  lemma MaskIs(f: Fault, m: Word)
    ensures Within(f.mask, m) == MaskOf(Within(Raisable(f), m), Within(StuckHigh(f), m), m)
  {
    MaskFromReads(f.mask, f.value, m);
  }

  lemma MasksAgree(f: Fault, g: Fault, m: Word)
    requires Within(Raisable(f), m) == Within(Raisable(g), m)
    requires Within(StuckHigh(f), m) == Within(StuckHigh(g), m)
    ensures Within(f.mask, m) == Within(g.mask, m)
  {
    hide Within, StuckHigh, Raisable, MaskOf;
    MaskIs(f, m);
    MaskIs(g, m);
  }

  function Unlike(x: Word, y: Word): Word {
    x ^ y
  }

  /** The bits where the stuck bits of two cells differ. */
  function Difference(f: Fault, g: Fault): Word {
    Union(Unlike(f.mask, g.mask), Unlike(StuckHigh(f), StuckHigh(g)))
  }

  lemma SameLacks(x: Word, y: Word, m: Word)
    requires Within(x, m) == Within(y, m)
    ensures Lacks(Unlike(x, y), m)
  {
  }

  lemma LacksEither(x: Word, y: Word, m: Word)
    requires Lacks(x, m) && Lacks(y, m)
    ensures Lacks(Union(x, y), m)
  {
  }

  lemma LacksGrows(x: Word, m: Word, n: Word)
    requires Lacks(x, m) && Lacks(x, n)
    ensures Lacks(x, Union(m, n))
  {
  }

  lemma DifferenceLacks(f: Fault, g: Fault, m: Word)
    requires SameWithin(f, g, m)
    ensures Lacks(Difference(f, g), m)
  {
    hide Within, Lacks, StuckHigh, Union, Unlike;
    SameLacks(f.mask, g.mask, m);
    SameLacks(StuckHigh(f), StuckHigh(g), m);
    LacksEither(Unlike(f.mask, g.mask), Unlike(StuckHigh(f), StuckHigh(g)), m);
  }

  lemma NoneLacks(x: Word)
    ensures Lacks(x, 0)
  {
  }

  lemma UnionEmpty(x: Word, y: Word)
    requires Lacks(Union(x, y), ONES)
    ensures x == 0 && y == 0
  {
  }

  lemma AlikeWhole(x: Word, y: Word)
    requires Unlike(x, y) == 0
    ensures x == y
  {
  }

  lemma NoDifference(f: Fault, g: Fault)
    requires Lacks(Difference(f, g), ONES)
    ensures SameFault(f, g)
  {
    hide Lacks, Union, Unlike;
    UnionEmpty(Unlike(f.mask, g.mask), Unlike(StuckHigh(f), StuckHigh(g)));
    AlikeWhole(f.mask, g.mask);
    AlikeWhole(StuckHigh(f), StuckHigh(g));
  }

  lemma {:induction false} SameBelow(pattern: Pattern, rounds: nat, i: nat, f: Fault, g: Fault, n: nat)
    requires BothValues(pattern, rounds) && AlikeOn(pattern, rounds, i, f, g) && n <= 64
    ensures Lacks(Difference(f, g), Low(n))
  {
    hide Stick, Value, Has, Lacks, SameWithin, Difference, Union, Bit;
    NoneLacks(Difference(f, g));
    if n > 0 {
      SameBelow(pattern, rounds, i, f, g, n - 1);
      assert EverHas(pattern, rounds, i, Bit(n - 1)) && EverLacks(pattern, rounds, i, Bit(n - 1));
      var j :| 0 <= j < rounds && Has(Value(pattern, j, i), Bit(n - 1));
      var k :| 0 <= k < rounds && Lacks(Value(pattern, k, i), Bit(n - 1));
      BothWithin(f, g, Value(pattern, j, i), Value(pattern, k, i), Bit(n - 1));
      DifferenceLacks(f, g, Bit(n - 1));
      LacksGrows(Difference(f, g), Low(n - 1), Bit(n - 1));
    }
  }

  /** Cells with the bits in `m` stuck read like a sound one as long as they are written so. */
  lemma StuckLowUnseen(v: Word, m: Word)
    requires Lacks(v, m)
    ensures Stick(Fault(m, 0), v) == v
  {
  }

  lemma StuckHighUnseen(v: Word, m: Word)
    requires Has(v, m)
    ensures Stick(Fault(m, m), v) == v
  {
  }

  lemma SoundReads(v: Word)
    ensures Stick(Fault(0, 0), v) == v
  {
  }

  lemma StuckDiffers(m: Word, value: Word)
    requires OneHot(m)
    ensures !SameFault(Fault(m, value), Fault(0, 0))
  {
  }

  /** Giving every bit both values is exactly what it takes to tell different stuck bits apart. */
  lemma SeparatesIffBothValues(pattern: Pattern, rounds: nat)
    ensures Separates(pattern, rounds) <==> BothValues(pattern, rounds)
  {
    hide Stick, Value, Has, Lacks, Difference, SameFault, Low, Bit, OneHot;
    if BothValues(pattern, rounds) {
      forall i: nat, f: Fault, g: Fault | AlikeOn(pattern, rounds, i, f, g)
        ensures SameFault(f, g)
      {
        SameBelow(pattern, rounds, i, f, g, 64);
        LowAll();
        NoDifference(f, g);
      }
    }
    if Separates(pattern, rounds) {
      forall i: nat, b: nat | b < 64
        ensures EverHas(pattern, rounds, i, Bit(b)) && EverLacks(pattern, rounds, i, Bit(b))
      {
        UnseenBit(pattern, rounds, i, b);
      }
    }
  }

  /** A bit that never takes one of the values hides a cell where it is stuck at the other. */
  lemma UnseenBit(pattern: Pattern, rounds: nat, i: nat, b: nat)
    requires b < 64
    ensures !EverHas(pattern, rounds, i, Bit(b)) || !EverLacks(pattern, rounds, i, Bit(b)) ==> !Separates(pattern, rounds)
  {
    hide Stick, Value, Has, Lacks, SameFault, Bit, OneHot;
    var m := Bit(b);
    BitOneHot(b);
    if !EverHas(pattern, rounds, i, m) {
      forall j | 0 <= j < rounds
        ensures Stick(Fault(m, 0), Value(pattern, j, i)) == Stick(Fault(0, 0), Value(pattern, j, i))
      {
        HasOrLacks(Value(pattern, j, i), m);
        StuckLowUnseen(Value(pattern, j, i), m);
        SoundReads(Value(pattern, j, i));
      }
      assert AlikeOn(pattern, rounds, i, Fault(m, 0), Fault(0, 0));
      StuckDiffers(m, 0);
    } else if !EverLacks(pattern, rounds, i, m) {
      forall j | 0 <= j < rounds
        ensures Stick(Fault(m, m), Value(pattern, j, i)) == Stick(Fault(0, 0), Value(pattern, j, i))
      {
        HasOrLacks(Value(pattern, j, i), m);
        StuckHighUnseen(Value(pattern, j, i), m);
        SoundReads(Value(pattern, j, i));
      }
      assert AlikeOn(pattern, rounds, i, Fault(m, m), Fault(0, 0));
      StuckDiffers(m, m);
    }
  }

  // ---- The families of memtester ----

  /** Two rounds that write complements give every bit both values. */
  lemma ComplementRounds(pattern: Pattern, rounds: nat, i: nat, j: nat, k: nat, b: nat)
    requires j < rounds && k < rounds && b < 64
    requires Value(pattern, k, i) == Complement(Value(pattern, j, i))
    ensures EverHas(pattern, rounds, i, Bit(b)) && EverLacks(pattern, rounds, i, Bit(b))
  {
    hide Value, Has, Lacks, Complement, Bit, OneHot;
    BitOneHot(b);
    HasOrLacks(Value(pattern, j, i), Bit(b));
    if Has(Value(pattern, j, i), Bit(b)) {
      ComplementLacks(Value(pattern, j, i), Bit(b));
      assert Has(Value(pattern, j, i), Bit(b)) && Lacks(Value(pattern, k, i), Bit(b));
    } else {
      ComplementHas(Value(pattern, j, i), Bit(b));
      assert Lacks(Value(pattern, j, i), Bit(b)) && Has(Value(pattern, k, i), Bit(b));
    }
  }

  lemma AlternateComplement(v: Word, w: Word, i: nat)
    requires w == Complement(v)
    ensures Alternate(w, i) == Complement(Alternate(v, i))
  {
  }

  lemma ConstantComplements()
    ensures Complement(ONES) == 0 && Complement(CHECKERBOARD1) == CHECKERBOARD2
    ensures Complement(Complement(Bit(0))) == Bit(0)
  {
  }

  lemma {:induction false} BlockComplement()
    ensures Bytes(Count(0, 128)) == Complement(Bytes(Count(0, 127)))
  {
    assert Count(0, 8) == 8;
    assert Count(0, 16) == 16;
    assert Count(0, 24) == 24;
    assert Count(0, 32) == 32;
    assert Count(0, 40) == 40;
    assert Count(0, 48) == 48;
    assert Count(0, 56) == 56;
    assert Count(0, 64) == 64;
    assert Count(0, 72) == 72;
    assert Count(0, 80) == 80;
    assert Count(0, 88) == 88;
    assert Count(0, 96) == 96;
    assert Count(0, 104) == 104;
    assert Count(0, 112) == 112;
    assert Count(0, 120) == 120;
    assert Count(0, 127) == 127;
  }

  /** Solid Bits, Checkerboard, Block Sequential and Bit Flip give every bit both values. */
  lemma ComplementFamilies()
    ensures BothValues(SolidBits, 64) && BothValues(Checkerboard, 64)
    ensures BothValues(BlockSequential, 256) && BothValues(BitFlip, 512)
  {
    hide Complement, Bit, Bytes, Count, Alternate, EverHas, EverLacks;
    ConstantComplements();
    BlockComplement();
    forall i: nat, b: nat | b < 64
      ensures EverHas(SolidBits, 64, i, Bit(b)) && EverLacks(SolidBits, 64, i, Bit(b))
    {
      AlternateComplement(ONES, 0, i);
      ComplementRounds(SolidBits, 64, i, 0, 1, b);
    }
    forall i: nat, b: nat | b < 64
      ensures EverHas(Checkerboard, 64, i, Bit(b)) && EverLacks(Checkerboard, 64, i, Bit(b))
    {
      AlternateComplement(CHECKERBOARD1, CHECKERBOARD2, i);
      ComplementRounds(Checkerboard, 64, i, 0, 1, b);
    }
    forall i: nat, b: nat | b < 64
      ensures EverHas(BlockSequential, 256, i, Bit(b)) && EverLacks(BlockSequential, 256, i, Bit(b))
    {
      ComplementRounds(BlockSequential, 256, i, 127, 128, b);
    }
    forall i: nat, b: nat | b < 64
      ensures EverHas(BitFlip, 512, i, Bit(b)) && EverLacks(BitFlip, 512, i, Bit(b))
    {
      AlternateComplement(Complement(Bit(0)), Bit(0), i);
      ComplementRounds(BitFlip, 512, i, 0, 1, b);
    }
  }

  /** A single bit and its neighbour do not overlap. */
  lemma NeighboursApart(m: Word)
    requires OneHot(m)
    ensures Lacks(Twice(m), m) && Lacks(m, Twice(m)) && Has(m, m)
    ensures Has(ONES ^ Twice(m), m) && Has(ONES ^ m, Twice(m)) && Lacks(ONES ^ m, m)
  {
  }

  lemma WalkBits(b: nat)
    requires b < 64
    ensures Walk(b) == Bit(b)
    ensures b < 63 ==> Walk(b + 1) == Twice(Bit(b))
    ensures b > 0 ==> Bit(b) == Twice(Walk(b - 1)) && OneHot(Walk(b - 1))
  {
    if b > 0 {
      BitOneHot(b - 1);
    }
  }

  /** The walking tests give every bit both values: in its own round, and in the one next to it. */
  lemma WalkingFamilies()
    ensures BothValues(WalkingZeroes, 128) && BothValues(WalkingOnes, 128)
  {
    hide EverHas, EverLacks, Bit;
    forall i: nat, b: nat | b < 64
      ensures EverHas(WalkingZeroes, 128, i, Bit(b)) && EverLacks(WalkingZeroes, 128, i, Bit(b))
      ensures EverHas(WalkingOnes, 128, i, Bit(b)) && EverLacks(WalkingOnes, 128, i, Bit(b))
    {
      WalkingBit(i, b);
    }
  }

  /** A round next to the one that walks over bit `b`. */
  lemma NextRound(b: nat) returns (k: nat)
    requires b < 64
    ensures k < 128
    ensures Has(Walk(b), Bit(b)) && Lacks(ONES ^ Walk(b), Bit(b))
    ensures Lacks(Walk(k), Bit(b)) && Has(ONES ^ Walk(k), Bit(b))
  {
    hide Bit, Walk, Twice, Has, Lacks, OneHot;
    BitOneHot(b);
    WalkBits(b);
    NeighboursApart(Bit(b));
    k := if b < 63 then b + 1 else b - 1;
    if b == 63 {
      NeighboursApart(Walk(b - 1));
    }
  }

  lemma WalkingBit(i: nat, b: nat)
    requires b < 64
    ensures EverHas(WalkingZeroes, 128, i, Bit(b)) && EverLacks(WalkingZeroes, 128, i, Bit(b))
    ensures EverHas(WalkingOnes, 128, i, Bit(b)) && EverLacks(WalkingOnes, 128, i, Bit(b))
  {
    hide Bit, Walk, Has, Lacks;
    var k := NextRound(b);
    assert Has(Value(WalkingZeroes, b, i), Bit(b)) && Lacks(Value(WalkingZeroes, k, i), Bit(b));
    assert Lacks(Value(WalkingOnes, b, i), Bit(b)) && Has(Value(WalkingOnes, k, i), Bit(b));
  }

  /** With nothing flipped, a separating family fails exactly when the halves differ in a stuck bit. */
  lemma SeparatingDetects(p: MemoryPage, pattern: Pattern, rounds: nat, inj: Injection, k: int)
    requires p.Valid() && inj.Valid() && Separates(pattern, rounds) && Unflipped(p, inj, k)
    ensures (forall j :: 0 <= j < rounds ==> RoundAgrees(p, inj, k, pattern, j)) <==> p.HalvesAlike()
  {
    hide Stick, FlipLow, Value, SameFault;
    if forall j :: 0 <= j < rounds ==> RoundAgrees(p, inj, k, pattern, j) {
      forall i | 0 <= i < p.Half()
        ensures SameFault(p.FaultAt(i), p.FaultAt(p.Half() + i))
      {
        forall j | 0 <= j < rounds
          ensures Stick(p.FaultAt(i), Value(pattern, j, i)) == Stick(p.FaultAt(p.Half() + i), Value(pattern, j, i))
        {
          assert RoundAgrees(p, inj, k, pattern, j);
          assert Agrees(p, inj, k, i, Value(pattern, j, i), Value(pattern, j, i));
        }
        assert AlikeOn(pattern, rounds, i, p.FaultAt(i), p.FaultAt(p.Half() + i));
      }
    }
    if p.HalvesAlike() {
      forall j, i | 0 <= j < rounds && 0 <= i < p.Half()
        ensures Agrees(p, inj, k, i, Value(pattern, j, i), Value(pattern, j, i))
      {
        StickAlike(p.FaultAt(i), p.FaultAt(p.Half() + i), Value(pattern, j, i));
      }
    }
  }

  // ---- What is written and combined ----

  /** The values of the pattern tests: round `j`, column `i`. */
  lemma AlternatingValues(j: nat, i: nat)
    ensures Value(SolidBits, j, i) == if (j + i) % 2 == 0 then 0xFFFF_FFFF_FFFF_FFFF else 0
    ensures Value(Checkerboard, j, i) == if (j + i) % 2 == 0 then 0x5555_5555_5555_5555 else 0xAAAA_AAAA_AAAA_AAAA
  {
    hide Bit, Complement;
    ConstantComplements();
    TwiceComplement(ONES);
    TwiceComplement(CHECKERBOARD1);
  }

  lemma BitFlipValues(j: nat, i: nat)
    ensures Value(BitFlip, j, i) == if (j + i) % 2 == 0 then Complement(Bit(j / 8)) else Bit(j / 8)
  {
    hide Bit, Complement;
    TwiceComplement(Bit(j / 8));
  }

  lemma WalkingValues(j: nat, i: nat)
    requires j < 128
    ensures Value(WalkingZeroes, j, i) == Bit(if j < 64 then j else 127 - j)
    ensures Value(WalkingOnes, j, i) == Complement(Bit(if j < 64 then j else 127 - j))
  {
    hide Bit, Complement;
    OnesMinus(Walk(j));
  }

  lemma IncrementValues(j: nat, i: nat, start: Word)
    ensures Value(SequentialIncrement(start), j, 0) == start
    ensures Value(SequentialIncrement(start), j, i + 1) == Value(SequentialIncrement(start), j, i) + 1
  {
  }

  lemma OnesMinus(v: Word)
    ensures ONES ^ v == Complement(v)
  {
  }

  /** Bit 0 is 1, and every further bit is twice the one before. */
  lemma BitsAre(j: nat)
    ensures Bit(0) == 1 && Bit(j + 1) == Bit(j) + Bit(j)
  {
  }

  /** Block Sequential writes its byte into all eight bytes. */
  lemma BlocksAre(j: nat, i: nat)
    ensures Value(BlockSequential, j, i) == Bytes(Count(0, j)) && Count(0, 0) == 0 && Count(0, j + 1) == Count(0, j) + 1
  {
  }

  lemma BytesAre(b: Word)
    requires b < 256
    ensures Bytes(b) & 0xFF == b && (Bytes(b) >> 8) & 0xFF == b && (Bytes(b) >> 16) & 0xFF == b && (Bytes(b) >> 24) & 0xFF == b
    ensures (Bytes(b) >> 32) & 0xFF == b && (Bytes(b) >> 40) & 0xFF == b && (Bytes(b) >> 48) & 0xFF == b && Bytes(b) >> 56 == b
  {
  }

  // What the combining tests do to a word, bit by bit or as arithmetic modulo 2^64; a divisor 0 counts as 1.

  lemma XorIs(x: Word, q: Word)
    ensures Apply(Xor, x, q) == (x & !q) | (!x & q)
  {
    hide Exclusive, Minus, Times, DividedBy, Either, Both;
    ExclusiveIs(x, q);
  }

  lemma OrIs(x: Word, q: Word)
    ensures Apply(Or, x, q) == !(!x & !q)
  {
    hide Exclusive, Minus, Times, DividedBy, Either, Both;
    EitherIs(x, q);
  }

  lemma AndIs(x: Word, q: Word)
    ensures Apply(And, x, q) == !(!x | !q)
  {
    hide Exclusive, Minus, Times, DividedBy, Either, Both;
    BothIs(x, q);
  }

  lemma SubIs(x: Word, q: Word)
    ensures Apply(Sub, x, q) == x - q
  {
    hide Exclusive, Minus, Times, DividedBy, Either, Both;
    MinusIs(x, q);
  }

  lemma MulIs(x: Word, q: Word)
    ensures Apply(Mul, x, q) == x * q
  {
    hide Exclusive, Minus, Times, DividedBy, Either, Both;
    TimesIs(x, q);
  }

  lemma DivIs(x: Word, q: Word)
    ensures Apply(Div, x, q) == x / (if q == 0 then 1 else q)
  {
    hide Exclusive, Minus, Times, DividedBy, Either, Both;
    DividedByIs(x, q);
  }

  // ---- Words that share a cell ----

  /** The same value in every column. */
  predicate IsUniform(pattern: Pattern) {
    pattern.BlockSequential? || pattern.WalkingOnes? || pattern.WalkingZeroes?
  }

  /** Complements in neighbouring columns, and in the first two rounds. */
  predicate IsAlternating(pattern: Pattern) {
    pattern.SolidBits? || pattern.Checkerboard? || pattern.BitFlip?
  }

  lemma UniformValue(pattern: Pattern, j: nat, a: nat, b: nat)
    requires IsUniform(pattern)
    ensures Value(pattern, j, a) == Value(pattern, j, b)
  {
  }

  lemma AlternatingValue(pattern: Pattern, j: nat, a: nat, b: nat)
    requires IsAlternating(pattern)
    ensures a % 2 == b % 2 ==> Value(pattern, j, a) == Value(pattern, j, b)
    ensures a % 2 != b % 2 ==> Value(pattern, j, b) == Complement(Value(pattern, j, a))
  {
    hide Complement, Bit;
    TwiceComplement(Value(pattern, j, a));
    TwiceComplement(Value(pattern, j, b));
  }

  lemma TwiceComplement(v: Word)
    ensures Complement(Complement(v)) == v
  {
  }

  lemma AlternatingRounds(pattern: Pattern, a: nat)
    requires IsAlternating(pattern)
    ensures Value(pattern, 1, a) == Complement(Value(pattern, 0, a))
  {
    hide Complement, Bit;
    ConstantComplements();
    TwiceComplement(Bit(0));
    TwiceComplement(CHECKERBOARD1);
    TwiceComplement(0);
  }

  /**
   A word and its twin pass: their cells have the same stuck bits, and if the last values that reached them are
   complements of each other, they are stuck in every bit.
   */
  predicate TwinsPass(p: MemoryPage, pattern: Pattern, i: nat)
    requires p.Valid() && i < p.Half()
  {
    && SameFault(p.FaultAt(i), p.FaultAt(p.Half() + i))
    && (IsUniform(pattern) || Source(p, i) % 2 == Source(p, p.Half() + i) % 2 || AllStuck(p.FaultAt(i)))
  }

  predicate HalvesPass(p: MemoryPage, pattern: Pattern)
    requires p.Valid()
  {
    forall i :: 0 <= i < p.Half() ==> TwinsPass(p, pattern, i)
  }

  lemma TwinsDetected(p: MemoryPage, pattern: Pattern, rounds: nat, i: nat)
    requires p.Valid() && i < p.Half() && Separates(pattern, rounds) && rounds >= 2
    requires IsUniform(pattern) || IsAlternating(pattern)
    ensures (forall j :: 0 <= j < rounds ==> TwinsRead(p, pattern, j, i)) <==> TwinsPass(p, pattern, i)
  {
    hide Stick, Value, SameFault, Complement, AllStuck, Source, BothValues;
    var f, g, a, b := p.FaultAt(i), p.FaultAt(p.Half() + i), Source(p, i), Source(p, p.Half() + i);
    if IsUniform(pattern) || a % 2 == b % 2 {
      forall j | 0 <= j < rounds
        ensures TwinsRead(p, pattern, j, i) <==> Stick(f, Value(pattern, j, a)) == Stick(g, Value(pattern, j, a))
        ensures SameFault(f, g) ==> Stick(f, Value(pattern, j, a)) == Stick(g, Value(pattern, j, a))
      {
        if IsUniform(pattern) {
          UniformValue(pattern, j, a, b);
        } else {
          AlternatingValue(pattern, j, a, b);
        }
        StickAlike(f, g, Value(pattern, j, a));
      }
      assert AlikeOn(pattern, rounds, a, f, g) ==> SameFault(f, g);
    } else {
      AlternatingRounds(pattern, a);
      AlternatingRounds(pattern, b);
      TwiceComplement(Value(pattern, 0, a));
      forall j | 0 <= j < rounds
        ensures Value(pattern, j, b) == Complement(Value(pattern, j, a))
        ensures SameFault(f, g) && AllStuck(f) ==> TwinsRead(p, pattern, j, i)
      {
        AlternatingValue(pattern, j, a, b);
        if SameFault(f, g) && AllStuck(f) {
          AllStuckAlike(f, g, Value(pattern, j, a), Value(pattern, j, b));
        }
      }
      OppositesAlike(f, g, Value(pattern, 0, a));
      assert TwinsRead(p, pattern, 0, i) <==> Stick(f, Value(pattern, 0, a)) == Stick(g, Complement(Value(pattern, 0, a)));
      assert TwinsRead(p, pattern, 1, i) <==> Stick(f, Complement(Value(pattern, 0, a))) == Stick(g, Value(pattern, 0, a));
    }
  }

  /** With nothing flipped, and whichever words share cells, a test passes exactly when every word and its twin pass. */
  lemma SharedDetects(p: MemoryPage, pattern: Pattern, rounds: nat)
    requires p.Valid() && Separates(pattern, rounds) && rounds >= 2 && (IsUniform(pattern) || IsAlternating(pattern))
    ensures (forall j :: 0 <= j < rounds ==> RoundReads(p, pattern, j)) <==> HalvesPass(p, pattern)
  {
    hide TwinsRead, TwinsPass, Separates;
    forall i | 0 <= i < p.Half()
      ensures (forall j :: 0 <= j < rounds ==> TwinsRead(p, pattern, j, i)) <==> TwinsPass(p, pattern, i)
    {
      TwinsDetected(p, pattern, rounds, i);
    }
    if forall j :: 0 <= j < rounds ==> RoundReads(p, pattern, j) {
      forall i | 0 <= i < p.Half()
        ensures TwinsPass(p, pattern, i)
      {
        forall j | 0 <= j < rounds
          ensures TwinsRead(p, pattern, j, i)
        {
          assert RoundReads(p, pattern, j);
        }
      }
    }
    if HalvesPass(p, pattern) {
      forall j, i | 0 <= j < rounds && 0 <= i < p.Half()
        ensures TwinsRead(p, pattern, j, i)
      {
        assert TwinsPass(p, pattern, i);
      }
    }
  }
}
