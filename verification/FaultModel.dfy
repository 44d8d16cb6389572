/**
 The memory under test: cells with permanently stuck bits behind an address decode map.
 A test only ever sees a page through `Read` and `Write`.
 */
module FaultModel {

  type Word = bv64

  const ONES: Word := 0xFFFF_FFFF_FFFF_FFFF

  /** The bits in `mask` are stuck: they read as they are in `value`, whatever was stored. */
  datatype Fault = Fault(mask: Word, value: Word)

  // The operations on words. Every fact about bits is proved here and in `PatternFamilies`;
  // elsewhere the bodies of these are hidden, so that no proof about loops looks at single bits.

  /** What is read from a cell with fault `f` after `v` was stored in it. */
  function Stick(f: Fault, v: Word): Word {
    (v & !f.mask) | (f.value & f.mask)
  }

  function FlipLow(v: Word): Word {
    v ^ 1
  }

  function Complement(v: Word): Word {
    !v
  }

  /** The address of the word after the one at `a`. */
  function Next(a: Word): Word {
    a + 8
  }

  predicate Aligned(a: Word) {
    a & 7 == 0
  }

  predicate Below(a: Word, b: Word) {
    a < b
  }

  /** A store that only reaches the bits in `mask`. */
  function Merge(kept: Word, v: Word, mask: Word): Word {
    (kept & !mask) | (v & mask)
  }

  predicate SameUnder(x: Word, v: Word, mask: Word) {
    x & mask == v & mask
  }

  function Union(m: Word, n: Word): Word {
    m | n
  }

  function Exclusive(x: Word, q: Word): Word {
    x ^ q
  }

  function Minus(x: Word, q: Word): Word {
    x - q
  }

  function Times(x: Word, q: Word): Word {
    x * q
  }

  function DividedBy(x: Word, q: Word): Word {
    x / (if q == 0 then 1 else q)
  }

  function Either(x: Word, q: Word): Word {
    x | q
  }

  function Both(x: Word, q: Word): Word {
    x & q
  }

  predicate SameFault(f: Fault, g: Fault) {
    f.mask == g.mask && f.value & f.mask == g.value & g.mask
  }

  predicate Sound(f: Fault) {
    f.mask == 0
  }

  /** No bit takes what is stored. */
  predicate AllStuck(f: Fault) {
    f.mask == ONES
  }

  /** What is read after storing `v` and then, if `hit`, flipping the lowest bit through the memory. */
  function Landed(hit: bool, f: Fault, v: Word): Word {
    if hit then Stick(f, FlipLow(Stick(f, v))) else Stick(f, v)
  }

  /** Cells with the same stuck bits read alike; cells without any read what was stored. */
  lemma StickAlike(f: Fault, g: Fault, v: Word)
    ensures SameFault(f, g) ==> Stick(f, v) == Stick(g, v)
    ensures Sound(f) ==> Stick(f, v) == v
  {
  }

  /** Stuck bits read as they are stuck, all others as stored. */
  lemma StickBits(f: Fault, v: Word)
    ensures Stick(f, v) & f.mask == f.value & f.mask && Stick(f, v) & !f.mask == v & !f.mask
  {
  }

  /** A narrow store changes the bits of its mask and no others. */
  lemma MergeBits(kept: Word, v: Word, mask: Word)
    ensures Merge(kept, v, mask) & mask == v & mask && Merge(kept, v, mask) & !mask == kept & !mask
  {
  }

  /** A flip changes the lowest bit. */
  lemma FlipBit(v: Word)
    ensures v ^ FlipLow(v) == 1
  {
  }

  lemma NextIs(a: Word)
    ensures Next(a) == a + 8
  {
  }

  lemma ExclusiveIs(x: Word, q: Word)
    ensures Exclusive(x, q) == (x & !q) | (!x & q)
  {
  }

  lemma EitherIs(x: Word, q: Word)
    ensures Either(x, q) == !(!x & !q)
  {
  }

  lemma BothIs(x: Word, q: Word)
    ensures Both(x, q) == !(!x | !q)
  {
  }

  lemma MinusIs(x: Word, q: Word)
    ensures Minus(x, q) == x - q
  {
  }

  lemma TimesIs(x: Word, q: Word)
    ensures Times(x, q) == x * q
  {
  }

  lemma DividedByIs(x: Word, q: Word)
    ensures DividedBy(x, q) == x / (if q == 0 then 1 else q)
  {
  }

  lemma SoundAlike(f: Fault, g: Fault)
    requires Sound(f) && Sound(g)
    ensures SameFault(f, g)
  {
  }

  /** Cells that read alike when opposite words are stored, whichever way round, are stuck in every bit. */
  lemma OppositesAlike(f: Fault, g: Fault, v: Word)
    ensures Stick(f, v) == Stick(g, Complement(v)) && Stick(f, Complement(v)) == Stick(g, v) ==> SameFault(f, g) && AllStuck(f)
  {
    hide Stick, Complement, SameFault, AllStuck;
    if Stick(f, v) == Stick(g, Complement(v)) && Stick(f, Complement(v)) == Stick(g, v) {
      OppositesStuck(f, g, v);
      OppositesStuck(g, f, v);
      SameWhenStuck(f, g, v);
    }
  }

  lemma OppositesStuck(f: Fault, g: Fault, v: Word)
    requires Stick(f, v) == Stick(g, Complement(v)) && Stick(f, Complement(v)) == Stick(g, v)
    ensures AllStuck(f)
  {
  }

  lemma SameWhenStuck(f: Fault, g: Fault, v: Word)
    requires AllStuck(f) && AllStuck(g) && Stick(f, v) == Stick(g, Complement(v))
    ensures SameFault(f, g)
  {
  }

  /** Cells stuck alike in every bit read alike, whatever is stored. */
  lemma AllStuckAlike(f: Fault, g: Fault, v: Word, w: Word)
    requires SameFault(f, g) && AllStuck(f)
    ensures Stick(f, v) == Stick(g, w)
  {
  }

  lemma MergeSame(kept: Word, v: Word, done: Word, mask: Word)
    requires SameUnder(kept, v, done)
    ensures SameUnder(Merge(kept, v, mask), v, Union(done, mask))
  {
  }

  lemma SameUnderEnds(x: Word, v: Word)
    ensures SameUnder(x, v, 0)
    ensures SameUnder(x, v, ONES) ==> x == v
  {
  }

  lemma StickTwice(f: Fault, v: Word)
    ensures Stick(f, Stick(f, v)) == Stick(f, v)
  {
  }

  lemma KeptBoth(f: Fault, v: Word)
    requires Stick(f, v) == v && Stick(f, Complement(v)) == Complement(v)
    ensures Sound(f)
  {
  }

  lemma FlipSeen(v: Word)
    ensures FlipLow(v) != v
  {
  }

  /** A cell that keeps a word and its complement has no stuck bit, and no flip of it goes unseen. */
  lemma KeepsBoth(hit: bool, f: Fault, v: Word)
    requires Landed(hit, f, v) == v && Landed(hit, f, Complement(v)) == Complement(v)
    ensures Sound(f) && !hit
  {
    hide Stick, FlipLow, Complement, Sound;
    var w := Complement(v);
    if hit {
      StickTwice(f, FlipLow(Stick(f, v)));
      StickTwice(f, FlipLow(Stick(f, w)));
    }
    KeptBoth(f, v);
    SoundLands(hit, f, v);
  }

  lemma SoundLands(hit: bool, f: Fault, v: Word)
    requires Sound(f)
    ensures Landed(hit, f, v) == if hit then FlipLow(v) else v
    ensures Landed(hit, f, v) == v <==> !hit
  {
    hide Stick, FlipLow, Sound;
    StickAlike(f, f, v);
    StickAlike(f, f, FlipLow(v));
    FlipSeen(v);
  }

  lemma AlignedNotComplement(a: Word, b: Word)
    requires Aligned(a) && Aligned(b)
    ensures a != Complement(b) && b != Complement(a)
  {
  }

  lemma ComplementInjective(a: Word, b: Word)
    ensures Complement(a) == Complement(b) ==> a == b
    ensures Complement(Complement(a)) == a
  {
  }

  lemma NextAligned(a: Word)
    requires Aligned(a)
    ensures Aligned(Next(a))
  {
  }

  lemma BelowTransitive(a: Word, b: Word, c: Word)
    requires Below(a, b) && Below(b, c)
    ensures Below(a, c)
  {
  }

  lemma BelowIrreflexive(a: Word)
    ensures !Below(a, a)
  {
  }

  /** One page of memory, word by word. Word `i` is kept in cell `decode[i]`. */
  class MemoryPage {
    const decode: seq<nat>
    const faults: seq<Fault>
    const cells: array<Word>

    ghost predicate Valid() {
      && |faults| == cells.Length
      && 0 < |decode|
      && |decode| % 2 == 0
      && forall i :: 0 <= i < |decode| ==> decode[i] < cells.Length
    }

    constructor (decode: seq<nat>, faults: seq<Fault>)
      requires 0 < |decode| && |decode| % 2 == 0
      requires forall i :: 0 <= i < |decode| ==> decode[i] < |faults|
      ensures Valid() && fresh(cells)
      ensures this.decode == decode && this.faults == faults
    {
      this.decode := decode;
      this.faults := faults;
      this.cells := new Word[|faults|];
    }

    /** The number of words in the page; the second half starts at word `Half()`. */
    function Words(): nat {
      |decode|
    }

    function Half(): nat {
      |decode| / 2
    }

    function FaultAt(i: nat): Fault
      requires Valid() && i < Words()
    {
      faults[decode[i]]
    }

    /** Every word has a cell of its own. */
    ghost predicate Injective() {
      forall i, k :: 0 <= i < k < |decode| ==> decode[i] != decode[k]
    }

    /** The page works: no two words share a cell and no cell behind it has a stuck bit. */
    ghost predicate Healthy()
      requires Valid()
    {
      Injective() && forall i :: 0 <= i < Words() ==> Sound(FaultAt(i))
    }

    /** The two halves have the same stuck bits, word for word. */
    ghost predicate HalvesAlike()
      requires Valid()
    {
      forall i :: 0 <= i < Half() ==> SameFault(FaultAt(i), FaultAt(Half() + i))
    }

    function Read(i: nat): Word
      requires Valid() && i < Words()
      reads cells
    {
      Stick(faults[decode[i]], cells[decode[i]])
    }

    /** Everything the page reads as. */
    ghost function Contents(): (held: seq<Word>)
      requires Valid()
      reads cells
      ensures |held| == Words()
    {
      seq(Words(), i requires 0 <= i < Words() reads cells => Read(i))
    }

    /** The place of a word within its half. */
    function Column(i: nat): nat {
      if i < Half() then i else i - Half()
    }

    /**
     A store. Afterwards the words that share the cell read as the value with their stuck bits forced, this one
     among them, and all other words read as before.
     */
    method Write(i: nat, v: Word)
      requires Valid() && i < Words()
      modifies cells
      ensures cells[..] == old(cells[..])[decode[i] := v]
      ensures forall k :: 0 <= k < Words() ==>
        Read(k) == if decode[k] == decode[i] then Stick(FaultAt(k), v) else old(Read(k))
    {
      hide Stick;
      cells[decode[i]] := v;
    }

    /** A store narrower than a word. */
    method WriteNarrow(i: nat, v: Word, mask: Word)
      requires Valid() && i < Words()
      modifies cells
      ensures cells[..] == old(cells[..])[decode[i] := Merge(old(cells[decode[i]]), v, mask)]
    {
      cells[decode[i]] := Merge(cells[decode[i]], v, mask);
    }

    /** The words of both halves read the same, one by one. */
    ghost predicate HalvesRead()
      requires Valid()
      reads cells
    {
      forall i :: 0 <= i < Half() ==> Read(i) == Read(Half() + i)
    }
  }
}
