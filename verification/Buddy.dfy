/**
 Free memory as the buddy allocator keeps it: blocks of 2^order frames, known by their first frame.
 Only the first frame of a block carries the buddy mark, so only it can be claimed.
 */
module Buddy {
  import Arith

  /** The orders of the free lists, 0 up to 10. */
  const ORDERS: nat := 11

  /** The first frame of every free block, with the order of the block. */
  type Blocks = map<nat, nat>

  function Pow2(n: nat): (p: nat)
    ensures p > 0
  {
    if n == 0 then 1 else 2 * Pow2(n - 1)
  }

  predicate Covers(bs: Blocks, h: nat, x: nat) {
    h in bs && h <= x < h + Pow2(bs[h])
  }

  ghost predicate Free(bs: Blocks, x: nat) {
    exists h :: Covers(bs, h, x)
  }

  ghost function FreeFrames(bs: Blocks, limit: nat): set<nat> {
    set x | 0 <= x < limit && Free(bs, x)
  }

  /** Aligned blocks of a listed order inside memory that do not overlap. */
  ghost predicate WellFormed(bs: Blocks, limit: nat) {
    && (forall h :: h in bs ==> bs[h] < ORDERS && h % Pow2(bs[h]) == 0 && h + Pow2(bs[h]) <= limit)
    && (forall g, h :: g in bs && h in bs && g < h ==> g + Pow2(bs[g]) <= h)
  }

  /** The block that would start at `head` overlaps no other. */
  ghost predicate Hole(bs: Blocks, head: nat, order: nat) {
    forall h :: h in bs ==> h + Pow2(bs[h]) <= head || head + Pow2(order) <= h
  }

  /** What `mm_buddy_expand` adds: the upper half of each split, from order `order - 1` down to 0. */
  function Expand(bs: Blocks, head: nat, order: nat): Blocks
    decreases order
  {
    if order == 0 then bs else Expand(bs[head + Pow2(order - 1) := order - 1], head, order - 1)
  }

  /** The blocks after claiming frame `f`: unchanged unless a block starts there. */
  function Claim(bs: Blocks, f: nat): Blocks {
    if f in bs then Expand(bs - {f}, f, bs[f]) else bs
  }

  // ---- Expanding ----

  lemma HalfAligned(h: nat, p: nat)
    requires p > 0 && h % (2 * p) == 0
    ensures h % p == 0 && (h + p) % p == 0
  {
    var q := h / (2 * p);
    Arith.QuotientBounds(h, 2 * p);
    assert q * (2 * p) == (2 * q) * p;
    Arith.DivisionUnique(h, p, 2 * q, 0);
    Arith.ModuloNext(h, p);
  }

  lemma {:induction false} ExpandWellFormed(bs: Blocks, head: nat, order: nat, limit: nat)
    requires WellFormed(bs, limit) && Hole(bs, head, order)
    requires order < ORDERS && head % Pow2(order) == 0 && head + Pow2(order) <= limit
    ensures WellFormed(Expand(bs, head, order), limit)
    decreases order
  {
    if order > 0 {
      HalfAligned(head, Pow2(order - 1));
      ExpandWellFormed(bs[head + Pow2(order - 1) := order - 1], head, order - 1, limit);
    }
  }

  /** Expanding keeps every block and covers exactly the hole but its first frame, with later heads. */
  lemma {:induction false} ExpandCovers(bs: Blocks, head: nat, order: nat, h: nat, x: nat)
    requires Hole(bs, head, order)
    ensures Covers(Expand(bs, head, order), h, x) ==>
      Covers(bs, h, x) || (head < h && head < x < head + Pow2(order))
    ensures Covers(bs, h, x) ==> Covers(Expand(bs, head, order), h, x)
    ensures head < x < head + Pow2(order) ==> Free(Expand(bs, head, order), x)
    decreases order
  {
    if order > 0 {
      var half := head + Pow2(order - 1);
      var bs' := bs[half := order - 1];
      assert half !in bs;
      ExpandCovers(bs', head, order - 1, h, x);
      if half <= x < head + Pow2(order) {
        assert Covers(bs', half, x);
        ExpandCovers(bs', head, order - 1, half, x);
      }
    }
  }

  /** A block split at `head` leaves a new block there, of some order below `order`. */
  ghost predicate IsHalf(head: nat, order: nat, h: nat) {
    exists i: nat :: i < order && h == head + Pow2(i)
  }

  /**
   `after` is `before` with the block of order `order` at `head` split until only its first frame is missing: one new
   block of every smaller order, each right behind the block of the order below. All other blocks are kept.
   */
  ghost predicate Splits(before: Blocks, head: nat, order: nat, after: Blocks) {
    && (forall h: nat :: h in after <==> h in before || IsHalf(head, order, h))
    && (forall i: nat :: i < order ==> head + Pow2(i) in after && after[head + Pow2(i)] == i)
    && (forall h :: h in before ==> h in after && after[h] == before[h])
  }

  lemma HalfNext(head: nat, order: nat, h: nat)
    ensures IsHalf(head, order + 1, h) <==> IsHalf(head, order, h) || h == head + Pow2(order)
  {
    hide Pow2;
    if IsHalf(head, order + 1, h) {
      var i: nat :| i < order + 1 && h == head + Pow2(i);
      assert i < order || i == order;
    }
    if IsHalf(head, order, h) {
      var i: nat :| i < order && h == head + Pow2(i);
      assert i < order + 1;
    }
  }

  lemma {:induction false} ExpandAt(bs: Blocks, head: nat, order: nat, h: nat)
    requires Hole(bs, head, order)
    ensures h in Expand(bs, head, order) <==> h in bs || IsHalf(head, order, h)
    ensures h in bs ==> h in Expand(bs, head, order) && Expand(bs, head, order)[h] == bs[h]
    decreases order
  {
    if order > 0 {
      assert head + Pow2(order - 1) !in bs;
      ExpandAt(bs[head + Pow2(order - 1) := order - 1], head, order - 1, h);
      hide Hole;
      HalfNext(head, order - 1, h);
    }
  }

  lemma {:induction false} ExpandHalf(bs: Blocks, head: nat, order: nat, i: nat)
    requires Hole(bs, head, order) && i < order
    ensures head + Pow2(i) in Expand(bs, head, order) && Expand(bs, head, order)[head + Pow2(i)] == i
    decreases order
  {
    var half := head + Pow2(order - 1);
    var bs' := bs[half := order - 1];
    if i < order - 1 {
      ExpandHalf(bs', head, order - 1, i);
    } else {
      ExpandAt(bs', head, order - 1, half);
    }
  }

  lemma ExpandSplits(bs: Blocks, head: nat, order: nat)
    requires Hole(bs, head, order)
    ensures Splits(bs, head, order, Expand(bs, head, order))
  {
    hide Hole, Pow2, IsHalf, Expand;
    forall h: nat
      ensures h in Expand(bs, head, order) <==> h in bs || IsHalf(head, order, h)
      ensures h in bs ==> h in Expand(bs, head, order) && Expand(bs, head, order)[h] == bs[h]
    {
      ExpandAt(bs, head, order, h);
    }
    forall i: nat | i < order
      ensures head + Pow2(i) in Expand(bs, head, order) && Expand(bs, head, order)[head + Pow2(i)] == i
    {
      ExpandHalf(bs, head, order, i);
    }
  }

  // ---- Claiming ----

  lemma ClaimHole(bs: Blocks, f: nat, limit: nat)
    requires WellFormed(bs, limit) && f in bs
    ensures WellFormed(bs - {f}, limit) && Hole(bs - {f}, f, bs[f])
  {
  }

  lemma ClaimWellFormed(bs: Blocks, f: nat, limit: nat)
    requires WellFormed(bs, limit)
    ensures WellFormed(Claim(bs, f), limit)
  {
    if f in bs {
      ClaimHole(bs, f, limit);
      ExpandWellFormed(bs - {f}, f, bs[f], limit);
    }
  }

  /** A claim takes exactly its frame out of the free frames. */
  lemma ClaimTakesOne(bs: Blocks, f: nat, limit: nat, x: nat)
    requires WellFormed(bs, limit) && f in bs
    ensures Free(Claim(bs, f), x) <==> Free(bs, x) && x != f
  {
    ClaimHole(bs, f, limit);
    assert Covers(bs, f, f);
    if Free(Claim(bs, f), x) {
      var h: nat :| Covers(Claim(bs, f), h, x);
      ExpandCovers(bs - {f}, f, bs[f], h, x);
      if Covers(bs - {f}, h, x) {
        assert Covers(bs, h, x);
      } else {
        assert Covers(bs, f, x);
      }
    }
    if Free(bs, x) && x != f {
      var h: nat :| Covers(bs, h, x);
      ExpandCovers(bs - {f}, f, bs[f], h, x);
      if h != f {
        assert Covers(bs - {f}, h, x);
      }
    }
  }

  /** The blocks after a claim: the claimed frame's block is split, all other blocks are as before. */
  lemma ClaimSplits(bs: Blocks, f: nat, limit: nat)
    requires WellFormed(bs, limit) && f in bs
    ensures Splits(bs - {f}, f, bs[f], Claim(bs, f))
  {
    ClaimHole(bs, f, limit);
    hide WellFormed, Hole, Expand, Splits;
    ExpandSplits(bs - {f}, f, bs[f]);
  }

  lemma CoversOnce(bs: Blocks, limit: nat, g: nat, h: nat, x: nat)
    requires WellFormed(bs, limit) && Covers(bs, g, x) && Covers(bs, h, x)
    ensures g == h
  {
  }

  /** After a claim, a frame's block is the one it had, unless that was the claimed one; then it starts after it. */
  lemma ClaimMovesHeads(bs: Blocks, f: nat, limit: nat, h: nat, x: nat)
    requires WellFormed(bs, limit) && f in bs && Covers(Claim(bs, f), h, x)
    ensures if Covers(bs, f, x) then f < h && f < x else Covers(bs, h, x) && h != f
  {
    ClaimHole(bs, f, limit);
    ExpandCovers(bs - {f}, f, bs[f], h, x);
    if Covers(bs - {f}, h, x) {
      assert Covers(bs, h, x);
    }
  }

  // ---- Which frames an ascending request gets ----

  ghost predicate HeadFrom(bs: Blocks, x: nat, from: nat) {
    exists h: nat :: Covers(bs, h, x) && h >= from
  }

  /** One frame fewer is free. */
  lemma FreeFramesLess(bs: Blocks, bs': Blocks, limit: nat, f: nat)
    requires f < limit && Free(bs, f) && forall x :: Free(bs', x) <==> Free(bs, x) && x != f
    ensures |FreeFrames(bs', limit)| == |FreeFrames(bs, limit)| - 1
  {
    hide Free;
    assert FreeFrames(bs', limit) == FreeFrames(bs, limit) - {f};
  }

  lemma NoFreeFrames(limit: nat)
    ensures FreeFrames(map[], limit) == {}
  {
  }

  /** The blocks after trying to claim every frame of [a, f), in order. */
  function ClaimRange(bs: Blocks, a: nat, f: nat): Blocks
    requires a <= f
    decreases f - a
  {
    if f == a then bs else Claim(ClaimRange(bs, a, f - 1), f - 1)
  }

  /** From `f` on, what is free is what was; and a block starts at `f` or later just where one started at `a` or later. */
  lemma {:induction false} ClaimRangeKeeps(bs: Blocks, limit: nat, a: nat, f: nat, x: nat)
    requires WellFormed(bs, limit) && a <= f <= x
    ensures WellFormed(ClaimRange(bs, a, f), limit)
    ensures Free(ClaimRange(bs, a, f), x) <==> Free(bs, x)
    ensures HeadFrom(ClaimRange(bs, a, f), x, f) <==> HeadFrom(bs, x, a)
    decreases f - a
  {
    if a < f {
      var before := ClaimRange(bs, a, f - 1);
      ClaimRangeKeeps(bs, limit, a, f - 1, x);
      ClaimWellFormed(before, f - 1, limit);
      ClaimStep(before, limit, f - 1, x);
    }
  }

  lemma ClaimStep(bs: Blocks, limit: nat, f: nat, x: nat)
    requires WellFormed(bs, limit) && f < x
    ensures Free(Claim(bs, f), x) <==> Free(bs, x)
    ensures HeadFrom(Claim(bs, f), x, f + 1) <==> HeadFrom(bs, x, f)
  {
    if f in bs {
      ClaimTakesOne(bs, f, limit, x);
      if HeadFrom(Claim(bs, f), x, f + 1) {
        var h: nat :| Covers(Claim(bs, f), h, x) && h >= f + 1;
        ClaimMovesHeads(bs, f, limit, h, x);
        assert Covers(bs, h, x) || Covers(bs, f, x);
      }
      if HeadFrom(bs, x, f) {
        var h: nat :| Covers(bs, h, x) && h >= f;
        var g: nat :| Covers(Claim(bs, f), g, x);
        ClaimMovesHeads(bs, f, limit, g, x);
        if !Covers(bs, f, x) {
          CoversOnce(bs, limit, g, h, x);
        }
      }
    } else if HeadFrom(bs, x, f) {
      var h: nat :| Covers(bs, h, x) && h >= f;
      assert h >= f + 1;
    }
  }

  /**
   The claimed set of an ascending contiguous request [a, b): a frame of it is claimed exactly when
   its free block, as it stood before the request, starts at `a` or later.
   */
  lemma RangeClaims(bs: Blocks, limit: nat, a: nat, x: nat)
    requires WellFormed(bs, limit) && a <= x
    ensures x in ClaimRange(bs, a, x) <==> HeadFrom(bs, x, a)
  {
    var now := ClaimRange(bs, a, x);
    ClaimRangeKeeps(bs, limit, a, x, x);
    if x in now {
      assert Covers(now, x, x);
    }
    if HeadFrom(now, x, x) {
      var h: nat :| Covers(now, h, x) && h >= x;
      assert h == x;
    }
  }

  /** In particular a whole free block inside the request is claimed completely. */
  lemma WholeBlockClaimed(bs: Blocks, limit: nat, a: nat, h: nat, x: nat)
    requires WellFormed(bs, limit) && a <= h && Covers(bs, h, x)
    ensures x in ClaimRange(bs, a, x)
  {
    assert HeadFrom(bs, x, a);
    RangeClaims(bs, limit, a, x);
  }

  // ---- is_free_buddy_page ----

  /** The first frame of the block of order `o` that `x` would belong to. */
  function HeadAt(x: nat, o: nat): nat {
    Arith.ModuloAtMost(x, Pow2(o));
    x - x % Pow2(o)
  }

  /** The kernel's test whether a frame lies anywhere in a free block. */
  predicate IsFreeBuddyPage(bs: Blocks, x: nat) {
    exists o :: 0 <= o < ORDERS && HeadAt(x, o) in bs && bs[HeadAt(x, o)] >= o
  }

  lemma {:induction false} Pow2Monotone(a: nat, b: nat)
    requires a <= b
    ensures Pow2(a) <= Pow2(b)
  {
    if a < b {
      Pow2Monotone(a, b - 1);
    }
  }

  lemma IsFreeBuddyPageIffFree(bs: Blocks, limit: nat, x: nat)
    requires WellFormed(bs, limit)
    ensures IsFreeBuddyPage(bs, x) <==> Free(bs, x)
  {
    if IsFreeBuddyPage(bs, x) {
      var o :| 0 <= o < ORDERS && HeadAt(x, o) in bs && bs[HeadAt(x, o)] >= o;
      Pow2Monotone(o, bs[HeadAt(x, o)]);
      assert Covers(bs, HeadAt(x, o), x);
    }
    if Free(bs, x) {
      var h: nat :| Covers(bs, h, x);
      AlignedHead(h, x, Pow2(bs[h]));
      assert HeadAt(x, bs[h]) == h;
    }
  }

  lemma AlignedHead(h: nat, x: nat, p: nat)
    requires p > 0 && h % p == 0 && h <= x < h + p
    ensures x - x % p == h
  {
    var q := h / p;
    Arith.QuotientBounds(h, p);
    assert x == q * p + (x - h);
    Arith.DivisionUnique(x, p, q, x - h);
  }

  // ---- Accounting ----

  /** The frames in the free lists by their counts: the sum of 2^order times count. */
  function Weighted(counts: seq<int>): int {
    if counts == [] then 0 else Weighted(counts[..|counts| - 1]) + counts[|counts| - 1] * Pow2(|counts| - 1)
  }

  lemma {:induction false} WeightedUpdate(counts: seq<int>, o: nat, d: int)
    requires o < |counts|
    ensures Weighted(counts[o := counts[o] + d]) == Weighted(counts) + d * Pow2(o)
  {
    var n := |counts| - 1;
    var counts' := counts[o := counts[o] + d];
    if o < n {
      WeightedUpdate(counts[..n], o, d);
      assert counts'[..n] == counts[..n][o := counts[o] + d];
    } else {
      assert counts'[..n] == counts[..n];
      assert (counts[o] + d) * Pow2(o) == counts[o] * Pow2(o) + d * Pow2(o);
    }
  }
}
