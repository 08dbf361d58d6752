/** What the page-table driver is for: `mmu_assign` and `mmu_remove` as updates of a map from pages to entries, and
    the shape of the tree that follows from it. Whole runs are in module Runs. */
module Spaces {
  import opened Words
  import opened Entries
  import opened Paging
  import opened Walk
  import opened Tables
  import opened Effects

  /** The pages [a, b) now hold what e writes, every other page what it held, and exactly the tables of their paths
      were added. */
  ghost predicate Assigned(m0: Mem, m1: Mem, e: LeafEdit, h: u64, a: nat, b: nat)
    ensures Assigned(m0, m1, e, h, a, b) ==> Inv(m1)
  {
    && Inv(m1) && Kept(m0, m1) && SameFrames(m0, m1)
    && m1.tabs.Keys == m0.tabs.Keys + Needed(0, a, b)
    && Edited(e, h, m0, m1, a, b)
  }

  /** The pages [a, b) are unmapped, every other page is as it was, and of the tables of their paths only those with
      an entry in use are left. */
  ghost predicate Removed(m0: Mem, m1: Mem, h: u64, a: nat, b: nat)
    ensures Removed(m0, m1, h, a, b) ==> Inv(m1)
  {
    && Inv(m1) && Kept(m0, m1) && SameFrames(m0, m1)
    && Collected(m0, m1, Needed(0, a, b))
    && Edited(Clear, h, m0, m1, a, b)
  }

  lemma AssignPasses(m0: Mem, m1: Mem, m2: Mem, e: LeafEdit, h: u64, a: nat, b: nat)
    requires Effect(Reserve, h, m0, m1, 0, a, b) && Effect(Edit(e), h, m1, m2, 0, a, b)
    ensures Assigned(m0, m2, e, h, a, b)
  {
    KeptTrans(m0, m1, m2);
    hide Inv, Kept, LeafWord, Leaf;
    forall v: nat ensures Leaf(m2, v) == if a <= v < b then LeafWord(e, PageAt(h, v)) else Leaf(m0, v) {
      assert Leaf(m1, v) == Leaf(m0, v);
    }
  }

  lemma RemovePasses(m0: Mem, m1: Mem, m2: Mem, h: u64, a: nat, b: nat)
    requires Effect(Edit(Clear), h, m0, m1, 0, a, b) && Effect(Collect, h, m1, m2, 0, a, b)
    ensures Removed(m0, m2, h, a, b)
  {
    KeptTrans(m0, m1, m2);
    hide Inv, Kept, LeafWord, Leaf, NonEmpty;
    forall v: nat ensures Leaf(m2, v) == if a <= v < b then LeafWord(Clear, PageAt(h, v)) else Leaf(m0, v) {
      assert Leaf(m2, v) == Leaf(m1, v);
    }
  }

  /** The tables an edit needs are there once they were reserved. */
  lemma ReservedReady(h: u64, m0: Mem, m1: Mem, e: LeafEdit, a: nat, b: nat)
    requires Effect(Reserve, h, m0, m1, 0, a, b) && WordsOk(e, h, a, b)
    ensures Ready(Edit(e), h, m1, 0, a, b)
  {
    hide Inv, Kept, LeafWord, Leaf, LeafOk;
  }

  // ------------------------------------------------------------------ accepted ranges

  const MMU_HIGHER_HALF_MIN: u64 := 0xffff_8000_0000_0000

  /** `mmu_is_canonical_address` (lines 30-35). */
  predicate IsCanonical(address: u64) {
    var x := BitAnd(address, MMU_HIGHER_HALF_MIN);
    x == 0 || x == MMU_HIGHER_HALF_MIN
  }

  /** The checks of `apply_nodes_entry` on a range (lines 252-265). */
  predicate Accepted(start: u64, end: u64) {
    && start % 4096 == 0 && end % 4096 == 0
    && start < end
    && IsCanonical(start)
    && BitAnd(start, MMU_HIGHER_HALF_MIN) == BitAnd(end, MMU_HIGHER_HALF_MIN)
  }

  /** The half an address lies in, by the base of its page numbers. */
  function HalfOf(address: u64): u64 {
    if address < 0x8000_0000_0000 then 0 else HIGHER_BASE
  }

  /** The 36-bit page number of an address. */
  function PageNumber(address: u64): nat {
    address / 4096 % 0x10_0000_0000
  }

  /** `x & MMU_HIGHER_HALF_MIN` in arithmetic: the top 17 bits. */
  lemma TopBits(x: u64)
    ensures BitAnd(x, MMU_HIGHER_HALF_MIN) == x / 0x8000_0000_0000 * 0x8000_0000_0000
  {
    PowerValues();
    FieldMask(47, 17, x);
  }

  /** An address is canonical exactly when its top 17 bits are equal: it lies in one of the two halves. */
  lemma CanonicalHalves(address: u64)
    ensures IsCanonical(address) <==> address < 0x8000_0000_0000 || address >= MMU_HIGHER_HALF_MIN
  {
    hide BitAnd;
    TopBits(address);
    var q := address / 0x8000_0000_0000;
    assert 0x8000_0000_0000 * q <= address < 0x8000_0000_0000 * q + 0x8000_0000_0000;
  }

  /** An accepted range lies in one half; all its addresses are canonical; its pages are consecutive. */
  lemma AcceptedPages(start: u64, end: u64)
    requires Accepted(start, end)
    ensures var h, a, b := HalfOf(start), PageNumber(start), PageNumber(end);
      && start == h + 4096 * a && end == h + 4096 * b && a < b
      && (h == 0 ==> b < 0x8_0000_0000) && (h != 0 ==> 0x8_0000_0000 <= a && b < 0x10_0000_0000)
    ensures forall x: u64 :: start <= x < end ==> IsCanonical(x)
  {
    SameHalf(start, end);
    hide Accepted, IsCanonical;
    forall x: u64 | start <= x < end ensures IsCanonical(x) { CanonicalHalves(x); }
    PageNumberOf(start);
    PageNumberOf(end);
  }

  lemma SameHalf(start: u64, end: u64)
    requires Accepted(start, end)
    ensures start < end && start % 4096 == 0 && end % 4096 == 0
    ensures end < 0x8000_0000_0000 || MMU_HIGHER_HALF_MIN <= start
  {
    TopBits(start);
    TopBits(end);
    hide BitAnd;
  }

  /** The checks of `apply_nodes_entry` as numbers. */
  lemma AcceptedExactly(start: u64, end: u64)
    ensures Accepted(start, end) <==>
            && start % 4096 == 0 && end % 4096 == 0 && start < end
            && (end < 0x8000_0000_0000 || 0xffff_8000_0000_0000 <= start)
  {
    TopBits(start);
    TopBits(end);
    CanonicalHalves(start);
    hide BitAnd, IsCanonical;
  }

  lemma PageNumberOf(x: u64)
    requires x % 4096 == 0 && (x < 0x8000_0000_0000 || MMU_HIGHER_HALF_MIN <= x)
    ensures x == HalfOf(x) + 4096 * PageNumber(x)
    ensures x < 0x8000_0000_0000 ==> PageNumber(x) < 0x8_0000_0000
    ensures x >= MMU_HIGHER_HALF_MIN ==> 0x8_0000_0000 <= PageNumber(x) < 0x10_0000_0000
  {
  }

  // ------------------------------------------------------------------ the last slot of the root

  /** The walker gives slot i of the root the part of [start, end) that lies in the slot. */
  ghost predicate RootBlockOk(start: u64, end: u64, i: nat)
    requires i < 512
  {
    var lo, hi := HalfOf(start) + 0x80_0000_0000 * i, HalfOf(start) + 0x80_0000_0000 * (i + 1);
    && BlkStart(start, i, 0) == (if start < lo then lo else start)
    && BlkEnd(start, end, i, 0) == (if end < hi then end else hi)
  }

  /** The end of the last slot is 2^64, which wraps to 0: the walker treats an accepted range as the source intends
      exactly when the range stays out of the last slot of the root. */
  lemma RootBlocksExact(start: u64, end: u64)
    requires Accepted(start, end)
    ensures EndIdx(start, end, 0) <= 512
    ensures (forall i: nat :: StartIdx(start, 0) <= i < EndIdx(start, end, 0) ==> RootBlockOk(start, end, i))
            <==> end <= 0xffff_ff80_0000_0000
  {
    AcceptedPages(start, end);
    var h, a, b := HalfOf(start), PageNumber(start), PageNumber(end);
    if end <= 0xffff_ff80_0000_0000 {
      InnerRange(start, end, h, a, b);
    } else {
      LastSlot(start, end);
      assert !RootBlockOk(start, end, 511);
    }
  }

  lemma InnerRange(start: u64, end: u64, h: u64, a: nat, b: nat)
    requires Accepted(start, end) && end <= 0xffff_ff80_0000_0000
    requires h == HalfOf(start) && a == PageNumber(start) && b == PageNumber(end)
    ensures InTable(h, 0, a, b) && start == h + 4096 * a && end == h + 4096 * b
    ensures EndIdx(start, end, 0) <= 512
    ensures forall i: nat :: StartIdx(start, 0) <= i < EndIdx(start, end, 0) ==> RootBlockOk(start, end, i)
  {
    AcceptedPages(start, end);
    IndicesAre(h, 0, a, b, start, end);
    hide Accepted, StartIdx, EndIdx, BlkStart, BlkEnd, HalfOf, PageNumber, Index, Prefix, FirstPage, BlockFrom, BlockTo;
    forall i: nat | StartIdx(start, 0) <= i < EndIdx(start, end, 0) ensures RootBlockOk(start, end, i) {
      BlocksAre(h, 0, a, b, start, end, i);
      RootSlotPages(a, b, i);
    }
  }

  lemma RootSlotPages(a: nat, b: nat, i: nat)
    requires a < b <= 0x10_0000_0000
    ensures Prefix(0, a) == 0
    ensures 4096 * BlockFrom(0, 0, i, a) == if 4096 * a < 0x80_0000_0000 * i then 0x80_0000_0000 * i else 4096 * a
    ensures 4096 * BlockTo(0, 0, i, b) ==
            if 4096 * b < 0x80_0000_0000 * (i + 1) then 4096 * b else 0x80_0000_0000 * (i + 1)
  {
  }

  lemma LastSlot(start: u64, end: u64)
    requires Accepted(start, end) && end > 0xffff_ff80_0000_0000
    ensures StartIdx(start, 0) <= 511 && EndIdx(start, end, 0) == 512 && HalfOf(start) == HIGHER_BASE
    ensures BlkStart(start, 511, 0) == if start < 0xffff_ff80_0000_0000 then 0xffff_ff80_0000_0000 else start
    ensures BlkEnd(start, end, 511, 0) == 0
  {
    AcceptedPages(start, end);
    var h, a := HalfOf(start), PageNumber(start);
    assert h == HIGHER_BASE && start == h + 4096 * a && a < 0x10_0000_0000;
    hide Accepted, HalfOf, PageNumber, StartIdx, EndIdx, BlkStart, BlkEnd;
    LastIndices(a, start, end);
    LastBlock(a, start, end);
  }

  lemma LastIndices(a: nat, start: u64, end: u64)
    requires a < 0x10_0000_0000 && start == HIGHER_BASE + 4096 * a && end > 0xffff_ff80_0000_0000
    ensures StartIdx(start, 0) <= 511 && EndIdx(start, end, 0) == 512
  {
    BaseIs(HIGHER_BASE, 0, a, start);
    RoundedStart(HIGHER_BASE, 0, a, start);
    RoundUpSlot(0, end);
    assert Prefix(0, a) == 0 && Prefix(1, a) <= 511;
    hide WalkBase, RoundDownP2, RoundUpP2, Shr64, Sub64, Prefix;
    SlotNumber(HIGHER_BASE, 0, 0, Prefix(1, a), RoundDownP2(start, SlotSize(0)), WalkBase(start, 0));
    LastEnd(RoundUpP2(end, SlotSize(0)), WalkBase(start, 0));
  }

  lemma LastBlock(a: nat, start: u64, end: u64)
    requires a < 0x10_0000_0000 && start == HIGHER_BASE + 4096 * a
    ensures BlkStart(start, 511, 0) == if start < 0xffff_ff80_0000_0000 then 0xffff_ff80_0000_0000 else start
    ensures BlkEnd(start, end, 511, 0) == 0
  {
    BaseIs(HIGHER_BASE, 0, a, start);
    assert Prefix(0, a) == 0;
    hide WalkBase, Shl64, Add64, Prefix;
    LastEdges();
  }

  lemma LastEdges()
    ensures Add64(Shl64(511, DepthShift(0)), HIGHER_BASE) == 0xffff_ff80_0000_0000
    ensures Add64(Shl64(512, DepthShift(0)), HIGHER_BASE) == 0
  {
    hide Shl64, Add64;
    ShiftSlot(0, 511);
    ShiftSlot(0, 512);
    WrappedSum(0xff80_0000_0000, HIGHER_BASE);
    WrappedSum(0x1_0000_0000_0000, HIGHER_BASE);
  }

  lemma WrappedSum(x: u64, y: u64)
    ensures Add64(x, y) == if x + y < 0x1_0000_0000_0000_0000 then x + y else x + y - 0x1_0000_0000_0000_0000
  {
  }

  /** The rounded end of the last slot of the root is 0, 512 slots above the base of the half. */
  lemma LastEnd(end: u64, base: u64)
    requires end == 0 && base == HIGHER_BASE
    ensures Shr64(Sub64(end, base), DepthShift(0)) == 512
  {
    Borrow(base);
    ShiftSlot(0, Sub64(end, base));
    hide Shr64, Sub64;
  }

  /** A one-page range in the kernel's own slot, as in memory_map.md: the child range comes out as ending at 0. */
  lemma LastSlotExample()
    ensures var start, end := 0xffff_ffff_c000_0000, 0xffff_ffff_c000_1000;
      Accepted(start, end) && !RootBlockOk(start, end, 511) && BlkEnd(start, end, 511, 0) == 0
  {
    hide BitAnd, BlkEnd, BlkStart, StartIdx, EndIdx;
    var start: u64, end: u64 := 0xffff_ffff_c000_0000, 0xffff_ffff_c000_1000;
    TopBits(start);
    TopBits(end);
    assert start / 0x8000_0000_0000 == 0x1_ffff && end / 0x8000_0000_0000 == 0x1_ffff;
    assert Accepted(start, end);
    LastSlot(start, end);
  }

  // ------------------------------------------------------------------ the shape of the tree

  /** No table but the root is without a present entry. */
  ghost predicate Canonical(m: Mem) {
    forall k :: k in m.tabs && k != ROOT ==> NonEmpty(m, k)
  }

  /** Some page of the block named k is mapped. */
  ghost predicate Used(m: Mem, k: Key)
    requires k.d <= 4
  {
    exists v: nat :: Prefix(k.d, v) == k.p && Leaf(m, v) != 0
  }

  /** A present entry of a table leads to a mapped page. */
  lemma {:induction false} NonEmptyUsed(m: Mem, k: Key)
    requires Inv(m) && Canonical(m) && k in m.tabs && NonEmpty(m, k)
    ensures k.d <= 3 && Used(m, k)
    decreases 3 - k.d
  {
    assert k.d <= 3;
    var i :| 0 <= i < 512 && Present(Slot(m, k, i));
    ZeroEntry();
    hide Used, Present, Housed, LeavesOk, TableEntry, Slot;
    if k.d == 3 {
      LeafUsed(m, k, i);
    } else {
      var c := Child(k, i);
      assert Slot(m, k, i) == LinkWord(m, c);
      assert c in m.tabs && c != ROOT;
      NonEmptyUsed(m, c);
      UsedAbove(m, k, i);
    }
  }

  lemma LeafUsed(m: Mem, k: Key, i: nat)
    requires k.d == 3 && i < 512 && Slot(m, k, i) != 0
    ensures Used(m, k)
  {
    var v := 512 * k.p + i;
    assert Prefix(3, v) == k.p && v % 512 == i;
    hide Slot;
    assert Leaf(m, v) == Slot(m, k, i);
  }

  lemma UsedAbove(m: Mem, k: Key, i: nat)
    requires k.d <= 3 && i < 512 && Used(m, Child(k, i))
    ensures Used(m, k)
  {
  }

  /** A mapped page has a table at every depth of its path. */
  lemma MappedPath(m: Mem, d: nat, v: nat)
    requires Inv(m) && d <= 3 && Leaf(m, v) != 0
    ensures Key(d, Prefix(d, v)) in m.tabs
  {
  }

  /** In a canonical tree a table below the root exists for a block exactly when some page of the block is mapped. */
  lemma ShapeFollowsPages(m: Mem, k: Key)
    requires Inv(m) && Canonical(m) && 0 < k.d <= 3
    ensures k in m.tabs <==> Used(m, k)
  {
    if k in m.tabs {
      NonEmptyUsed(m, k);
    }
    if Used(m, k) {
      var v: nat :| Prefix(k.d, v) == k.p && Leaf(m, v) != 0;
      MappedPath(m, k.d, v);
    }
  }

  lemma UsedSame(m0: Mem, m1: Mem, k: Key)
    requires SameLeaves(m0, m1) && k.d <= 4
    ensures Used(m0, k) <==> Used(m1, k)
  {
  }

  /** Two canonical trees that map the same pages have the same tables. */
  lemma SamePagesSameShape(m0: Mem, m1: Mem)
    requires Inv(m0) && Canonical(m0) && Inv(m1) && Canonical(m1) && SameLeaves(m0, m1)
    ensures m0.tabs.Keys == m1.tabs.Keys
  {
    forall k ensures k in m0.tabs <==> k in m1.tabs {
      if 0 < k.d <= 3 {
        ShapeFollowsPages(m0, k);
        ShapeFollowsPages(m1, k);
        UsedSame(m0, m1, k);
      }
    }
  }

  lemma PresentNotZero(w: u64)
    requires LeafOk(w) && w != 0
    ensures Present(w)
  {
  }

  /** A table on the path of a mapped page has a present entry. */
  lemma PathNonEmpty(m: Mem, d: nat, v: nat)
    requires Inv(m) && d <= 3 && Leaf(m, v) != 0
    ensures Key(d, Prefix(d, v)) in m.tabs && NonEmpty(m, Key(d, Prefix(d, v)))
  {
    var k, i := Key(d, Prefix(d, v)), Index(d, v);
    MappedPath(m, d, v);
    PrefixStep(d, v);
    if d == 3 {
      assert Slot(m, k, i) == Leaf(m, v);
      assert LeafOk(Slot(m, k, i));
      PresentNotZero(Slot(m, k, i));
    } else {
      MappedPath(m, d + 1, v);
      assert Child(k, i) in m.tabs;
      assert Slot(m, k, i) == LinkWord(m, Child(k, i));
      assert GoodFrame(m, m.tabs[Child(k, i)]);
      TableEntryFields(m.tabs[Child(k, i)]);
    }
  }

  /** A table untouched by an assignment keeps a present entry. */
  lemma AssignKeepsNonEmpty(m0: Mem, m1: Mem, e: LeafEdit, h: u64, a: nat, b: nat, k: Key)
    requires Inv(m0) && Assigned(m0, m1, e, h, a, b) && k in m0.tabs && NonEmpty(m0, k) && k !in Needed(0, a, b)
               && k != ROOT
    ensures NonEmpty(m1, k)
  {
    var i :| 0 <= i < 512 && Present(Slot(m0, k, i));
    ZeroEntry();
    if k.d == 3 {
      var v := 512 * k.p + i;
      assert Prefix(3, v) == k.p && v % 512 == i;
      WitnessMeets(3, v, a, b);
      assert Leaf(m1, v) == Leaf(m0, v);
      assert Leaf(m0, v) == Slot(m0, k, i) && Leaf(m1, v) == Slot(m1, k, i);
    } else {
      assert Slot(m0, k, i) == LinkWord(m0, Child(k, i));
      assert Slot(m1, k, i) == LinkWord(m1, Child(k, i));
      assert GoodFrame(m1, m1.tabs[Child(k, i)]);
      TableEntryFields(m1.tabs[Child(k, i)]);
    }
  }

  /** Assigning present entries keeps the tree canonical. */
  lemma AssignCanonical(m0: Mem, m1: Mem, e: LeafEdit, h: u64, a: nat, b: nat)
    requires Inv(m0) && Canonical(m0) && Assigned(m0, m1, e, h, a, b)
    requires forall v :: a <= v < b ==> LeafWord(e, PageAt(h, v)) != 0
    ensures Canonical(m1)
  {
    hide Inv, LeafWord, Leaf, NonEmpty, Kept;
    forall k | k in m1.tabs && k != ROOT ensures NonEmpty(m1, k) {
      if k in Needed(0, a, b) {
        var v := MeetsWitness(k, a, b);
        assert Leaf(m1, v) == LeafWord(e, PageAt(h, v));
        PathNonEmpty(m1, k.d, v);
      } else {
        AssignKeepsNonEmpty(m0, m1, e, h, a, b, k);
      }
    }
  }

  /** A table off the removed range's paths keeps a present entry. */
  lemma RemoveKeepsNonEmpty(m0: Mem, m1: Mem, h: u64, a: nat, b: nat, k: Key)
    requires Inv(m0) && Removed(m0, m1, h, a, b) && k in m1.tabs && NonEmpty(m0, k) && k !in Needed(0, a, b)
               && k != ROOT
    ensures NonEmpty(m1, k)
  {
    var i :| 0 <= i < 512 && Present(Slot(m0, k, i));
    ZeroEntry();
    if k.d == 3 {
      var v := 512 * k.p + i;
      assert Prefix(3, v) == k.p && v % 512 == i;
      WitnessMeets(3, v, a, b);
      assert Leaf(m1, v) == Leaf(m0, v);
      assert Leaf(m0, v) == Slot(m0, k, i) && Leaf(m1, v) == Slot(m1, k, i);
    } else {
      var c := Child(k, i);
      assert Slot(m0, k, i) == LinkWord(m0, c);
      assert c in m0.tabs && c.d <= 3;
      MeetsChild(k, i, a, b);
      assert Slot(m1, k, i) == LinkWord(m1, c);
      assert GoodFrame(m1, m1.tabs[c]);
      TableEntryFields(m1.tabs[c]);
    }
  }

  /** Removing keeps the tree canonical: the sweep leaves no empty table behind. */
  lemma RemoveCanonical(m0: Mem, m1: Mem, h: u64, a: nat, b: nat)
    requires Inv(m0) && Canonical(m0) && Removed(m0, m1, h, a, b)
    ensures Canonical(m1)
  {
    hide Inv, Leaf, NonEmpty, Kept;
    forall k | k in m1.tabs && k != ROOT ensures NonEmpty(m1, k) {
      if k !in Needed(0, a, b) {
        RemoveKeepsNonEmpty(m0, m1, h, a, b, k);
      }
    }
  }
}
