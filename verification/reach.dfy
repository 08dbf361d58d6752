/** The pages a walk of `apply_nodes` reaches by its own 64-bit arithmetic, whatever the tables hold: for which ranges
    they are the pages of the range, with every index inside its table. */
module Reach {
  import opened Words
  import opened Paging
  import opened Walk
  import opened Spaces

  /** The walk of [start, end) from a table of depth d calls the leaf callback at address x. */
  ghost predicate Reaches(start: u64, end: u64, d: nat, x: u64)
    requires d <= 4
    decreases 4 - d
  {
    if d == 4 then x == start
    else exists i: u64 :: Into(start, end, d, i) && Reaches(BlkStart(start, i, d), BlkEnd(start, end, i, d), d + 1, x)
  }

  /** Entry i is visited by the loop of the walk. */
  ghost predicate Into(start: u64, end: u64, d: nat, i: u64)
    requires d <= 3
    ensures Into(start, end, d, i) ==> i < 0xffff_ffff_ffff_ffff
  {
    StartIdx(start, d) <= i < EndIdx(start, end, d)
  }

  /** Every entry the walk visits lies inside its table. */
  ghost predicate Indexed(start: u64, end: u64, d: nat)
    requires d <= 4
    decreases 4 - d
  {
    d < 4 ==>
      forall i: u64 :: Into(start, end, d, i) ==>
        i < 512 && Indexed(BlkStart(start, i, d), BlkEnd(start, end, i, d), d + 1)
  }

  /** x is a page of [start, end). */
  predicate PageIn(start: u64, end: u64, x: u64) {
    start <= x < end && x % 4096 == 0
  }

  // ------------------------------------------------------------------ below the last slot

  lemma IndexBetween(d: nat, a: nat, b: nat, v: nat)
    requires d <= 3 && a <= v < b && Prefix(d, a) == Prefix(d, b - 1)
    ensures Index(d, a) <= Index(d, v) <= Index(d, b - 1) && Prefix(d, v) == Prefix(d, a)
  {
    hide Prefix;
    PrefixMonotone(d, a, v);
    PrefixMonotone(d, v, b - 1);
    PrefixMonotone(d + 1, a, v);
    PrefixMonotone(d + 1, v, b - 1);
    PrefixStep(d, a);
    PrefixStep(d, v);
    PrefixStep(d, b - 1);
  }

  /** Exactly one entry of the loop has page v on its path. */
  lemma EntryOf(d: nat, a: nat, b: nat, v: nat, i: nat)
    requires d <= 3 && a <= v < b && Prefix(d, a) == Prefix(d, b - 1)
    ensures BlockFrom(d, Prefix(d, a), i, a) <= v < BlockTo(d, Prefix(d, a), i, b) <==>
              512 * Prefix(d, a) + i == Prefix(d + 1, v)
  {
    hide Prefix, FirstPage;
    InBlock(d + 1, 512 * Prefix(d, a) + i, v);
  }

  /** The walk of [start, end) from depth d reaches exactly the pages of the range. */
  ghost predicate Exact(start: u64, end: u64, d: nat)
    requires d <= 4
  {
    forall x: u64 :: Reaches(start, end, d, x) <==> PageIn(start, end, x)
  }

  /** The part of the walk below entry i is right, and within [start, end). */
  ghost predicate PartRight(start: u64, end: u64, d: nat, i: u64)
    requires d <= 3 && i < 0xffff_ffff_ffff_ffff
  {
    var s, e := BlkStart(start, i, d), BlkEnd(start, end, i, d);
    i < 512 && start <= s && e <= end && Indexed(s, e, d + 1) && Exact(s, e, d + 1)
  }

  /** Some part of the walk has page x. */
  ghost predicate Covered(start: u64, end: u64, d: nat, x: u64)
    requires d <= 3
  {
    exists i: u64 :: Into(start, end, d, i) && PageIn(BlkStart(start, i, d), BlkEnd(start, end, i, d), x)
  }

  /** Right parts that have all the pages make a right walk. */
  lemma PartsMakeWalk(start: u64, end: u64, d: nat)
    requires d <= 3
    requires forall i: u64 :: Into(start, end, d, i) ==> PartRight(start, end, d, i)
    requires forall x: u64 :: PageIn(start, end, x) ==> Covered(start, end, d, x)
    ensures Indexed(start, end, d) && Exact(start, end, d)
  {
    hide StartIdx, EndIdx, BlkStart, BlkEnd;
    forall x: u64 ensures Reaches(start, end, d, x) <==> PageIn(start, end, x) {
      if PageIn(start, end, x) {
        var i: u64 :| Into(start, end, d, i) && PageIn(BlkStart(start, i, d), BlkEnd(start, end, i, d), x);
        assert PartRight(start, end, d, i);
      }
      if Reaches(start, end, d, x) {
        var i: u64 :| Into(start, end, d, i) && Reaches(BlkStart(start, i, d), BlkEnd(start, end, i, d), d + 1, x);
        assert PartRight(start, end, d, i);
      }
    }
  }

  /** A walk that ends before the last slot of the root stays in its tables and reaches exactly its pages. */
  lemma {:induction false} InnerWalk(h: u64, d: nat, a: nat, b: nat, start: u64, end: u64)
    requires Half(h) && d <= 4 && a < b <= 0xf_f800_0000 && Prefix(d, a) == Prefix(d, b - 1)
    requires start == h + 4096 * a && end == h + 4096 * b
    ensures Indexed(start, end, d) && Exact(start, end, d)
    decreases 4 - d
  {
    hide Prefix, FirstPage, StartIdx, EndIdx, BlkStart, BlkEnd, BlockFrom, BlockTo, PageIn, PartRight, Covered;
    if d == 4 {
      LastWalk(h, a, b, start, end);
    } else {
      forall i: u64 | Into(start, end, d, i) ensures PartRight(start, end, d, i) {
        InnerPart(h, d, a, b, start, end, i);
        InnerWalk(h, d + 1, BlockFrom(d, Prefix(d, a), i, a), BlockTo(d, Prefix(d, a), i, b), BlkStart(start, i, d),
          BlkEnd(start, end, i, d));
        PartIsRight(start, end, d, i);
      }
      forall x: u64 | PageIn(start, end, x) ensures Covered(start, end, d, x) {
        var v := PageNumbered(h, a, b, start, end, x);
        EntryReached(h, d, a, b, start, end, x, v);
      }
      PartsMakeWalk(start, end, d);
    }
  }

  lemma LastWalk(h: u64, a: nat, b: nat, start: u64, end: u64)
    requires Half(h) && a < b && Prefix(4, a) == Prefix(4, b - 1) && start == h + 4096 * a && end == h + 4096 * b
    ensures Indexed(start, end, 4) && Exact(start, end, 4)
  {
    OnePage(h, a, start, end);
  }

  lemma PartIsRight(start: u64, end: u64, d: nat, i: u64)
    requires d <= 3 && i < 512 && start <= BlkStart(start, i, d) && BlkEnd(start, end, i, d) <= end
    requires Indexed(BlkStart(start, i, d), BlkEnd(start, end, i, d), d + 1)
    requires Exact(BlkStart(start, i, d), BlkEnd(start, end, i, d), d + 1)
    ensures PartRight(start, end, d, i)
  {
  }

  lemma OnePage(h: u64, a: nat, start: u64, end: u64)
    requires start == h + 4096 * a && end == h + 4096 * (a + 1) && Half(h)
    ensures forall x: u64 :: PageIn(start, end, x) <==> x == start
  {
  }

  lemma PageNumbered(h: u64, a: nat, b: nat, start: u64, end: u64, x: u64) returns (v: nat)
    requires Half(h) && start == h + 4096 * a && end == h + 4096 * b && PageIn(start, end, x)
    ensures a <= v < b && x == h + 4096 * v
  {
    v := (x - h) / 4096;
  }

  lemma PageBetween(h: u64, f: nat, t: nat, v: nat, start: u64, end: u64, x: u64)
    requires Half(h) && start == h + 4096 * f && end == h + 4096 * t && x == h + 4096 * v && f <= v < t
    ensures PageIn(start, end, x)
  {
  }

  /** The child range of entry i. */
  lemma InnerPart(h: u64, d: nat, a: nat, b: nat, start: u64, end: u64, i: u64)
    requires InTable(h, d, a, b) && start == h + 4096 * a && end == h + 4096 * b && Into(start, end, d, i)
    ensures i < 512 && start <= BlkStart(start, i, d) && BlkEnd(start, end, i, d) <= end
    ensures var f, t := BlockFrom(d, Prefix(d, a), i, a), BlockTo(d, Prefix(d, a), i, b);
      && f < t <= b && Prefix(d + 1, f) == Prefix(d + 1, t - 1)
      && BlkStart(start, i, d) == h + 4096 * f && BlkEnd(start, end, i, d) == h + 4096 * t
  {
    hide StartIdx, EndIdx, BlkStart, BlkEnd, BlockFrom, BlockTo, Prefix, Index;
    IndicesAre(h, d, a, b, start, end);
    BlockBounds(d, a, b, i);
    BlocksAre(h, d, a, b, start, end, i);
  }

  lemma EntryReached(h: u64, d: nat, a: nat, b: nat, start: u64, end: u64, x: u64, v: nat)
    requires InTable(h, d, a, b) && start == h + 4096 * a && end == h + 4096 * b && x == h + 4096 * v && a <= v < b
    ensures Covered(start, end, d, x)
  {
    hide StartIdx, EndIdx, BlkStart, BlkEnd, BlockFrom, BlockTo, Prefix, Index, PageIn;
    var i := Index(d, v);
    IndicesAre(h, d, a, b, start, end);
    IndexBetween(d, a, b, v);
    PrefixStep(d, v);
    EntryOf(d, a, b, v, i);
    BlocksAre(h, d, a, b, start, end, i);
    assert Into(start, end, d, i);
    PageBetween(h, BlockFrom(d, Prefix(d, a), i, a), BlockTo(d, Prefix(d, a), i, b), v, BlkStart(start, i, d),
      BlkEnd(start, end, i, d), x);
  }

  // ------------------------------------------------------------------ the last slot

  /** Where the last entry of the last table of a depth begins. */
  function LastEntry(d: nat): u64
    requires d <= 3
  {
    0x1_0000_0000_0000_0000 - SlotSize(d)
  }

  lemma LastBase(s: u64, d: nat)
    requires 1 <= d <= 3 && s >= LastEntry(d - 1)
    ensures WalkBase(s, d) == LastEntry(d - 1)
  {
    RoundDownSlot(d, s);
    hide RoundDownP2;
    var t: nat := TableSize(d);
    var q := if d == 1 then 0x1ff_ffff else if d == 2 then 0x3_ffff_ffff else 0x7ff_ffff_ffff;
    QuotientIs(s, t, q, s - LastEntry(d - 1));
  }

  lemma RoundUpZero(d: nat)
    requires d <= 3
    ensures RoundUpP2(0, SlotSize(d)) == 0
  {
    RoundUpSlot(d, 0);
    hide RoundUpP2;
    QuotientIs(SlotSize(d) - 1, SlotSize(d), 0, SlotSize(d) - 1);
  }

  /** The slot an address of the last table lies in. */
  lemma SlotInLast(s: u64, d: nat, base: u64)
    requires 1 <= d <= 3 && base == LastEntry(d - 1) <= s
    ensures Shr64(Sub64(RoundDownP2(s, SlotSize(d)), base), DepthShift(d)) <= 511
  {
    RoundDownSlot(d, s);
    hide RoundDownP2, Shr64;
    var x := RoundDownP2(s, SlotSize(d));
    AboveBase(s, d);
    NoBorrow(x, base);
    ShiftSlot(d, x - base);
    QuotientBelow(x - base, SlotSize(d), 512);
  }

  lemma AboveBase(s: u64, d: nat)
    requires 1 <= d <= 3 && s >= LastEntry(d - 1)
    ensures s - s % SlotSize(d) >= LastEntry(d - 1)
  {
    var p: nat, t := SlotSize(d), LastEntry(d - 1);
    var q := if d == 1 then 0x3_ffff_fe00 else if d == 2 then 0x7ff_ffff_fe00 else 0xf_ffff_ffff_fe00;
    assert t == q * p;
    hide *;
    Quotient(s, p);
    Multiples(s / p, q, p);
  }

  /** In the last table of a depth, with an end that wrapped to 0, the loop goes on to the last entry, and passes on
      the end 0. */
  lemma LastChild(s: u64, d: nat)
    requires 1 <= d <= 3 && s >= LastEntry(d - 1)
    ensures Into(s, 0, d, 511) && EndIdx(s, 0, d) == 512
    ensures BlkEnd(s, 0, 511, d) == 0 && BlkStart(s, 511, d) == if s < LastEntry(d) then LastEntry(d) else s
  {
    hide WalkBase, RoundDownP2, RoundUpP2, Shr64, Shl64, Sub64;
    LastBase(s, d);
    RoundUpZero(d);
    SlotInLast(s, d, WalkBase(s, d));
    Borrow(WalkBase(s, d));
    ShiftSlot(d, TableSize(d));
    ShiftSlot(d, 511);
    ShiftSlot(d, 512);
  }

  /** At the root the end wraps to 0 in the last slot. */
  lemma LastRootChild(start: u64, end: u64)
    requires Accepted(start, end) && end > 0xffff_ff80_0000_0000
    ensures Into(start, end, 0, 511) && BlkEnd(start, end, 511, 0) == 0
    ensures BlkStart(start, 511, 0) == if start < LastEntry(0) then LastEntry(0) else start
  {
    LastSlot(start, end);
    hide Accepted, StartIdx, EndIdx, BlkStart, BlkEnd, SlotSize;
    assert SlotSize(0) == 0x80_0000_0000;
  }

  /** The walk from the last entry of depth d - 1, with its end wrapped to 0. */
  lemma {:induction false} LastBelow(s: u64, d: nat)
    requires 1 <= d <= 4 && s >= LastEntry(d - 1) && (d == 4 ==> s == LastEntry(3)) && s <= LastEntry(3)
    ensures Reaches(s, 0, d, LastEntry(3))
    decreases 4 - d
  {
    hide StartIdx, EndIdx, BlkStart, BlkEnd;
    if d < 4 {
      LastChild(s, d);
      LastOrder(d);
      LastBelow(BlkStart(s, 511, d), d + 1);
      assert Into(s, 0, d, 511);
    }
  }

  lemma LastOrder(d: nat)
    requires d <= 3
    ensures LastEntry(d) <= LastEntry(3) == 0xffff_ffff_ffff_f000
  {
  }

  /** A range that reaches the last slot of the root makes the walk edit the last page of the address space, which
      lies outside the range. */
  lemma LastPageReached(start: u64, end: u64)
    requires Accepted(start, end) && end > 0xffff_ff80_0000_0000
    ensures Reaches(start, end, 0, LastEntry(3)) && !PageIn(start, end, LastEntry(3))
  {
    SameHalf(start, end);
    LastRootChild(start, end);
    hide Accepted, StartIdx, EndIdx, BlkStart, BlkEnd, Into;
    LastOrder(0);
    assert end <= LastEntry(3);
    LastBelow(BlkStart(start, 511, 0), 1);
  }

  /** The walk over an accepted range visits only entries inside their tables and reaches exactly the pages of the
      range if and only if the range stays out of the last slot of the root. */
  lemma WalkExact(start: u64, end: u64)
    requires Accepted(start, end)
    ensures Indexed(start, end, 0) && Exact(start, end, 0) <==> end <= 0xffff_ff80_0000_0000
  {
    if end <= 0xffff_ff80_0000_0000 {
      var h, a, b := HalfOf(start), PageNumber(start), PageNumber(end);
      InnerRange(start, end, h, a, b);
      RootSlotPages(a, b, 0);
      RootSlotPages(b - 1, b, 0);
      InnerWalk(h, 0, a, b, start, end);
    } else {
      LastPageReached(start, end);
    }
    hide *;
  }

  /** One page in the kernel's own slot, as in memory_map.md: the loop over a last-level table of 512 entries runs to
      index 0x3_ffff, and the last page of the address space is edited. */
  lemma WalkExample()
    ensures var start, end := 0xffff_ffff_c000_0000, 0xffff_ffff_c000_1000;
      && Accepted(start, end) && !Indexed(start, end, 0) && Reaches(start, end, 0, 0xffff_ffff_ffff_f000)
      && Into(start, end, 0, 511) && BlkStart(start, 511, 0) == start && BlkEnd(start, end, 511, 0) == 0
      && Into(start, 0, 1, 511) && BlkStart(start, 511, 1) == start && BlkEnd(start, 0, 511, 1) == 0
      && Into(start, 0, 2, 0) && BlkStart(start, 0, 2) == start && BlkEnd(start, 0, 0, 2) == 0
      && EndIdx(start, 0, 3) == 0x4_0000 && Into(start, 0, 3, 0x3_ffff)
  {
    hide Accepted, StartIdx, EndIdx, BlkStart, BlkEnd, Indexed, Reaches, LastEntry;
    var start: u64, end: u64 := 0xffff_ffff_c000_0000, 0xffff_ffff_c000_1000;
    LastSlotExample();
    LastRootChild(start, end);
    LastPageReached(start, end);
    LastEntries();
    LastChild(start, 1);
    ExampleLower();
    NotIndexed(start, 0, 3, 0x3_ffff);
    NotIndexed(start, 0, 2, 0);
    NotIndexed(start, 0, 1, 511);
    NotIndexed(start, end, 0, 511);
  }

  lemma NotIndexed(start: u64, end: u64, d: nat, i: u64)
    requires d <= 3 && Into(start, end, d, i)
    requires i >= 512 || !Indexed(BlkStart(start, i, d), BlkEnd(start, end, i, d), d + 1)
    ensures !Indexed(start, end, d)
  {
  }

  lemma LastEntries()
    ensures LastEntry(0) == 0xffff_ff80_0000_0000 && LastEntry(1) == 0xffff_ffff_c000_0000
              && LastEntry(3) == 0xffff_ffff_ffff_f000
  {
  }

  lemma ExampleLower()
    ensures var start := 0xffff_ffff_c000_0000;
      && Into(start, 0, 2, 0) && BlkStart(start, 0, 2) == start && BlkEnd(start, 0, 0, 2) == 0
      && EndIdx(start, 0, 3) == 0x4_0000 && Into(start, 0, 3, 0x3_ffff)
  {
    var start: u64 := 0xffff_ffff_c000_0000;
    AlignedStart(start, 2, 0x3_ffff_ffff);
    AlignedStart(start, 3, 0x7ff_ffff_fe00);
    hide WalkBase, StartIdx, Shl64;
    RoundUpZero(2);
    RoundUpZero(3);
    hide RoundUpP2, Shr64;
    Borrow(start);
    ShiftSlot(2, 0);
    ShiftSlot(2, 1);
    ShiftSlot(2, 0x4000_0000);
    ShiftSlot(3, 0x4000_0000);
  }

  /** A walk that starts on the border of a table starts at its first entry. */
  lemma AlignedRemainders(start: u64, d: nat, q: nat)
    requires d <= 3 && start == q * TableSize(d)
    ensures start % TableSize(d) == 0 && start % SlotSize(d) == 0
  {
    var p: nat, t: nat := SlotSize(d), TableSize(d);
    assert t == 512 * p;
    hide *;
    QuotientIs(start, t, q, 0);
    assert start == 512 * q * p;
    QuotientIs(start, p, 512 * q, 0);
  }

  lemma AlignedStart(start: u64, d: nat, q: nat)
    requires d <= 3 && start == q * TableSize(d)
    ensures WalkBase(start, d) == start && StartIdx(start, d) == 0
  {
    hide RoundDownP2, Sub64, Shr64;
    AlignedRemainders(start, d, q);
    RoundDownSlot(d, start);
    NoBorrow(start, start);
    ShiftSlot(d, 0);
  }
}
