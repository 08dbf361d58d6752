/** The address arithmetic of `apply_nodes` (src/drivers/mmu.c lines 47-52, 106-145) in 64-bit words, and what it
    computes in terms of page numbers. */
module Walk {
  import opened Words
  import opened Paging

  /** `depth_shift_size`. */
  function DepthShift(d: nat): nat
    requires d <= 3
  {
    if d == 0 then 39 else if d == 1 then 30 else if d == 2 then 21 else 12
  }

  lemma DepthPowers(d: nat)
    requires d <= 3
    ensures Pow2(DepthShift(d)) ==
            if d == 0 then 0x80_0000_0000 else if d == 1 then 0x4000_0000 else if d == 2 then 0x20_0000 else 0x1000
    ensures Pow2(DepthShift(d) + 9) ==
            if d == 0 then 0x1_0000_0000_0000 else if d == 1 then 0x80_0000_0000
            else if d == 2 then 0x4000_0000 else 0x20_0000
    ensures Shl64(1, DepthShift(d)) == Pow2(DepthShift(d)) && Shl64(512, DepthShift(d)) == Pow2(DepthShift(d) + 9)
  {
    PowerValues();
    hide Pow2;
  }

  function SlotSize(d: nat): (s: u64)
    requires d <= 3
    ensures s == if d == 0 then 0x80_0000_0000 else if d == 1 then 0x4000_0000 else if d == 2 then 0x20_0000 else 0x1000
  {
    DepthPowers(d);
    Shl64(1, DepthShift(d))
  }

  function TableSize(d: nat): (s: u64)
    requires d <= 3
    ensures s ==
            if d == 0 then 0x1_0000_0000_0000 else if d == 1 then 0x80_0000_0000
            else if d == 2 then 0x4000_0000 else 0x20_0000
  {
    DepthPowers(d);
    Shl64(512, DepthShift(d))
  }

  function WalkBase(start: u64, d: nat): u64
    requires d <= 3
  {
    RoundDownP2(start, TableSize(d))
  }

  function StartIdx(start: u64, d: nat): u64
    requires d <= 3
  {
    Shr64(Sub64(RoundDownP2(start, SlotSize(d)), WalkBase(start, d)), DepthShift(d))
  }

  function EndIdx(start: u64, end: u64, d: nat): u64
    requires d <= 3
  {
    Shr64(Sub64(RoundUpP2(end, SlotSize(d)), WalkBase(start, d)), DepthShift(d))
  }

  function BlkStart(start: u64, i: u64, d: nat): u64
    requires d <= 3
  {
    var s := Add64(Shl64(i, DepthShift(d)), WalkBase(start, d));
    if start < s then s else start
  }

  function BlkEnd(start: u64, end: u64, i: u64, d: nat): u64
    requires d <= 3 && i < 0xffff_ffff_ffff_ffff
  {
    var e := Add64(Shl64(i + 1, DepthShift(d)), WalkBase(start, d));
    if end < e then end else e
  }

  /** The two halves of the canonical address space: page v of a half with the given base is at base + 4096 * v. */
  const HIGHER_BASE: u64 := 0xffff_0000_0000_0000

  predicate Half(h: u64) { h == 0 || h == 0xffff_0000_0000_0000 }

  /** Pages [a, b) of one table of depth d, away from the last slot of the root. */
  ghost predicate InTable(h: u64, d: nat, a: nat, b: nat) {
    && Half(h) && d <= 3 && a < b <= 0xf_f800_0000
    && Prefix(d, a) == Prefix(d, b - 1)
  }

  lemma RoundDownSlot(d: nat, x: u64)
    requires d <= 3
    ensures RoundDownP2(x, SlotSize(d)) == x - x % SlotSize(d)
    ensures RoundDownP2(x, TableSize(d)) == x - x % TableSize(d)
  {
    hide Pow2, RoundDownP2;
    DepthPowers(d);
    RoundDown(DepthShift(d), x);
    RoundDown(DepthShift(d) + 9, x);
  }

  lemma RoundUpSlot(d: nat, x: u64)
    requires d <= 3
    ensures x + SlotSize(d) - 1 < 0x1_0000_0000_0000_0000 ==>
              RoundUpP2(x, SlotSize(d)) == x + SlotSize(d) - 1 - (x + SlotSize(d) - 1) % SlotSize(d)
    ensures x + SlotSize(d) - 1 >= 0x1_0000_0000_0000_0000 ==> RoundUpP2(x, SlotSize(d)) == 0
  {
    hide Pow2, RoundUpP2;
    DepthPowers(d);
    RoundUp(DepthShift(d), x);
  }

  lemma ShiftSlot(d: nat, x: u64)
    requires d <= 3
    ensures Shr64(x, DepthShift(d)) == x / SlotSize(d)
    ensures Shl64(x, DepthShift(d)) == (x * SlotSize(d)) % 0x1_0000_0000_0000_0000
  {
    DepthPowers(d);
    hide Pow2;
  }

  /** Byte remainders are page remainders when the size is a whole number of pages. */
  lemma PageRemainder(k: nat, c: nat, a: nat)
    requires c > 0
    ensures (k * (4096 * c) + 4096 * a) % (4096 * c) == 4096 * (a % c)
    ensures (k * (4096 * c) + 4096 * a) / (4096 * c) == k + a / c
  {
    Quotient(a, c);
    PageAlgebra(k, c, a / c, a % c);
    QuotientIs(k * (4096 * c) + 4096 * a, 4096 * c, k + a / c, 4096 * (a % c));
  }

  lemma PageAlgebra(k: nat, c: nat, q: nat, r: nat)
    ensures k * (4096 * c) + 4096 * (q * c + r) == (k + q) * (4096 * c) + 4096 * r
  {
  }

  /** The base of a half in units of a slot size. */
  lemma HalfRemainder(h: u64, a: nat)
    requires Half(h)
    ensures (h + 4096 * a) % 0x1_0000_0000_0000 == 4096 * (a % 0x10_0000_0000)
    ensures (h + 4096 * a) % 0x80_0000_0000 == 4096 * (a % 0x800_0000)
    ensures (h + 4096 * a) % 0x4000_0000 == 4096 * (a % 0x4_0000)
    ensures (h + 4096 * a) % 0x20_0000 == 4096 * (a % 512)
    ensures (h + 4096 * a) % 0x1000 == 0
  {
    PageRemainder(if h == 0 then 0 else 0xf_ffff_0000_0000, 1, a);
    PageRemainder(if h == 0 then 0 else 0xffff, 0x10_0000_0000, a);
    PageRemainder(if h == 0 then 0 else 0x1ff_fe00, 0x800_0000, a);
    PageRemainder(if h == 0 then 0 else 0x3_fffc_0000, 0x4_0000, a);
    PageRemainder(if h == 0 then 0 else 0x7ff_f800_0000, 512, a);
  }

  /** The base of a walk is the address of its table's first page. */
  lemma BaseIs(h: u64, d: nat, a: nat, start: u64)
    requires Half(h) && d <= 3 && a < 0x10_0000_0000 && start == h + 4096 * a
    ensures WalkBase(start, d) == h + 4096 * FirstPage(d, Prefix(d, a))
  {
    RoundDownSlot(d, start);
    HalfRemainder(h, a);
    Floor(d, a);
    hide RoundDownP2, FirstPage, Prefix;
  }

  /** The first page of a's block, by remainder. */
  lemma Floor(d: nat, a: nat)
    requires d <= 3
    ensures FirstPage(d, Prefix(d, a)) ==
            a - a % (if d == 0 then 0x10_0000_0000 else if d == 1 then 0x800_0000 else if d == 2 then 0x4_0000 else 512)
  {
  }

  lemma EndRemainder(k: nat, c: nat, v: nat)
    requires c > 0
    ensures (k * (4096 * c) + 4096 * v + 4095 + 4096 * c) % (4096 * c) == 4096 * (v % c) + 4095
  {
    Quotient(v, c);
    EndAlgebra(k, c, v / c, v % c);
    QuotientIs(k * (4096 * c) + 4096 * v + 4095 + 4096 * c, 4096 * c, k + v / c + 1, 4096 * (v % c) + 4095);
  }

  lemma EndAlgebra(k: nat, c: nat, q: nat, r: nat)
    ensures k * (4096 * c) + 4096 * (q * c + r) + 4095 + 4096 * c == (k + q + 1) * (4096 * c) + (4096 * r + 4095)
  {
  }

  lemma HalfEndRemainder(h: u64, v: nat)
    requires Half(h)
    ensures (h + 4096 * v + 4095 + 0x80_0000_0000) % 0x80_0000_0000 == 4096 * (v % 0x800_0000) + 4095
    ensures (h + 4096 * v + 4095 + 0x4000_0000) % 0x4000_0000 == 4096 * (v % 0x4_0000) + 4095
    ensures (h + 4096 * v + 4095 + 0x20_0000) % 0x20_0000 == 4096 * (v % 512) + 4095
    ensures (h + 4096 * v + 4095 + 0x1000) % 0x1000 == 4095
  {
    EndRemainder(if h == 0 then 0 else 0x1ff_fe00, 0x800_0000, v);
    EndRemainder(if h == 0 then 0 else 0x3_fffc_0000, 0x4_0000, v);
    EndRemainder(if h == 0 then 0 else 0x7ff_f800_0000, 512, v);
    EndRemainder(if h == 0 then 0 else 0xf_ffff_0000_0000, 1, v);
  }

  lemma RoundedStart(h: u64, d: nat, a: nat, start: u64)
    requires Half(h) && d <= 3 && a < 0x10_0000_0000 && start == h + 4096 * a
    ensures RoundDownP2(start, SlotSize(d)) == h + 4096 * FirstPage(d + 1, Prefix(d + 1, a))
  {
    RoundDownSlot(d, start);
    HalfRemainder(h, a);
    hide RoundDownP2;
  }

  lemma RoundedEnd(h: u64, d: nat, b: nat, end: u64)
    requires Half(h) && d <= 3 && 0 < b <= 0xf_f800_0000 && end == h + 4096 * b
    ensures RoundUpP2(end, SlotSize(d)) == h + 4096 * FirstPage(d + 1, Prefix(d + 1, b - 1) + 1)
  {
    hide RoundUpP2, FirstPage, Prefix;
    RoundUpSlot(d, end);
    HalfEndRemainder(h, b - 1);
    NextFirstPage(d, b - 1);
  }

  /** The first page of the slot after page v's. */
  lemma NextFirstPage(d: nat, v: nat)
    requires d <= 3
    ensures FirstPage(d + 1, Prefix(d + 1, v) + 1) ==
            if d == 0 then v - v % 0x800_0000 + 0x800_0000
            else if d == 1 then v - v % 0x4_0000 + 0x4_0000
            else if d == 2 then v - v % 512 + 512
            else v + 1
  {
  }

  /** A distance between two slot boundaries, in slots. */
  lemma SlotDistance(d: nat, p: nat, q: nat)
    requires d <= 3 && 512 * p <= q
    ensures (4096 * FirstPage(d + 1, q) - 4096 * FirstPage(d, p)) / SlotSize(d) == q - 512 * p
  {
    var k, s := q - 512 * p, SlotSize(d);
    assert 4096 * FirstPage(d + 1, q) - 4096 * FirstPage(d, p) == k * s;
    hide *;
    QuotientIs(k * s, s, k, 0);
  }

  lemma SlotNumber(h: u64, d: nat, p: nat, q: nat, x: u64, base: u64)
    requires d <= 3 && 512 * p <= q
    requires x == h + 4096 * FirstPage(d + 1, q) && base == h + 4096 * FirstPage(d, p)
    ensures Shr64(Sub64(x, base), DepthShift(d)) == q - 512 * p
  {
    SlotDistance(d, p, q);
    FirstPageDown(d, p);
    FirstPageMonotone(d + 1, 512 * p, q);
    NoBorrow(x, base);
    ShiftSlot(d, x - base);
    hide FirstPage, Shr64, Sub64;
  }

  lemma NoBorrow(x: u64, base: u64)
    requires base <= x
    ensures Sub64(x, base) == x - base
  {
  }

  lemma Borrow(base: u64)
    requires base > 0
    ensures Sub64(0, base) == 0x1_0000_0000_0000_0000 - base
  {
  }

  /** The loop of `apply_nodes` runs over exactly the slots of the path of a page of [a, b). */
  lemma IndicesAre(h: u64, d: nat, a: nat, b: nat, start: u64, end: u64)
    requires InTable(h, d, a, b) && start == h + 4096 * a && end == h + 4096 * b
    ensures StartIdx(start, d) == Index(d, a)
    ensures EndIdx(start, end, d) == Index(d, b - 1) + 1
  {
    BaseIs(h, d, a, start);
    RoundedStart(h, d, a, start);
    RoundedEnd(h, d, b, end);
    PrefixStep(d, a);
    PrefixStep(d, b - 1);
    hide RoundDownP2, RoundUpP2, WalkBase, Shr64, Sub64, Prefix, FirstPage;
    SlotNumber(h, d, Prefix(d, a), Prefix(d + 1, a), RoundDownP2(start, SlotSize(d)), WalkBase(start, d));
    SlotNumber(h, d, Prefix(d, a), Prefix(d + 1, b - 1) + 1, RoundUpP2(end, SlotSize(d)), WalkBase(start, d));
  }

  /** Within [a, b), slot i of the walked table covers the pages from BlockFrom up to BlockTo. */
  function BlockFrom(d: nat, p: nat, i: nat, a: nat): nat
    requires d <= 3
  {
    var f := FirstPage(d + 1, 512 * p + i);
    if a < f then f else a
  }

  function BlockTo(d: nat, p: nat, i: nat, b: nat): nat
    requires d <= 3
  {
    var t := FirstPage(d + 1, 512 * p + i + 1);
    if b < t then b else t
  }

  /** Adding i slots to the base does not wrap below the last slot of the root. */
  lemma SlotAddress(h: u64, d: nat, p: nat, i: nat, base: u64)
    requires Half(h) && d <= 3 && i <= 512
    requires base == h + 4096 * FirstPage(d, p) && FirstPage(d + 1, 512 * p + i) <= 0xf_f800_0000
    ensures Add64(Shl64(i, DepthShift(d)), base) == h + 4096 * FirstPage(d + 1, 512 * p + i)
  {
    hide *;
    ShiftSlot(d, i);
    SlotSpan(h, d, p, i);
    NoWrap(i * SlotSize(d), base);
  }

  lemma SlotSpan(h: u64, d: nat, p: nat, i: nat)
    requires Half(h) && d <= 3 && FirstPage(d + 1, 512 * p + i) <= 0xf_f800_0000
    ensures i * SlotSize(d) + (h + 4096 * FirstPage(d, p)) ==
              h + 4096 * FirstPage(d + 1, 512 * p + i) < 0x1_0000_0000_0000_0000
  {
  }

  lemma NoWrap(x: nat, base: nat)
    requires x + base < 0x1_0000_0000_0000_0000
    ensures Add64(x % 0x1_0000_0000_0000_0000, base) == x + base
  {
  }

  /** The block bounds of the loop are the child's pages of [a, b). */
  lemma BlocksAre(h: u64, d: nat, a: nat, b: nat, start: u64, end: u64, i: nat)
    requires InTable(h, d, a, b) && start == h + 4096 * a && end == h + 4096 * b
    requires Index(d, a) <= i <= Index(d, b - 1)
    ensures BlkStart(start, i, d) == h + 4096 * BlockFrom(d, Prefix(d, a), i, a)
    ensures BlkEnd(start, end, i, d) == h + 4096 * BlockTo(d, Prefix(d, a), i, b)
    ensures a <= BlockFrom(d, Prefix(d, a), i, a) < BlockTo(d, Prefix(d, a), i, b) <= b
  {
    hide WalkBase, Add64, Shl64, Prefix, FirstPage;
    var p := Prefix(d, a);
    BaseIs(h, d, a, start);
    BlockBounds(d, a, b, i);
    SlotBelowTop(d, a, b, i);
    SlotAddress(h, d, p, i, WalkBase(start, d));
    SlotAddress(h, d, p, i + 1, WalkBase(start, d));
  }

  /** Slot boundaries on the way of a range below the last root slot stay below it. */
  lemma SlotBelowTop(d: nat, a: nat, b: nat, i: nat)
    requires d <= 3 && a < b <= 0xf_f800_0000 && Prefix(d, a) == Prefix(d, b - 1)
    requires Index(d, a) <= i <= Index(d, b - 1)
    ensures FirstPage(d + 1, 512 * Prefix(d, a) + i + 1) <= 0xf_f800_0000
    ensures FirstPage(d + 1, 512 * Prefix(d, a) + i) <= 0xf_f800_0000
  {
    hide Prefix, FirstPage;
    PrefixStep(d, b - 1);
    BlockBelowTop(d + 1, b - 1);
    FirstPageMonotone(d + 1, 512 * Prefix(d, a) + i, Prefix(d + 1, b - 1) + 1);
    FirstPageMonotone(d + 1, 512 * Prefix(d, a) + i + 1, Prefix(d + 1, b - 1) + 1);
  }

  lemma BlockBelowTop(d: nat, v: nat)
    requires 0 < d <= 4 && v < 0xf_f800_0000
    ensures FirstPage(d, Prefix(d, v) + 1) <= 0xf_f800_0000
  {
  }

  /** Each child range is non-empty, lies in its slot's block and starts where the one before it ended. */
  lemma BlockBounds(d: nat, a: nat, b: nat, i: nat)
    requires d <= 3 && a < b && Prefix(d, a) == Prefix(d, b - 1)
    requires Index(d, a) <= i <= Index(d, b - 1)
    ensures var p, f, t := Prefix(d, a), BlockFrom(d, Prefix(d, a), i, a), BlockTo(d, Prefix(d, a), i, b);
      && a <= f < t <= b
      && Prefix(d + 1, f) == Prefix(d + 1, t - 1) == 512 * p + i
      && (i == Index(d, a) ==> f == a)
      && (i == Index(d, b - 1) ==> t == b)
      && (i > Index(d, a) ==> f == BlockTo(d, p, i - 1, b))
  {
    hide Prefix, FirstPage;
    var p, q := Prefix(d, a), 512 * Prefix(d, a) + i;
    PrefixStep(d, a);
    PrefixStep(d, b - 1);
    InBlock(d + 1, q, a);
    InBlock(d + 1, q, b - 1);
    InBlock(d + 1, Prefix(d + 1, a), a);
    InBlock(d + 1, Prefix(d + 1, b - 1), b - 1);
    FirstPageGrows(d + 1, q);
    InBlock(d + 1, q, BlockFrom(d, p, i, a));
    InBlock(d + 1, q, BlockTo(d, p, i, b) - 1);
    FirstPageMonotone(d + 1, q, Prefix(d + 1, b - 1));
    if i > Index(d, a) { FirstPageMonotone(d + 1, Prefix(d + 1, a) + 1, q); }
    if i < Index(d, b - 1) { FirstPageMonotone(d + 1, q + 1, Prefix(d + 1, b - 1)); }
  }
}
