/** Properties of the page tables over calls, lookups and whole runs. */
module Runs {
  import opened Words
  import opened Entries
  import opened Paging
  import opened Walk
  import opened Tables
  import opened Effects
  import opened Spaces

  // ------------------------------------------------------------------ the entries an assignment writes

  /** `leaf_callback_assign_linear` as `mmu_assign` sets it up (lines 284-288). */
  function Linear(h: u64, a: nat, page: u64, flags: nat): LeafEdit {
    AssignLinear(page, PageAt(h, a), ConvertFlags(flags))
  }

  /** Page-aligned physical memory below 2^52 for the pages [a, b), in one half and clear of the last root slot. */
  predicate Fits(h: u64, a: nat, b: nat, page: u64) {
    && Half(h) && a < b <= 0xf_f800_0000
    && page % 4096 == 0 && page + 4096 * (b - a) <= 0x10_0000_0000_0000
  }

  /** Page v of an assigned range gets the v - a'th page of the physical range and exactly the converted flags. */
  lemma AssignedWord(h: u64, a: nat, b: nat, page: u64, flags: nat, v: nat)
    requires Fits(h, a, b, page) && a <= v < b
    ensures var w := LeafWord(Linear(h, a, page, flags), PageAt(h, v));
      && PhysAddr(w) == page + 4096 * (v - a)
      && BitAnd(w, Not64(PHYS_ADDRESS_MASK)) == ConvertFlags(flags)
      && Present(w) && !Large(w)
      && (User(w) <==> BitAnd(flags, MEMORY_USER) != 0)
      && (Writable(w) <==> BitAnd(flags, MEMORY_WRITE) != 0)
      && (NoExecute(w) <==> BitAnd(flags, MEMORY_EXEC) == 0)
      && w == page + 4096 * (v - a) + 1 + (if flags % 2 == 1 then 4 else 0) + (if flags / 8 % 2 == 1 then 8 else 0)
              + (if flags / 4 % 2 == 1 then 2 else 0) + (if flags / 2 % 2 == 1 then 0 else 0x8000_0000_0000_0000)
  {
    ConvertedFlags(flags);
    ConvertedValue(flags);
    hide BitAnd, ConvertFlags, Or, PageAt, Present, Large, User, Writable, NoExecute, PhysAddr, FlagsOnly;
    LinearAddress(h, a, b, page, v);
    Fields(page + 4096 * (v - a), ConvertFlags(flags));
    Rights(page + 4096 * (v - a), ConvertFlags(flags));
    EntrySum(page + 4096 * (v - a), ConvertFlags(flags));
  }

  lemma AssignedPlace(h: u64, a: nat, b: nat, page: u64, flags: nat, v: nat)
    requires Fits(h, a, b, page) && a <= v < b
    ensures var w := LeafWord(Linear(h, a, page, flags), PageAt(h, v));
      PhysAddr(w) == page + 4096 * (v - a) && Present(w) && !Large(w) && w != 0
  {
    hide PhysAddr, Present, Large, User, Writable, NoExecute, BitAnd;
    AssignedWord(h, a, b, page, flags, v);
  }

  lemma LinearAddress(h: u64, a: nat, b: nat, page: u64, v: nat)
    requires Fits(h, a, b, page) && a <= v < b
    ensures Add64(Sub64(PageAt(h, v), PageAt(h, a)), page) == page + 4096 * (v - a)
    ensures PageAddress(page + 4096 * (v - a))
  {
    PageAtIs(h, v);
    PageAtIs(h, a);
    hide PageAt;
    Shifted(h + 4096 * v, h + 4096 * a, page, 4096 * (v - a));
  }

  lemma PageAtIs(h: u64, v: nat)
    requires Half(h) && v <= 0xf_f800_0000
    ensures PageAt(h, v) == h + 4096 * v
  {
  }

  lemma Shifted(x: u64, y: u64, base: u64, d: nat)
    requires x == y + d && base + d < 0x1_0000_0000_0000_0000
    ensures Add64(Sub64(x, y), base) == base + d
  {
  }

  lemma AssignedWordsOk(h: u64, a: nat, b: nat, page: u64, flags: nat)
    requires Fits(h, a, b, page)
    ensures WordsOk(Linear(h, a, page, flags), h, a, b)
    ensures forall v :: a <= v < b ==> LeafWord(Linear(h, a, page, flags), PageAt(h, v)) != 0
  {
    ZeroEntry();
    forall v | a <= v < b
      ensures LeafOk(LeafWord(Linear(h, a, page, flags), PageAt(h, v)))
                && LeafWord(Linear(h, a, page, flags), PageAt(h, v)) != 0
    {
      AssignedWord(h, a, b, page, flags, v);
    }
  }

  // ------------------------------------------------------------------ looking up

  const DEPTH_MEMORY := 4
  const DEPTH_INVALID := 5

  /** `struct mmu_page_map_part`. */
  datatype Part = Part(page: nat, depth: nat)

  /** `extract_page_map_index` (lines 336-342). */
  function ExtractIndex(d: nat, address: u64): nat
    requires d <= 3
  {
    BitAnd(Shr64(address, DepthShift(d)), 0x1ff)
  }

  /** `mmu_lookup_step` (lines 344-367) on the memory of a table; a page outside memory counts as invalid. */
  function LookupStep(ram: map<nat, seq<u64>>, top: Part, address: u64): Part
    requires top.depth <= 3
  {
    var i := ExtractIndex(top.depth, address);
    if top.page / 4096 !in ram || i >= |ram[top.page / 4096]| then Part(0, DEPTH_INVALID)
    else
      var entry := ram[top.page / 4096][i];
      if !Present(entry) then Part(0, DEPTH_INVALID)
      else if Large(entry) then Part(PhysAddr(entry), DEPTH_MEMORY)
      else Part(PhysAddr(entry), top.depth + 1)
  }

  /** Stepping until memory or nothing is reached. */
  function Lookup(ram: map<nat, seq<u64>>, top: Part, address: u64): Part
    decreases 4 - top.depth
  {
    if top.depth >= 4 then top else Lookup(ram, LookupStep(ram, top, address), address)
  }

  /** One step read as numbers: nine bits of the address choose the entry, its bit 0 says whether to go on, bit 7
      that it is memory (depth 4, or 5 for nothing), and bits 12 to 51 where. */
  lemma LookupStepReads(ram: map<nat, seq<u64>>, page: nat, d: nat, address: u64)
    requires d <= 3 && page % 4096 == 0 && page / 4096 in ram && |ram[page / 4096]| == 512
    ensures var i := address / (if d == 0 then 0x80_0000_0000 else if d == 1 then 0x4000_0000
                                else if d == 2 then 0x20_0000 else 0x1000) % 512;
            var w := ram[page / 4096][i];
            var to := w / 4096 % 0x100_0000_0000 * 4096;
      LookupStep(ram, Part(page, d), address) ==
      if w % 2 == 0 then Part(0, 5) else Part(to, if w / 0x80 % 2 == 1 then 4 else d + 1)
  {
    var i := ExtractIndex(d, address);
    PowerValues();
    ShiftSlot(d, address);
    LowMask(9, address / SlotSize(d));
    hide BitAnd, Pow2, Shr64, ExtractIndex;
    EntryBits(ram[page / 4096][i]);
    hide PhysAddr, Present, Large;
  }

  /** Shift and mask read the same nine bits as the walker's base-relative index. */
  lemma IndexIsExtracted(d: nat, address: u64)
    requires d <= 3
    ensures ExtractIndex(d, address) == Index(d, PageNumber(address))
  {
    PowerValues();
    ShiftSlot(d, address);
    LowMask(9, address / SlotSize(d));
    NineBits(d, address);
  }

  /** Nine bits above position c of p do not see the bits of p above 512 * c * n. */
  lemma MiddleBits(p: nat, c: nat, n: nat)
    requires c > 0 && n > 0
    ensures c * 512 * n > 0 && p % (c * 512 * n) / c % 512 == p / c % 512
  {
    var m := c * 512 * n;
    PositiveProduct(c, n);
    Quotient(p, m);
    var hi, v := p / m, p % m;
    Quotient(v, c);
    MiddleAlgebra(hi, c, n, v / c, v % c);
    QuotientIs(p, c, hi * n * 512 + v / c, v % c);
    assert (hi * n * 512 + v / c) % 512 == v / c % 512 by { WholeTurns(hi * n, v / c); }
  }

  lemma PositiveProduct(c: nat, n: nat)
    requires c > 0 && n > 0
    ensures c * 512 * n > 0
  {
  }

  lemma MiddleAlgebra(hi: nat, c: nat, n: nat, q: nat, r: nat)
    ensures hi * (c * 512 * n) + (q * c + r) == (hi * n * 512 + q) * c + r
  {
  }

  lemma WholeTurns(k: nat, q: nat)
    ensures (k * 512 + q) % 512 == q % 512
  {
  }

  lemma NineBits(d: nat, x: u64)
    requires d <= 3
    ensures x / SlotSize(d) % 512 == Index(d, PageNumber(x))
  {
    if d == 0 { NineBitsAt(d, x, 0x800_0000, 1); }
    if d == 1 { NineBitsAt(d, x, 0x4_0000, 512); }
    if d == 2 { NineBitsAt(d, x, 512, 0x4_0000); }
    if d == 3 { NineBitsAt(d, x, 1, 0x800_0000); }
  }

  lemma NineBitsAt(d: nat, x: u64, c: nat, n: nat)
    requires d <= 3 && c > 0 && n > 0 && SlotSize(d) == 4096 * c && c * 512 * n == 0x10_0000_0000
    requires Prefix(d + 1, PageNumber(x)) == PageNumber(x) / c
    ensures x / SlotSize(d) % 512 == Index(d, PageNumber(x))
  {
    hide *;
    DivideTwice(x, 4096, c);
    MiddleBits(x / 4096, c, n);
    PageNumberIs(x);
    IndexIs(d, PageNumber(x));
  }

  lemma PageNumberIs(x: u64)
    ensures PageNumber(x) == x / 4096 % 0x10_0000_0000
  {
  }

  lemma IndexIs(d: nat, v: nat)
    requires d <= 3
    ensures Index(d, v) == Prefix(d + 1, v) % 512
  {
  }

  /** One step from the table of depth d on the path of an address reads the entry of the path. */
  lemma StepReads(m: Mem, d: nat, page: u64, address: u64)
    requires Inv(m) && d <= 3
    requires var k := Key(d, Prefix(d, PageNumber(address))); k in m.tabs && page == 4096 * m.tabs[k]
    ensures var w := Slot(m, Key(d, Prefix(d, PageNumber(address))), Index(d, PageNumber(address)));
      LookupStep(m.ram, Part(page, d), address) ==
        if !Present(w) then Part(0, DEPTH_INVALID)
        else if Large(w) then Part(PhysAddr(w), DEPTH_MEMORY)
        else Part(PhysAddr(w), d + 1)
  {
    var k := Key(d, Prefix(d, PageNumber(address)));
    IndexIsExtracted(d, address);
    assert GoodFrame(m, m.tabs[k]);
    hide ExtractIndex, PageNumber, Present, Large, PhysAddr, TableEntry, Prefix, Index, Inv;
    assert page / 4096 == m.tabs[k];
  }

  /** Lookups follow the tables of the path down to the leaf. */
  lemma {:induction false} LookupFrom(m: Mem, d: nat, page: u64, address: u64)
    requires Inv(m) && d <= 3
    requires var k := Key(d, Prefix(d, PageNumber(address))); k in m.tabs && page == 4096 * m.tabs[k]
    ensures var w := Leaf(m, PageNumber(address));
      Lookup(m.ram, Part(page, d), address) ==
      if Present(w) then Part(PhysAddr(w), DEPTH_MEMORY) else Part(0, DEPTH_INVALID)
    decreases 3 - d
  {
    var v := PageNumber(address);
    StepReads(m, d, page, address);
    var w := Slot(m, Key(d, Prefix(d, v)), Index(d, v));
    if d == 3 {
      LastLevel(m, v);
      hide LookupStep, PageNumber, Present, Large, PhysAddr, Inv, Leaf, Slot;
    } else {
      LinkOnPath(m, d, v);
      hide LookupStep, PageNumber, Present, Large, PhysAddr, Inv, Leaf, Slot, Prefix, Index;
      if Present(w) {
        LookupFrom(m, d + 1, PhysAddr(w), address);
      }
    }
  }

  /** Repeated lookup steps from the root find the leaf entry of the address's page. */
  lemma LookupFindsLeaf(m: Mem, root: u64, address: u64)
    requires Inv(m) && ROOT in m.tabs && root == 4096 * m.tabs[ROOT]
    ensures var w := Leaf(m, PageNumber(address));
      Lookup(m.ram, Part(root, 0), address) ==
      if Present(w) then Part(PhysAddr(w), DEPTH_MEMORY) else Part(0, DEPTH_INVALID)
  {
    assert Prefix(0, PageNumber(address)) == 0;
    LookupFrom(m, 0, root, address);
  }

  /** The leaf entry of page v in memory, by the walk the processor makes: four entries, each chosen by nine bits of v,
      the first three leading to the next frame by their bits 12 to 51 unless bit 0 is clear. */
  lemma LeafInMemory(m: Mem, v: nat)
    requires Inv(m) && v < 0x10_0000_0000
    ensures ROOT in m.tabs && m.tabs[ROOT] in m.ram && |m.ram[m.tabs[ROOT]]| == 512
    ensures var e0 := m.ram[m.tabs[ROOT]][v / 0x800_0000];
            var f1 := e0 / 4096 % 0x100_0000_0000;
      if e0 % 2 == 0 then Leaf(m, v) == 0
      else
        && f1 in m.ram && |m.ram[f1]| == 512
        && var e1 := m.ram[f1][v / 0x4_0000 % 512];
           var f2 := e1 / 4096 % 0x100_0000_0000;
           if e1 % 2 == 0 then Leaf(m, v) == 0
           else
             && f2 in m.ram && |m.ram[f2]| == 512
             && var e2 := m.ram[f2][v / 512 % 512];
                var f3 := e2 / 4096 % 0x100_0000_0000;
                if e2 % 2 == 0 then Leaf(m, v) == 0
                else f3 in m.ram && |m.ram[f3]| == 512 && Leaf(m, v) == m.ram[f3][v % 512]
  {
    IndicesOf(v);
    RootIsTable(m, v);
    hide Inv, Leaf, Prefix, Index;
    StepInMemory(m, 0, v);
    if Key(1, Prefix(1, v)) in m.tabs {
      StepInMemory(m, 1, v);
      if Key(2, Prefix(2, v)) in m.tabs {
        StepInMemory(m, 2, v);
        if Key(3, Prefix(3, v)) in m.tabs { LastInMemory(m, v); }
      }
    }
  }

  lemma IndicesOf(v: nat)
    requires v < 0x10_0000_0000
    ensures Index(0, v) == v / 0x800_0000 && Index(1, v) == v / 0x4_0000 % 512 && Index(2, v) == v / 512 % 512
  {
  }

  lemma RootIsTable(m: Mem, v: nat)
    requires Inv(m) && v < 0x10_0000_0000
    ensures Key(0, Prefix(0, v)) == ROOT && ROOT in m.tabs
  {
  }

  lemma StepInMemory(m: Mem, d: nat, v: nat)
    requires Inv(m) && d <= 2 && Key(d, Prefix(d, v)) in m.tabs
    ensures var f, c := m.tabs[Key(d, Prefix(d, v))], Key(d + 1, Prefix(d + 1, v));
      && f in m.ram && |m.ram[f]| == 512
      && var w := m.ram[f][Index(d, v)];
         if w % 2 == 0 then Leaf(m, v) == 0 else c in m.tabs && w / 4096 % 0x100_0000_0000 == m.tabs[c]
  {
    var k := Key(d, Prefix(d, v));
    assert GoodFrame(m, m.tabs[k]);
    var w := Slot(m, k, Index(d, v));
    EntryBits(w);
    LinkOnPath(m, d, v);
    LeafSays(m, v);
    hide Inv, Present, PhysAddr, Prefix, Index, Leaf;
  }

  lemma LeafSays(m: Mem, v: nat)
    requires Inv(m)
    ensures !Present(Leaf(m, v)) ==> Leaf(m, v) == 0
  {
    var k := Key(3, Prefix(3, v));
    if k in m.tabs { assert LeafOk(Slot(m, k, v % 512)); }
  }

  lemma LastInMemory(m: Mem, v: nat)
    requires Inv(m) && Key(3, Prefix(3, v)) in m.tabs
    ensures var f := m.tabs[Key(3, Prefix(3, v))];
      f in m.ram && |m.ram[f]| == 512 && Leaf(m, v) == m.ram[f][v % 512]
  {
    assert GoodFrame(m, m.tabs[Key(3, Prefix(3, v))]);
  }

  lemma RootStays(m0: Mem, m1: Mem)
    requires Inv(m0) && Inv(m1) && SameFrames(m0, m1)
    ensures ROOT in m0.tabs && ROOT in m1.tabs && m1.tabs[ROOT] == m0.tabs[ROOT]
  {
  }

  lemma LastLevel(m: Mem, v: nat)
    requires Inv(m) && Key(3, Prefix(3, v)) in m.tabs
    ensures Slot(m, Key(3, Prefix(3, v)), Index(3, v)) == Leaf(m, v)
    ensures Present(Leaf(m, v)) ==> !Large(Leaf(m, v))
  {
  }

  /** An entry of the path above the last level links to the next table of the path, or no leaf is below it. */
  lemma LinkOnPath(m: Mem, d: nat, v: nat)
    requires Inv(m) && d <= 2 && Key(d, Prefix(d, v)) in m.tabs
    ensures var w, c := Slot(m, Key(d, Prefix(d, v)), Index(d, v)), Key(d + 1, Prefix(d + 1, v));
      && (Present(w) ==> !Large(w) && c in m.tabs && PhysAddr(w) == 4096 * m.tabs[c])
      && (!Present(w) ==> !Present(Leaf(m, v)))
  {
    var k, i := Key(d, Prefix(d, v)), Index(d, v);
    PrefixStep(d, v);
    hide Present, Large, PhysAddr, TableEntry, User, Writable, NoExecute, Prefix, Index, LeavesOk;
    assert Slot(m, k, i) == LinkWord(m, Child(k, i));
    ZeroEntry();
    if Child(k, i) in m.tabs {
      assert GoodFrame(m, m.tabs[Child(k, i)]);
      TableEntryFields(m.tabs[Child(k, i)]);
    } else if Leaf(m, v) != 0 {
      MappedPath(m, d + 1, v);
    }
  }

  /** A distance in bytes, cut to whole pages. */
  function WholePages(n: nat): (r: nat)
    ensures r % 4096 == 0 && r <= n < r + 4096
  {
    4096 * (n / 4096)
  }

  /** A canonical address is in an accepted range exactly when its page number is. */
  lemma PageInRange(start: u64, end: u64, x: u64)
    requires Accepted(start, end) && IsCanonical(x)
    ensures PageNumber(start) <= PageNumber(x) < PageNumber(end) && HalfOf(x) == HalfOf(start) <==> start <= x < end
    ensures start <= x < end ==> 4096 * (PageNumber(x) - PageNumber(start)) == WholePages(x - start)
    ensures HalfOf(x) != HalfOf(start) ==> !(PageNumber(start) <= PageNumber(x) < PageNumber(end))
  {
    AcceptedPages(start, end);
    SameHalf(start, end);
    CanonicalHalves(x);
    var y := x - x % 4096;
    hide Accepted, IsCanonical;
    PageNumberOf(y);
    assert y / 4096 == x / 4096 && PageNumber(y) == PageNumber(x);
    assert HalfOf(y) == HalfOf(x);
    hide PageNumber;
    if start <= x < end { DistanceFrom(start, x, start / 4096); }
  }

  /** A distance from a page border, in pages. */
  lemma DistanceFrom(start: nat, x: nat, p: nat)
    requires start == 4096 * p && start <= x
    ensures WholePages(x - start) == (x - x % 4096) - start
  {
    QuotientIs(x - start, 4096, x / 4096 - p, x % 4096);
  }

  lemma LookupAssigned(m0: Mem, m1: Mem, start: u64, end: u64, page: u64, flags: nat, root: u64, x: u64, d: nat)
    requires Inv(m0) && Accepted(start, end) && IsCanonical(x)
    requires var h, a, b := HalfOf(start), PageNumber(start), PageNumber(end);
      Fits(h, a, b, page) && Assigned(m0, m1, Linear(h, a, page, flags), h, a, b)
    requires root == 4096 * m0.tabs[ROOT]
    requires start <= x < end ==> d == 4096 * (PageNumber(x) - PageNumber(start))
    ensures Lookup(m1.ram, Part(root, 0), x) ==
            if start <= x < end then Part(page + d, DEPTH_MEMORY) else Lookup(m0.ram, Part(root, 0), x)
  {
    var h, a, b, v := HalfOf(start), PageNumber(start), PageNumber(end), PageNumber(x);
    PageInRange(start, end, x);
    RootStays(m0, m1);
    hide Lookup, Accepted, IsCanonical, PageNumber, HalfOf, Inv, Present, PhysAddr, Leaf, LeafWord, Kept, Fits, Linear,
      Prefix;
    LookupFindsLeaf(m0, root, x);
    LookupFindsLeaf(m1, root, x);
    if a <= v < b { AssignedPlace(h, a, b, page, flags, v); }
    assert Leaf(m1, v) == if a <= v < b then LeafWord(Linear(h, a, page, flags), PageAt(h, v)) else Leaf(m0, v);
  }

  /** `mmu_assign` seen through lookups: every address of the range leads to its place in the physical range, and
      every other canonical address leads where it led before. */
  lemma LookupAfterAssign(m0: Mem, m1: Mem, start: u64, end: u64, page: u64, flags: nat, root: u64, x: u64)
    requires Inv(m0) && Accepted(start, end) && IsCanonical(x)
    requires var h, a, b := HalfOf(start), PageNumber(start), PageNumber(end);
      Fits(h, a, b, page) && Assigned(m0, m1, Linear(h, a, page, flags), h, a, b)
    requires root == 4096 * m0.tabs[ROOT]
    ensures Lookup(m1.ram, Part(root, 0), x) ==
            if start <= x < end then Part(page + WholePages(x - start), 4)
            else Lookup(m0.ram, Part(root, 0), x)
  {
    hide Lookup, Accepted, IsCanonical, PageNumber, HalfOf, Inv, Fits, Assigned, Linear;
    PageInRange(start, end, x);
    LookupAssigned(m0, m1, start, end, page, flags, root, x, if start <= x < end then WholePages(x - start) else 0);
  }

  /** `mmu_remove` seen through lookups: no address of the range leads anywhere, every other canonical address leads
      where it led before. */
  lemma LookupAfterRemove(m0: Mem, m1: Mem, start: u64, end: u64, root: u64, x: u64)
    requires Inv(m0) && Accepted(start, end) && IsCanonical(x)
    requires Removed(m0, m1, HalfOf(start), PageNumber(start), PageNumber(end))
    requires root == 4096 * m0.tabs[ROOT]
    ensures Lookup(m1.ram, Part(root, 0), x) ==
            if start <= x < end then Part(0, 5) else Lookup(m0.ram, Part(root, 0), x)
  {
    var h, a, b, v := HalfOf(start), PageNumber(start), PageNumber(end), PageNumber(x);
    PageInRange(start, end, x);
    RootStays(m0, m1);
    ZeroEntry();
    hide Lookup, Accepted, IsCanonical, PageNumber, HalfOf, Inv, Present, PhysAddr, Leaf, Kept, NonEmpty, Prefix;
    LookupFindsLeaf(m0, root, x);
    LookupFindsLeaf(m1, root, x);
    assert Leaf(m1, v) == if a <= v < b then LeafWord(Clear, PageAt(h, v)) else Leaf(m0, v);
  }

  // ------------------------------------------------------------------ access rights

  /** The entry of depth d that a walk for page v uses. */
  ghost function WalkEntry(m: Mem, d: nat, v: nat): u64
    requires d <= 3
  {
    Slot(m, Key(d, Prefix(d, v)), Index(d, v))
  }

  /** Intel SDM volume 3A, section 4.6: user and write access need the bit in every entry of the walk, and one
      execute-disable bit is enough to forbid fetches. */
  ghost predicate UserAllowed(m: Mem, v: nat) {
    User(WalkEntry(m, 0, v)) && User(WalkEntry(m, 1, v)) && User(WalkEntry(m, 2, v)) && User(WalkEntry(m, 3, v))
  }

  ghost predicate WriteAllowed(m: Mem, v: nat) {
    Writable(WalkEntry(m, 0, v)) && Writable(WalkEntry(m, 1, v)) && Writable(WalkEntry(m, 2, v))
      && Writable(WalkEntry(m, 3, v))
  }

  ghost predicate FetchForbidden(m: Mem, v: nat) {
    NoExecute(WalkEntry(m, 0, v)) || NoExecute(WalkEntry(m, 1, v)) || NoExecute(WalkEntry(m, 2, v))
      || NoExecute(WalkEntry(m, 3, v))
  }

  lemma RightsCombine(m: Mem, v: nat)
    ensures UserAllowed(m, v) <==> forall d: nat :: d <= 3 ==> User(WalkEntry(m, d, v))
    ensures WriteAllowed(m, v) <==> forall d: nat :: d <= 3 ==> Writable(WalkEntry(m, d, v))
    ensures FetchForbidden(m, v) <==> exists d: nat :: d <= 3 && NoExecute(WalkEntry(m, d, v))
  {
    hide WalkEntry, User, Writable, NoExecute;
  }

  lemma TableRights(m: Mem, d: nat, v: nat)
    requires Inv(m) && d <= 2 && Leaf(m, v) != 0
    ensures var w := WalkEntry(m, d, v);
      User(w) && Writable(w) && !NoExecute(w)
  {
    var k, i := Key(d, Prefix(d, v)), Index(d, v);
    MappedPath(m, d, v);
    MappedPath(m, d + 1, v);
    PrefixStep(d, v);
    assert Slot(m, k, i) == LinkWord(m, Child(k, i));
    assert GoodFrame(m, m.tabs[Child(k, i)]);
    TableEntryFields(m.tabs[Child(k, i)]);
  }

  /** The tables of a walk restrict nothing: the effective rights of a mapped page are those of its leaf. */
  lemma EffectiveRights(m: Mem, v: nat)
    requires Inv(m) && Leaf(m, v) != 0
    ensures UserAllowed(m, v) <==> User(Leaf(m, v))
    ensures WriteAllowed(m, v) <==> Writable(Leaf(m, v))
    ensures FetchForbidden(m, v) <==> NoExecute(Leaf(m, v))
  {
    TableRights(m, 0, v);
    TableRights(m, 1, v);
    TableRights(m, 2, v);
    hide User, Writable, NoExecute, Slot, Inv;
    assert WalkEntry(m, 3, v) == Leaf(m, v);
  }

  /** After `mmu_assign` the effective rights of every page of the range are the ones asked for. */
  lemma RightsAfterAssign(m0: Mem, m1: Mem, h: u64, a: nat, b: nat, page: u64, flags: nat, v: nat)
    requires Fits(h, a, b, page) && Assigned(m0, m1, Linear(h, a, page, flags), h, a, b) && a <= v < b
    ensures UserAllowed(m1, v) <==> BitAnd(flags, MEMORY_USER) != 0
    ensures WriteAllowed(m1, v) <==> BitAnd(flags, MEMORY_WRITE) != 0
    ensures FetchForbidden(m1, v) <==> BitAnd(flags, MEMORY_EXEC) == 0
  {
    AssignedWord(h, a, b, page, flags, v);
    ZeroEntry();
    assert Leaf(m1, v) == LeafWord(Linear(h, a, page, flags), PageAt(h, v));
    EffectiveRights(m1, v);
    hide UserAllowed, WriteAllowed, FetchForbidden, Leaf, LeafWord, Inv;
  }

  // ------------------------------------------------------------------ runs

  /** A call of the driver, or of the page allocator by anyone else: a page is taken, or given back. */
  datatype Op =
    | AssignOp(h: u64, a: nat, b: nat, page: u64, flags: nat)
    | RemoveOp(h: u64, a: nat, b: nat)
    | TakeOp(frame: nat)
    | GiveOp(frame: nat)

  ghost predicate Legal(op: Op) {
    match op
    case AssignOp(h, a, b, page, flags) => Fits(h, a, b, page)
    case RemoveOp(h, a, b) => Half(h) && a < b <= 0xf_f800_0000
    case TakeOp(f) => true
    case GiveOp(f) => true
  }

  /** One call. A page is taken from the free ones; the one that is given back is neither free nor a table. */
  ghost predicate Step(op: Op, m0: Mem, m1: Mem)
    ensures Step(op, m0, m1) ==> Inv(m1)
  {
    && Legal(op)
    && match op
       case AssignOp(h, a, b, page, flags) => Assigned(m0, m1, Linear(h, a, page, flags), h, a, b)
       case RemoveOp(h, a, b) => Removed(m0, m1, h, a, b)
       case TakeOp(f) => f in m0.free && m1 == m0.(free := m0.free - {f}) && Inv(m1)
       case GiveOp(f) => f in m0.managed && !OwnedFrame(m0, f) && m1 == m0.(free := m0.free + {f}) && Inv(m1)
  }

  /** The tree does not depend on which other pages are free. */
  lemma FreeChanged(m: Mem, free: set<nat>)
    requires Inv(m) && free <= m.managed && free !! m.tabs.Values
    ensures var m' := m.(free := free); Inv(m') && SameLeaves(m, m') && (Canonical(m) ==> Canonical(m'))
  {
    var m' := m.(free := free);
    forall k, i ensures Slot(m', k, i) == Slot(m, k, i) {}
    forall k | k in m.tabs ensures m.tabs[k] in m.tabs.Values {}
    forall c ensures LinkWord(m', c) == LinkWord(m, c) {}
    hide Slot, LinkWord, Present;
  }

  /** ms[i] is the state before call i. */
  ghost predicate Run(ops: seq<Op>, ms: seq<Mem>) {
    && |ms| == |ops| + 1
    && Inv(ms[0])
    && forall i {:trigger ops[i]} :: 0 <= i < |ops| ==> Step(ops[i], ms[i], ms[i + 1])
  }

  /** What one call makes of the entry of page v. */
  ghost function Applied(op: Op, v: nat, before: u64): u64 {
    match op
    case AssignOp(h, a, b, page, flags) =>
      if a <= v < b then LeafWord(Linear(h, a, page, flags), PageAt(h, v)) else before
    case RemoveOp(h, a, b) => if a <= v < b then 0 else before
    case TakeOp(_) => before
    case GiveOp(_) => before
  }

  /** What a sequence of calls makes of the entry of page v: each call updates its range. */
  ghost function Replay(ops: seq<Op>, v: nat, first: u64): u64 {
    if ops == [] then first else Applied(ops[|ops| - 1], v, Replay(ops[..|ops| - 1], v, first))
  }

  lemma RunPrefix(ops: seq<Op>, ms: seq<Mem>)
    requires Run(ops, ms) && ops != []
    ensures Run(ops[..|ops| - 1], ms[..|ms| - 1])
    ensures Step(ops[|ops| - 1], ms[|ms| - 2], ms[|ms| - 1])
  {
  }

  lemma StepApplied(op: Op, m0: Mem, m1: Mem, v: nat)
    requires Step(op, m0, m1)
    ensures Leaf(m1, v) == Applied(op, v, Leaf(m0, v))
  {
    if op.TakeOp? || op.GiveOp? { assert Leaf(m1, v) == Leaf(m0, v); }
    hide Leaf, Inv, Kept, NonEmpty;
  }

  /** Over every run the tables hold exactly the page map that the calls stand for. */
  lemma {:induction false} RunTranslates(ops: seq<Op>, ms: seq<Mem>, v: nat)
    requires Run(ops, ms)
    ensures Leaf(ms[|ops|], v) == Replay(ops, v, Leaf(ms[0], v))
  {
    if ops != [] {
      RunPrefix(ops, ms);
      hide Run, Step, Leaf, Applied;
      RunTranslates(ops[..|ops| - 1], ms[..|ms| - 1], v);
      StepApplied(ops[|ops| - 1], ms[|ms| - 2], ms[|ms| - 1], v);
    }
  }

  predicate IsDriver(op: Op) {
    op.AssignOp? || op.RemoveOp?
  }

  lemma StepCanonical(op: Op, m0: Mem, m1: Mem)
    requires Inv(m0) && Canonical(m0) && Step(op, m0, m1)
    ensures Canonical(m1) && ROOT in m0.tabs && ROOT in m1.tabs && m1.tabs[ROOT] == m0.tabs[ROOT]
    ensures IsDriver(op) ==> Kept(m0, m1)
  {
    assert ROOT in m0.tabs && ROOT in m1.tabs && m1.tabs[ROOT] == m0.tabs[ROOT];
    if !IsDriver(op) {
      forall k, i ensures Slot(m1, k, i) == Slot(m0, k, i) {}
    }
    hide Inv, Kept, LeafWord, Linear, Slot, Present;
    match op
    case AssignOp(h, a, b, page, flags) =>
      AssignedWordsOk(h, a, b, page, flags);
      AssignCanonical(m0, m1, Linear(h, a, page, flags), h, a, b);
    case RemoveOp(h, a, b) => RemoveCanonical(m0, m1, h, a, b);
    case TakeOp(_) =>
    case GiveOp(_) =>
  }

  /** The frames of the tree and of the free pages. */
  ghost function Own(m: Mem): set<nat> {
    m.tabs.Values + m.free
  }

  /** What one call makes of these frames; the driver only moves frames between the two. */
  function OwnStep(op: Op, own: set<nat>): set<nat> {
    match op
    case AssignOp(_, _, _, _, _) => own
    case RemoveOp(_, _, _) => own
    case TakeOp(f) => own - {f}
    case GiveOp(f) => own + {f}
  }

  function OwnAfter(ops: seq<Op>, own: set<nat>): set<nat> {
    if ops == [] then own else OwnStep(ops[|ops| - 1], OwnAfter(ops[..|ops| - 1], own))
  }

  /** How many more pages were given back than taken. */
  function Balance(ops: seq<Op>): int {
    if ops == [] then 0 else Balance(ops[..|ops| - 1]) + Gain(ops[|ops| - 1])
  }

  function Gain(op: Op): int {
    if op.GiveOp? then 1 else if op.TakeOp? then -1 else 0
  }

  /** What a call leaves alone. */
  ghost predicate Beside(m0: Mem, m1: Mem) {
    && m1.managed == m0.managed && m1.ram.Keys == m0.ram.Keys
    && forall f :: f in m0.ram && f in m1.ram && !OwnedFrame(m0, f) ==> m1.ram[f] == m0.ram[f]
  }

  lemma StepOwn(op: Op, m0: Mem, m1: Mem)
    requires Inv(m0) && Canonical(m0) && Step(op, m0, m1)
    ensures Beside(m0, m1) && Own(m1) == OwnStep(op, Own(m0)) && |Own(m1)| == |Own(m0)| + Gain(op)
  {
    StepCanonical(op, m0, m1);
    if IsDriver(op) {
      hide Step, Inv, Canonical, OwnedFrame;
      OwnedSame(m0, m1);
    } else {
      OwnMoved(op, m0, m1);
    }
  }

  lemma OwnMoved(op: Op, m0: Mem, m1: Mem)
    requires Inv(m0) && Step(op, m0, m1) && !IsDriver(op)
    ensures Beside(m0, m1) && Own(m1) == OwnStep(op, Own(m0)) && |Own(m1)| == |Own(m0)| + Gain(op)
  {
    if op.TakeOp? {
      forall k | k in m0.tabs ensures m0.tabs[k] != op.frame {}
      assert op.frame in Own(m0) && Own(m1) == Own(m0) - {op.frame};
    } else {
      assert op.frame !in Own(m0) && Own(m1) == Own(m0) + {op.frame};
    }
    hide Rooted, Linked, LeavesOk, Assigned, Removed;
  }

  /** Frame f was neither a table nor free at any time of the run. */
  ghost predicate Foreign(ms: seq<Mem>, f: nat) {
    forall i :: 0 <= i < |ms| ==> !OwnedFrame(ms[i], f)
  }

  /** From the first state of a run to its last the tables and the free pages have exactly the frames that taking and
      giving leave them, and memory that was foreign throughout is untouched. */
  ghost predicate Accounted(ops: seq<Op>, ms: seq<Mem>)
    requires |ms| > 0
  {
    var m, n := ms[0], ms[|ms| - 1];
    && n.managed == m.managed && n.ram.Keys == m.ram.Keys
    && Own(n) == OwnAfter(ops, Own(m))
    && |n.tabs| + |n.free| == |m.tabs| + |m.free| + Balance(ops)
    && forall f :: f in m.ram && f in n.ram && Foreign(ms, f) ==> n.ram[f] == m.ram[f]
  }

  /** Over every run: the tree stays well formed and canonical, its root stays, no frame is lost or shared, and no
      memory outside the tree and the free pages is written. */
  lemma {:induction false} RunKeeps(ops: seq<Op>, ms: seq<Mem>)
    requires Run(ops, ms) && Canonical(ms[0])
    ensures var m, n := ms[0], ms[|ops|];
      && Inv(n) && Canonical(n) && Accounted(ops, ms)
      && ROOT in m.tabs && ROOT in n.tabs && n.tabs[ROOT] == m.tabs[ROOT]
  {
    hide Canonical, Inv, Step, Foreign;
    if ops != [] {
      RunPrefix(ops, ms);
      RunKeeps(ops[..|ops| - 1], ms[..|ms| - 1]);
      StepAccounted(ops, ms);
      StepRoot(ops[|ops| - 1], ms[|ms| - 2], ms[|ms| - 1]);
    } else {
      RootThere(ms[0]);
    }
  }

  lemma RootThere(m: Mem)
    requires Inv(m)
    ensures ROOT in m.tabs
  {
  }

  lemma StepRoot(op: Op, m0: Mem, m1: Mem)
    requires Inv(m0) && Canonical(m0) && Step(op, m0, m1)
    ensures Inv(m1) && Canonical(m1) && ROOT in m0.tabs && ROOT in m1.tabs && m1.tabs[ROOT] == m0.tabs[ROOT]
  {
    StepCanonical(op, m0, m1);
  }

  lemma StepAccounted(ops: seq<Op>, ms: seq<Mem>)
    requires |ops| > 0 && |ms| == |ops| + 1 && Accounted(ops[..|ops| - 1], ms[..|ms| - 1])
    requires Inv(ms[|ms| - 2]) && Canonical(ms[|ms| - 2]) && Step(ops[|ops| - 1], ms[|ms| - 2], ms[|ms| - 1])
    ensures Accounted(ops, ms)
  {
    hide Inv, Canonical, Step, Own, OwnStep, OwnedFrame;
    var op, m0, m1, before := ops[|ops| - 1], ms[|ms| - 2], ms[|ms| - 1], ms[..|ms| - 1];
    StepOwn(op, m0, m1);
    StepTotal(op, m0, m1);
    assert before[0] == ms[0] && before[|before| - 1] == m0;
    forall f | f in ms[0].ram && f in m1.ram && Foreign(ms, f) ensures m1.ram[f] == ms[0].ram[f] {
      ForeignPrefix(ms, f);
    }
  }

  lemma ForeignPrefix(ms: seq<Mem>, f: nat)
    requires |ms| > 1 && Foreign(ms, f)
    ensures Foreign(ms[..|ms| - 1], f) && !OwnedFrame(ms[|ms| - 2], f)
  {
    hide OwnedFrame;
  }

  lemma StepTotal(op: Op, m0: Mem, m1: Mem)
    requires Inv(m0) && Step(op, m0, m1)
    ensures |m0.tabs| + |m0.free| == |Own(m0)| && |m1.tabs| + |m1.free| == |Own(m1)|
  {
    OwnedCount(m0);
    OwnedCount(m1);
    hide *;
  }

  /** The shape of the tree is a function of the page map: whatever the two histories, equal maps mean the same
      tables, and so the same number of pages taken from the allocator. */
  lemma RunsShareShape(ops: seq<Op>, ms: seq<Mem>, ops': seq<Op>, ms': seq<Mem>)
    requires Run(ops, ms) && Canonical(ms[0]) && Run(ops', ms') && Canonical(ms'[0])
    requires forall v: nat :: Replay(ops, v, Leaf(ms[0], v)) == Replay(ops', v, Leaf(ms'[0], v))
    ensures ms[|ops|].tabs.Keys == ms'[|ops'|].tabs.Keys
  {
    RunKeeps(ops, ms);
    RunKeeps(ops', ms');
    hide Run, Leaf, Inv, Canonical, Replay;
    forall v: nat ensures Leaf(ms'[|ops'|], v) == Leaf(ms[|ops|], v) {
      RunTranslates(ops, ms, v);
      RunTranslates(ops', ms', v);
    }
    SamePagesSameShape(ms[|ops|], ms'[|ops'|]);
  }

  /** With the same tables in the same frames, the same frames are free. */
  lemma SameTablesSameFree(m0: Mem, m1: Mem)
    requires Housed(m0) && Housed(m1) && Own(m0) == Own(m1) && m0.tabs == m1.tabs
    ensures m0.free == m1.free
  {
    forall f ensures f in m0.free <==> f in m1.free {
      assert f in Own(m0) <==> f in Own(m1);
      if f in m0.tabs.Values {
        var k :| k in m0.tabs && m0.tabs[k] == f;
        assert m0.tabs[k] !in m0.free && m1.tabs[k] !in m1.free;
      }
    }
  }

  lemma LeavesBack(m0: Mem, m1: Mem, m2: Mem, h: u64, a: nat, b: nat, e: LeafEdit)
    requires Edited(e, h, m0, m1, a, b) && Edited(Clear, h, m1, m2, a, b)
    requires forall v :: a <= v < b ==> Leaf(m0, v) == 0
    ensures SameLeaves(m0, m2)
  {
  }

  /** Assigning an unmapped range and then removing it restores everything: the page map, the tables and their
      frames, and the allocator's free pages. */
  lemma AssignThenRemove(m0: Mem, m1: Mem, m2: Mem, h: u64, a: nat, b: nat, page: u64, flags: nat)
    requires Inv(m0) && Canonical(m0) && forall v :: a <= v < b ==> Leaf(m0, v) == 0
    requires Step(AssignOp(h, a, b, page, flags), m0, m1) && Step(RemoveOp(h, a, b), m1, m2)
    ensures SameLeaves(m0, m2) && m2.tabs == m0.tabs && m2.free == m0.free
  {
    StepCanonical(AssignOp(h, a, b, page, flags), m0, m1);
    StepCanonical(RemoveOp(h, a, b), m1, m2);
    KeptTrans(m0, m1, m2);
    LeavesBack(m0, m1, m2, h, a, b, Linear(h, a, page, flags));
    SamePagesSameShape(m0, m2);
    FramesBack(m0, m1, m2);
    OwnedSame(m0, m2);
    SameTablesSameFree(m0, m2);
  }

  lemma FramesBack(m0: Mem, m1: Mem, m2: Mem)
    requires SameFrames(m0, m1) && SameFrames(m1, m2) && m2.tabs.Keys == m0.tabs.Keys <= m1.tabs.Keys
    ensures m2.tabs == m0.tabs
  {
  }

  /** The calls never unmap page v if it was mapped at first. */
  ghost predicate KeepsMapped(ops: seq<Op>, v: nat, first: u64) {
    forall i {:trigger ops[..i]} :: 0 <= i <= |ops| && first != 0 ==> Replay(ops[..i], v, first) != 0
  }

  /** Of the pages mapped in m the calls unmap none. */
  ghost predicate KeepAll(ops: seq<Op>, m: Mem) {
    forall v: nat :: KeepsMapped(ops, v, Leaf(m, v))
  }

  /** A table that is in use at first and whose pages stay mapped stays where it is. */
  lemma {:induction false} TableStays(ops: seq<Op>, ms: seq<Mem>, k: Key)
    requires Run(ops, ms) && Canonical(ms[0]) && k in ms[0].tabs
    requires KeepAll(ops, ms[0])
    ensures k in ms[|ops|].tabs && ms[|ops|].tabs[k] == ms[0].tabs[k]
  {
    if ops != [] {
      var n := |ops| - 1;
      RunPrefix(ops, ms);
      KeptMapped(ops, ms[0]);
      TableStays(ops[..n], ms[..n + 1], k);
      RunKeeps(ops, ms);
      hide Run, Inv, Canonical, KeepAll;
      if k != ROOT { StaysUsed(ops, ms, k); }
      SameFrame(ops[n], ms[n], ms[n + 1], k);
    }
  }

  lemma KeepsPrefix(ops: seq<Op>, v: nat, x: u64)
    requires ops != []
    ensures KeepsMapped(ops, v, x) ==> KeepsMapped(ops[..|ops| - 1], v, x)
  {
    hide Replay;
    var before := ops[..|ops| - 1];
    forall i | 0 <= i <= |before| ensures before[..i] == ops[..i] {}
  }

  lemma KeptMapped(ops: seq<Op>, m: Mem)
    requires ops != [] && KeepAll(ops, m)
    ensures KeepAll(ops[..|ops| - 1], m)
  {
    hide Leaf, KeepsMapped;
    forall v: nat ensures KeepsMapped(ops[..|ops| - 1], v, Leaf(m, v)) { KeepsPrefix(ops, v, Leaf(m, v)); }
  }

  lemma StaysUsed(ops: seq<Op>, ms: seq<Mem>, k: Key)
    requires Run(ops, ms) && Canonical(ms[0]) && k in ms[0].tabs && k != ROOT
    requires KeepAll(ops, ms[0])
    ensures k in ms[|ops|].tabs
  {
    RunKeeps(ops, ms);
    RunStart(ops, ms);
    TableDepth(ms[0], k);
    hide Run, Inv, Canonical, Leaf, Replay, Prefix, Accounted;
    ShapeFollowsPages(ms[0], k);
    var v: nat :| Prefix(k.d, v) == k.p && Leaf(ms[0], v) != 0;
    RunTranslates(ops, ms, v);
    assert KeepsMapped(ops, v, Leaf(ms[0], v)) && ops[..|ops|] == ops;
    ShapeFollowsPages(ms[|ops|], k);
  }

  lemma TableDepth(m: Mem, k: Key)
    requires Inv(m) && k in m.tabs && k != ROOT
    ensures 0 < k.d <= 3
  {
  }

  lemma SameFrame(op: Op, m0: Mem, m1: Mem, k: Key)
    requires Step(op, m0, m1) && k in m0.tabs && k in m1.tabs
    ensures m1.tabs[k] == m0.tabs[k]
  {
  }

  lemma RunStart(ops: seq<Op>, ms: seq<Mem>)
    requires Run(ops, ms)
    ensures |ms| == |ops| + 1 && Inv(ms[0])
  {
  }

  /** Any run that never unmaps what was mapped at first, leaves the page map as it was and gives back the pages it
      took restores the tables with their frames and the free pages, in whatever order and wherever it went. */
  lemma RunRestores(ops: seq<Op>, ms: seq<Mem>)
    requires Run(ops, ms) && Canonical(ms[0]) && OwnAfter(ops, Own(ms[0])) == Own(ms[0])
    requires KeepAll(ops, ms[0])
    requires forall v: nat :: Replay(ops, v, Leaf(ms[0], v)) == Leaf(ms[0], v)
    ensures var m, n := ms[0], ms[|ops|];
      SameLeaves(m, n) && n.tabs == m.tabs && n.free == m.free
  {
    hide Run, Leaf, Canonical, Inv, Replay, OwnAfter, Own, Foreign, KeepAll;
    RunStart(ops, ms);
    var m, n := ms[0], ms[|ops|];
    RunKeeps(ops, ms);
    forall v: nat ensures Leaf(n, v) == Leaf(m, v) { RunTranslates(ops, ms, v); }
    SamePagesSameShape(m, n);
    forall k | k in m.tabs ensures k in n.tabs && n.tabs[k] == m.tabs[k] { TableStays(ops, ms, k); }
    assert n.tabs == m.tabs;
    SameOwnSameFree(m, n);
  }

  lemma SameOwnSameFree(m: Mem, n: Mem)
    requires Inv(m) && Inv(n) && Own(m) == Own(n) && m.tabs == n.tabs
    ensures m.free == n.free
  {
    hide Own, Rooted, Linked, LeavesOk;
    SameTablesSameFree(m, n);
  }

  /** One more call at the end of a run. */
  lemma RunMore(ops: seq<Op>, ms: seq<Mem>, op: Op, m: Mem)
    requires Run(ops, ms) && Step(op, ms[|ops|], m)
    ensures Run(ops + [op], ms + [m]) && (ms + [m])[|ops| + 1] == m && (ms + [m])[0] == ms[0]
  {
    hide Step, Inv;
    var ops', ms' := ops + [op], ms + [m];
    forall i | 0 <= i < |ops'| ensures Step(ops'[i], ms'[i], ms'[i + 1]) {
      if i < |ops| { assert Step(ops[i], ms[i], ms[i + 1]); }
    }
  }

  lemma OwnMore(ops: seq<Op>, op: Op, own: set<nat>)
    ensures OwnAfter(ops + [op], own) == OwnStep(op, OwnAfter(ops, own))
  {
    assert (ops + [op])[..|ops|] == ops;
  }

  lemma ReplayMore(ops: seq<Op>, op: Op, v: nat, x: u64)
    ensures Replay(ops + [op], v, x) == Applied(op, v, Replay(ops, v, x))
  {
    assert (ops + [op])[..|ops|] == ops;
  }

  lemma KeepsMore(ops: seq<Op>, op: Op, v: nat, x: u64)
    ensures KeepsMapped(ops, v, x) && (x != 0 ==> Applied(op, v, Replay(ops, v, x)) != 0) ==>
              KeepsMapped(ops + [op], v, x)
  {
    ReplayMore(ops, op, v, x);
    hide Replay, Applied;
    var ops' := ops + [op];
    forall i | 0 <= i <= |ops| ensures ops'[..i] == ops[..i] {}
    assert ops'[..|ops'|] == ops';
  }
}
