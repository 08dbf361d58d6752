/** The page-table driver (src/drivers/mmu.c): one recursive range walker with three node callbacks, editing the
    tables in physical memory in place. */
module Mmu {
  import opened Words
  import opened Entries
  import opened Paging
  import opened Walk
  import opened Tables
  import opened Effects
  import opened Spaces
  import opened Runs
  import P = Pmm

  /** `struct node_command_loc`. */
  datatype Loc = Loc(page: u64, depth: nat, start: u64, end: u64)

  /** A page address and its frame. */
  predicate PageOf(frame: nat, address: nat) {
    address == 4096 * frame
  }

  function Frame(address: nat): (f: nat)
    ensures forall g: nat :: PageOf(g, address) ==> f == g
  {
    address / 4096
  }

  /** A walked range: pages [a, b) of table k, in the half with base h. */
  ghost predicate InRange(loc: Loc, h: u64, k: Key, a: nat, b: nat) {
    && InTable(h, loc.depth, a, b) && k == Key(loc.depth, Prefix(loc.depth, a))
    && loc.start == h + 4096 * a && loc.end == h + 4096 * b
  }

  /** A visited entry: slot i of table k, on the path of exactly the pages [a, b) of the walked range. */
  ghost predicate AtSlot(child: Loc, h: u64, k: Key, i: nat, a: nat, b: nat)
    ensures AtSlot(child, h, k, i, a, b) ==> k.d <= 3 && child.depth == k.d + 1 && i < 512 && a < b
  {
    && Half(h) && k.d <= 3 && child.depth == k.d + 1 && i < 512
    && a < b <= 0xf_f800_0000
    && child.start == h + 4096 * a && child.end == h + 4096 * b
    && Prefix(k.d + 1, a) == 512 * k.p + i && Prefix(k.d + 1, b - 1) == 512 * k.p + i
  }

  lemma SlotOfRange(loc: Loc, h: u64, k: Key, a: nat, b: nat, i: nat, page: u64) returns (child: Loc, f: nat, t: nat)
    requires InRange(loc, h, k, a, b) && StartIdx(loc.start, loc.depth) <= i < EndIdx(loc.start, loc.end, loc.depth)
    ensures i < 512
    ensures child == Loc(page, loc.depth + 1, BlkStart(loc.start, i, loc.depth),
              BlkEnd(loc.start, loc.end, i, loc.depth))
    ensures f == BlockFrom(loc.depth, k.p, i, a) && t == BlockTo(loc.depth, k.p, i, b)
    ensures AtSlot(child, h, k, i, f, t) && a <= f < t <= b
    ensures i == StartIdx(loc.start, loc.depth) ==> f == a
    ensures i > StartIdx(loc.start, loc.depth) ==> f == BlockTo(loc.depth, k.p, i - 1, b)
    ensures i == EndIdx(loc.start, loc.end, loc.depth) - 1 ==> t == b
  {
    var d := loc.depth;
    f, t := BlockFrom(d, k.p, i, a), BlockTo(d, k.p, i, b);
    hide BlkStart, BlkEnd, StartIdx, EndIdx, BlockFrom, BlockTo, Prefix;
    IndicesAre(h, d, a, b, loc.start, loc.end);
    assert i < 512;
    BlocksAre(h, d, a, b, loc.start, loc.end, i);
    BlockBounds(d, a, b, i);
    child := Loc(page, d + 1, BlkStart(loc.start, i, d), BlkEnd(loc.start, loc.end, i, d));
  }

  lemma RangeNotEmpty(loc: Loc, h: u64, k: Key, a: nat, b: nat)
    requires InRange(loc, h, k, a, b)
    ensures StartIdx(loc.start, loc.depth) < EndIdx(loc.start, loc.end, loc.depth) <= 512
    ensures k.d == loc.depth <= 3 && a < b
  {
    var d := loc.depth;
    IndicesAre(h, d, a, b, loc.start, loc.end);
    hide Prefix, StartIdx, EndIdx, Index;
    PrefixMonotone(d + 1, a, b - 1);
    PrefixStep(d, a);
    PrefixStep(d, b - 1);
  }

  lemma EmptyRoot(m: Mem, root: nat)
    requires m.tabs == map[ROOT := root] && m.free <= m.managed
    requires forall f :: f in m.managed ==> GoodFrame(m, f) && f > 0
    requires GoodFrame(m, root) && m.ram[root] == Zeros() && root !in m.free
    ensures Inv(m) && forall v: nat :: Leaf(m, v) == 0
  {
  }

  /** Table k is the page at this address. */
  ghost predicate Holds(m: Mem, k: Key, address: u64)
    ensures Holds(m, k, address) ==> k in m.tabs
  {
    k in m.tabs && PageOf(m.tabs[k], address)
  }

  /** From m0 to m1 only the table c may have been added. */
  ghost predicate Grew(m0: Mem, m1: Mem, c: Key)
    ensures Grew(m0, m1, c) ==> Inv(m1)
  {
    Inv(m1) && Kept(m0, m1) && SameFrames(m0, m1) && SameLeaves(m0, m1) && m1.tabs.Keys == m0.tabs.Keys + {c}
  }

  lemma NoneGrew(m: Mem, c: Key)
    requires Inv(m) && c in m.tabs
    ensures Grew(m, m, c)
  {
  }

  /** The state after the three assignments of a reservation. */
  lemma AddGrew(m: Mem, k: Key, i: nat, f: nat, next: u64, g: nat)
    requires Inv(m) && k in m.tabs && k.d <= 2 && i < 512 && f in m.free && Child(k, i) !in m.tabs
    requires PageOf(f, next) && g == m.tabs[k]
    ensures g != f && g in m.ram && |m.ram[g]| == 512
    ensures var row: seq<u64> := m.ram[g][i := Or(next, PmPerms())];
      Grew(m, Mem(m.ram[f := Zeros()][g := row], m.tabs[Child(k, i) := f], m.free - {f}, m.managed), Child(k, i))
  {
    assert GoodFrame(m, g) && GoodFrame(m, f);
    AddInv(m, k, i, f);
    AddKept(m, k, i, f);
    var row: seq<u64> := m.ram[g][i := Or(next, PmPerms())];
    assert AddTable(m, k, i, f) ==
      Mem(m.ram[f := Zeros()][g := row], m.tabs[Child(k, i) := f], m.free - {f}, m.managed);
  }

  // The lemmas below are implications, so that the methods can use them with their definitions hidden.

  lemma GrewReady(child: Loc, h: u64, m0: Mem, m1: Mem, k: Key, i: nat, a: nat, b: nat)
    ensures AtSlot(child, h, k, i, a, b) && k.d <= 2 && Inv(m0) && Grew(m0, m1, Child(k, i))
              && Ready(Reserve, h, m0, k.d, a, b)
            ==> Ready(Reserve, h, m1, child.depth, a, b)
  {
    hide Prefix, Ready, Kept, Needed, SameFrames, SameLeaves, Rooted, Linked, LeavesOk, Housed, AtSlot;
    if AtSlot(child, h, k, i, a, b) && k.d <= 2 && Inv(m0) && Grew(m0, m1, Child(k, i))
       && Ready(Reserve, h, m0, k.d, a, b) {
      AtSlotFacts(child, h, k, i, a, b);
      ReadyBelow(h, m0, m1, k.d, 512 * k.p + i, a, b);
    }
  }

  lemma GrewDown(child: Loc, h: u64, m0: Mem, m1: Mem, m2: Mem, k: Key, i: nat, a: nat, b: nat)
    ensures AtSlot(child, h, k, i, a, b) && k.d <= 2 && Grew(m0, m1, Child(k, i))
              && Effect(Reserve, h, m1, m2, child.depth, a, b)
            ==> Effect(Reserve, h, m0, m2, k.d, a, b)
  {
    hide Prefix, Effect, Kept, Needed, SameFrames, SameLeaves, Inv, AtSlot;
    if AtSlot(child, h, k, i, a, b) && k.d <= 2 && Grew(m0, m1, Child(k, i))
       && Effect(Reserve, h, m1, m2, child.depth, a, b) {
      AtSlotFacts(child, h, k, i, a, b);
      ReserveDown(h, m0, m1, m2, k.d, 512 * k.p + i, a, b);
    }
  }

  /** The page of a table is in memory and read through its entries. */
  lemma ReadTable(m: Mem, k: Key, page: u64, i: nat)
    ensures Inv(m) && Holds(m, k, page) && i < 512 ==>
              Frame(page) in m.ram && |m.ram[Frame(page)]| == 512 && m.ram[Frame(page)][i] == Slot(m, k, i)
                && Frame(page) == m.tabs[k]
  {
  }

  /** What a table entry says about the table below it. */
  lemma EntrySays(m: Mem, k: Key, i: nat)
    requires Inv(m) && k in m.tabs && k.d <= 2 && i < 512
    ensures Present(Slot(m, k, i)) <==> Child(k, i) in m.tabs
    ensures Child(k, i) in m.tabs ==> PageOf(m.tabs[Child(k, i)], PhysAddr(Slot(m, k, i)))
  {
    assert Slot(m, k, i) == LinkWord(m, Child(k, i));
    ZeroEntry();
    if Child(k, i) in m.tabs {
      assert GoodFrame(m, m.tabs[Child(k, i)]);
      TableEntryFields(m.tabs[Child(k, i)]);
    }
  }

  lemma AtSlotFacts(child: Loc, h: u64, k: Key, i: nat, a: nat, b: nat)
    requires AtSlot(child, h, k, i, a, b)
    ensures k.d <= 3 && child.depth == k.d + 1 && a < b
    ensures Child(k, i) == Key(k.d + 1, 512 * k.p + i)
    ensures Prefix(k.d + 1, a) == 512 * k.p + i && Prefix(k.d + 1, b - 1) == 512 * k.p + i
  {
  }

  /** The same for an entry that a walk reads. */
  lemma LinkSays(m: Mem, k: Key, i: nat)
    ensures Inv(m) && k in m.tabs && k.d <= 2 && i < 512 ==>
              && (Present(Slot(m, k, i)) <==> Child(k, i) in m.tabs)
              && (Child(k, i) in m.tabs ==> Holds(m, Child(k, i), PhysAddr(Slot(m, k, i))))
  {
    if Inv(m) && k in m.tabs && k.d <= 2 && i < 512 { EntrySays(m, k, i); }
  }

  lemma NothingBelow(child: Loc, h: u64, m: Mem, k: Key, i: nat, a: nat, b: nat)
    ensures AtSlot(child, h, k, i, a, b) && k.d <= 2 && Inv(m) && Child(k, i) !in m.tabs ==>
              Effect(Collect, h, m, m, k.d, a, b)
  {
    hide Prefix, Effect, Inv, AtSlot;
    if AtSlot(child, h, k, i, a, b) && k.d <= 2 && Inv(m) && Child(k, i) !in m.tabs {
      AtSlotFacts(child, h, k, i, a, b);
      CollectAbsent(h, m, k.d, 512 * k.p + i, a, b);
    }
  }

  lemma ReadyCollect(h: u64, m: Mem, d: nat, a: nat, b: nat)
    ensures Ready(Collect, h, m, d, a, b)
  {
  }

  /** Collecting below a child leaves the child and the table above it in place. */
  lemma HoldsBelow(child: Loc, h: u64, m0: Mem, m1: Mem, k: Key, i: nat, a: nat, b: nat, page: u64)
    ensures AtSlot(child, h, k, i, a, b) && Effect(Collect, h, m0, m1, child.depth, a, b) && Holds(m0, k, page) ==>
              Holds(m1, k, page)
    ensures AtSlot(child, h, k, i, a, b) && Effect(Collect, h, m0, m1, child.depth, a, b)
              && Holds(m0, Child(k, i), child.page)
            ==> Holds(m1, Child(k, i), child.page)
  {
  }

  /** The child below entry i was kept because some entry of it is present, or dropped because none is. */
  ghost predicate Swept(m1: Mem, m2: Mem, k: Key, i: nat)
    ensures Swept(m1, m2, k, i) ==> Inv(m2)
  {
    && Inv(m2)
    && if NonEmpty(m1, Child(k, i)) then m2 == m1
       else
         && k.d <= 2 && i < 512 && k in m1.tabs && Child(k, i) in m1.tabs && GoodFrame(m1, m1.tabs[k])
         && m2 == DropTable(m1, k, i)
  }

  lemma SweptKeep(m: Mem, k: Key, i: nat, j: nat)
    requires Inv(m) && j < 512 && Present(Slot(m, Child(k, i), j))
    ensures Swept(m, m, k, i)
  {
  }

  /** The two writes of a drop, in terms of the frames the pages name. */
  lemma DropFrames(m: Mem, k: Key, i: nat, page: u64, childPage: u64)
    requires Inv(m) && Holds(m, k, page) && Holds(m, Child(k, i), childPage) && k.d <= 2 && i < 512
    ensures childPage != 0 && childPage / 4096 in m.managed && childPage / 4096 !in m.free
    ensures Frame(page) in m.ram && |m.ram[Frame(page)]| == 512
    ensures k in m.tabs && Child(k, i) in m.tabs && GoodFrame(m, m.tabs[k])
    ensures var row: seq<u64> := m.ram[Frame(page)][i := 0];
      Mem(m.ram[Frame(page) := row], m.tabs - {Child(k, i)}, m.free + {childPage / 4096}, m.managed) ==
        DropTable(m, k, i)
  {
  }

  /** Dropping an empty child: the frame goes back to the allocator, which has it and does not hold it free. */
  lemma SweptDrop(m: Mem, k: Key, i: nat, page: u64, childPage: u64)
    requires Inv(m) && Holds(m, k, page) && Holds(m, Child(k, i), childPage) && k.d <= 2 && i < 512
    requires forall j: nat :: j < 512 ==> !Present(Slot(m, Child(k, i), j))
    ensures childPage != 0 && childPage / 4096 in m.managed && childPage / 4096 !in m.free
    ensures Frame(page) in m.ram && |m.ram[Frame(page)]| == 512
    ensures var row: seq<u64> := m.ram[Frame(page)][i := 0];
      Swept(m, Mem(m.ram[Frame(page) := row], m.tabs - {Child(k, i)}, m.free + {childPage / 4096}, m.managed), k, i)
  {
    DropFrames(m, k, i, page, childPage);
    assert Empty(m, Child(k, i)) && !NonEmpty(m, Child(k, i));
    DropInv(m, k, i);
    hide Inv, NonEmpty, Empty, Present, Slot, DropTable, GoodFrame;
  }

  /** Collecting below a child and then sweeping the child collects the child's whole block. */
  lemma CollectedUp(child: Loc, h: u64, m0: Mem, m1: Mem, m2: Mem, k: Key, i: nat, a: nat, b: nat, page: u64)
    ensures AtSlot(child, h, k, i, a, b) && k.d <= 2 && Inv(m0) && Effect(Collect, h, m0, m1, child.depth, a, b)
              && Swept(m1, m2, k, i)
            && Holds(m1, k, page)
            ==> Effect(Collect, h, m0, m2, k.d, a, b) && Holds(m2, k, page)
  {
    hide Prefix, Effect, Inv, AtSlot, Present, Slot, Holds, DropTable, NonEmpty, Empty;
    SweptHolds(m1, m2, k, i, page);
    if AtSlot(child, h, k, i, a, b) && k.d <= 2 && Inv(m0) && Effect(Collect, h, m0, m1, child.depth, a, b)
       && Swept(m1, m2, k, i)
       && Holds(m1, k, page) {
      AtSlotFacts(child, h, k, i, a, b);
      if NonEmpty(m1, Child(k, i)) {
        CollectKeep(h, m0, m1, k.d, 512 * k.p + i, a, b);
      } else {
        NotNonEmpty(m1, Child(k, i));
        CollectDrop(h, m0, m1, k, i, k.d, 512 * k.p + i, a, b);
      }
    }
  }

  lemma NotNonEmpty(m: Mem, c: Key)
    requires !NonEmpty(m, c)
    ensures Empty(m, c)
  {
  }

  lemma SweptHolds(m1: Mem, m2: Mem, k: Key, i: nat, page: u64)
    ensures Swept(m1, m2, k, i) && Holds(m1, k, page) ==> Holds(m2, k, page)
  {
  }

  /** The tables an edit needs below an entry are there, the child's first. */
  lemma EditBelow(child: Loc, h: u64, e: LeafEdit, m: Mem, k: Key, i: nat, a: nat, b: nat)
    ensures AtSlot(child, h, k, i, a, b) && k.d <= 2 && Inv(m) && k in m.tabs && child.page == PhysAddr(Slot(m, k, i))
              && Ready(Edit(e), h, m, k.d, a, b)
            ==> Ready(Edit(e), h, m, child.depth, a, b) && Holds(m, Child(k, i), child.page)
  {
    hide Prefix, Ready, Inv, AtSlot, Slot, PhysAddr, Holds, Present;
    if AtSlot(child, h, k, i, a, b) && k.d <= 2 && Inv(m) && k in m.tabs && Ready(Edit(e), h, m, k.d, a, b) {
      AtSlotFacts(child, h, k, i, a, b);
      ReadyEdit(e, h, m, k.d, 512 * k.p + i, a, b);
      LinkSays(m, k, i);
    }
  }

  lemma EditUp(child: Loc, h: u64, e: LeafEdit, m0: Mem, m1: Mem, k: Key, i: nat, a: nat, b: nat)
    ensures AtSlot(child, h, k, i, a, b) && Effect(Edit(e), h, m0, m1, child.depth, a, b) ==>
              Effect(Edit(e), h, m0, m1, k.d, a, b)
  {
  }

  lemma AtLeaf(child: Loc, h: u64, k: Key, i: nat, a: nat, b: nat)
    requires AtSlot(child, h, k, i, a, b) && child.depth > 3
    ensures b == a + 1 && k == Key(3, Prefix(3, a)) && i == a % 512 && child.start == PageAt(h, a)
  {
  }

  lemma OnePage(child: Loc, h: u64, k: Key, i: nat, a: nat, b: nat)
    ensures AtSlot(child, h, k, i, a, b) && child.depth > 3 ==> b - a == 1
  {
  }

  /** Storing the callback's word in the entry of page a edits exactly that page. */
  lemma EditedState(child: Loc, h: u64, e: LeafEdit, m: Mem, k: Key, i: nat, a: nat, b: nat, page: u64)
    requires Inv(m) && AtSlot(child, h, k, i, a, b) && Holds(m, k, page) && child.depth > 3
               && Ready(Edit(e), h, m, k.d, a, b)
    ensures i < 512 && Frame(page) in m.ram && |m.ram[Frame(page)]| == 512
    ensures var row: seq<u64> := m.ram[Frame(page)][i := LeafWord(e, child.start)];
      var m' := Mem(m.ram[Frame(page) := row], m.tabs, m.free, m.managed);
      Inv(m') && Effect(Edit(e), h, m, m', k.d, a, b)
  {
    hide LeafWord, Inv, AtSlot, Effect, Slot, Frame, Prefix;
    ReadTable(m, k, page, i);
    AtLeaf(child, h, k, i, a, b);
    EditOne(e, h, m, a);
    var row: seq<u64> := m.ram[Frame(page)][i := LeafWord(e, child.start)];
    assert WriteSlot(m, k, i, LeafWord(e, child.start)) == Mem(m.ram[Frame(page) := row], m.tabs, m.free, m.managed);
  }

  lemma ChildRange(child: Loc, page: u64, h: u64, k: Key, i: nat, a: nat, b: nat)
    ensures AtSlot(child, h, k, i, a, b) && k.d <= 2 ==> InRange(child.(page := page), h, Child(k, i), a, b)
  {
  }

  /** Walking below depth d leaves the tables down to depth d where they are. */
  lemma HoldsAfter(visit: Visit, h: u64, m0: Mem, m1: Mem, d: nat, a: nat, b: nat, k: Key, page: u64)
    requires k.d <= d
    ensures Effect(visit, h, m0, m1, d, a, b) && Holds(m0, k, page) ==> Holds(m1, k, page)
  {
  }

  /** An accepted range clear of the last root slot is a range of pages of the root. */
  lemma RangeOfCall(address: u64, end: u64, top: u64, h: u64, a: nat, b: nat)
    requires h == HalfOf(address) && a == PageNumber(address) && b == PageNumber(end) && end <= 0xffff_ff80_0000_0000
    ensures Accepted(address, end) ==>
              InRange(Loc(top, 0, address, end), h, ROOT, a, b) && Half(h) && a < b <= 0xf_f800_0000
  {
    hide Accepted, PageNumber, HalfOf;
    if Accepted(address, end) {
      InnerRange(address, end, h, a, b);
      RootPrefix(a, b);
    }
  }

  lemma FitsOfCall(address: u64, end: u64, page: u64, flags: nat, h: u64, a: nat, b: nat)
    requires h == HalfOf(address) && a == PageNumber(address) && b == PageNumber(end) && end <= 0xffff_ff80_0000_0000
    ensures Accepted(address, end) && page % 4096 == 0 && page + (end - address) <= 0x10_0000_0000_0000
            ==> Fits(h, a, b, page) && Linear(h, a, page, flags) == AssignLinear(page, address, ConvertFlags(flags))
  {
    hide Accepted, PageNumber, ConvertFlags, HalfOf, PageAt, InTable, StartIdx, EndIdx, RootBlockOk;
    if Accepted(address, end) {
      InnerRange(address, end, h, a, b);
      HalfAndSpan(h, a, b);
      PageAtStart(h, a, address);
    }
  }

  lemma HalfAndSpan(h: u64, a: nat, b: nat)
    ensures InTable(h, 0, a, b) ==> Half(h) && a < b <= 0xf_f800_0000
  {
  }

  lemma PageAtStart(h: u64, a: nat, address: u64)
    requires address == h + 4096 * a
    ensures PageAt(h, a) == address
  {
  }

  lemma RootHolds(visit: Visit, h: u64, m0: Mem, m1: Mem, a: nat, b: nat, top: u64)
    ensures Effect(visit, h, m0, m1, 0, a, b) && Holds(m0, ROOT, top) ==> Holds(m1, ROOT, top)
  {
  }

  lemma RootPrefix(a: nat, b: nat)
    requires a < b <= 0xf_f800_0000
    ensures Prefix(0, a) == 0
  {
  }

  /** A free page for every table that the range needs and the tree lacks. */
  ghost predicate EnoughFree(m: Mem, a: nat, b: nat) {
    |Needed(0, a, b) - m.tabs.Keys| <= |m.free|
  }

  lemma ReadyToReserve(h: u64, m: Mem, a: nat, b: nat)
    ensures EnoughFree(m, a, b) ==> Ready(Reserve, h, m, 0, a, b)
  {
  }

  /** Every table on the paths of the range exists. */
  ghost predicate TablesExist(m: Mem, a: nat, b: nat) {
    Needed(0, a, b) <= m.tabs.Keys
  }

  lemma ReadyToClear(h: u64, m: Mem, a: nat, b: nat)
    ensures TablesExist(m, a, b) ==> Ready(Edit(Clear), h, m, 0, a, b)
  {
  }

  lemma ReservedEdit(h: u64, a: nat, b: nat, page: u64, flags: nat, m0: Mem, m1: Mem)
    ensures Fits(h, a, b, page) && Effect(Reserve, h, m0, m1, 0, a, b) ==>
              Ready(Edit(Linear(h, a, page, flags)), h, m1, 0, a, b)
  {
    hide Effect, Ready, Linear, Fits, WordsOk;
    if Fits(h, a, b, page) && Effect(Reserve, h, m0, m1, 0, a, b) {
      AssignedWordsOk(h, a, b, page, flags);
      ReservedReady(h, m0, m1, Linear(h, a, page, flags), a, b);
    }
  }

  lemma AssignStep(h: u64, a: nat, b: nat, page: u64, flags: nat, m0: Mem, m1: Mem, m2: Mem)
    ensures Fits(h, a, b, page) && Effect(Reserve, h, m0, m1, 0, a, b)
              && Effect(Edit(Linear(h, a, page, flags)), h, m1, m2, 0, a, b)
            ==> Step(AssignOp(h, a, b, page, flags), m0, m2)
  {
    hide Effect, Linear, Assigned, Fits;
    if Fits(h, a, b, page) && Effect(Reserve, h, m0, m1, 0, a, b)
       && Effect(Edit(Linear(h, a, page, flags)), h, m1, m2, 0, a, b) {
      AssignPasses(m0, m1, m2, Linear(h, a, page, flags), h, a, b);
    }
  }

  lemma RemoveStep(h: u64, a: nat, b: nat, m0: Mem, m1: Mem, m2: Mem)
    requires a < b <= 0xf_f800_0000
    ensures Half(h) && Effect(Edit(Clear), h, m0, m1, 0, a, b) && Effect(Collect, h, m1, m2, 0, a, b) ==>
              Step(RemoveOp(h, a, b), m0, m2)
  {
    hide Effect, Removed;
    if Half(h) && Effect(Edit(Clear), h, m0, m1, 0, a, b) && Effect(Collect, h, m1, m2, 0, a, b) {
      RemovePasses(m0, m1, m2, h, a, b);
    }
  }

  /** What an assignment leaves in the entries, as numbers: the page's address, present, and a bit for each flag. */
  lemma AssignedLeaves(h: u64, a: nat, b: nat, page: u64, flags: nat, m0: Mem, m1: Mem)
    ensures Fits(h, a, b, page) && Step(AssignOp(h, a, b, page, flags), m0, m1) ==>
              forall v: nat ::
                Leaf(m1, v) ==
                if a <= v < b
                then page + 4096 * (v - a) + 1 + (if flags % 2 == 1 then 4 else 0)
                     + (if flags / 8 % 2 == 1 then 8 else 0) + (if flags / 4 % 2 == 1 then 2 else 0)
                     + (if flags / 2 % 2 == 1 then 0 else 0x8000_0000_0000_0000)
                else Leaf(m0, v)
  {
    hide Leaf, LeafWord, Inv, Kept, BitAnd, PhysAddr, Present, Large, User, Writable, NoExecute, Linear;
    if Fits(h, a, b, page) && Step(AssignOp(h, a, b, page, flags), m0, m1) {
      forall v: nat | a <= v < b
        ensures LeafWord(Linear(h, a, page, flags), PageAt(h, v)) ==
                page + 4096 * (v - a) + 1 + (if flags % 2 == 1 then 4 else 0)
                + (if flags / 8 % 2 == 1 then 8 else 0) + (if flags / 4 % 2 == 1 then 2 else 0)
                + (if flags / 2 % 2 == 1 then 0 else 0x8000_0000_0000_0000)
      {
        AssignedWord(h, a, b, page, flags, v);
      }
    }
  }

  lemma RemovedLeaves(h: u64, a: nat, b: nat, m0: Mem, m1: Mem)
    ensures Step(RemoveOp(h, a, b), m0, m1) ==>
              forall v: nat :: Leaf(m1, v) == if a <= v < b then 0 else Leaf(m0, v)
  {
    hide Leaf, Inv, Kept, Collected;
  }

  lemma TakenStep(m: Mem, f: nat)
    requires Inv(m)
    ensures f in m.free ==> var m' := m.(free := m.free - {f}); Inv(m') && Step(TakeOp(f), m, m')
  {
    if f in m.free {
      FreeApart(m);
      FreeChanged(m, m.free - {f});
    }
    hide Inv;
  }

  lemma GivenStep(m: Mem, f: nat)
    requires Inv(m)
    ensures f in m.managed && !OwnedFrame(m, f) ==>
              var m' := m.(free := m.free + {f}); Inv(m') && Step(GiveOp(f), m, m')
  {
    if f in m.managed && !OwnedFrame(m, f) {
      FreeApart(m);
      FreeChanged(m, m.free + {f});
    }
    hide Inv;
  }

  lemma FreeApart(m: Mem)
    requires Inv(m)
    ensures m.free <= m.managed && m.free !! m.tabs.Values
  {
  }

  /** A range of mapped pages has all its tables, so it can be removed. */
  lemma MappedHasTables(m: Mem, a: nat, b: nat)
    requires Inv(m) && forall v: nat :: a <= v < b ==> Leaf(m, v) != 0
    ensures TablesExist(m, a, b)
  {
    hide Inv, Leaf, Prefix;
    forall k | k in Needed(0, a, b) ensures k in m.tabs {
      var v := MeetsWitness(k, a, b);
      MappedPath(m, k.d, v);
    }
  }

  class PageTables {
    const pmm: P.Allocator
    var ram: map<nat, seq<u64>>
    ghost var tabs: map<Key, nat>
    ghost var edits: nat // how many times a leaf callback ran

    ghost function State(): (m: Mem)
      reads this, pmm
      ensures m.ram == ram && m.tabs == tabs && m.free == pmm.free && m.managed == pmm.managed
    {
      Mem(ram, tabs, pmm.free, pmm.managed)
    }

    ghost predicate Valid()
      reads this, pmm, pmm.Repr
      ensures Valid() ==> Inv(State()) && pmm.Valid() && this !in pmm.Repr
    {
      Inv(State()) && pmm.Valid() && this !in pmm.Repr
    }

    /** A driver over given memory whose top-level page is all zero: no table but the root, no page mapped. */
    constructor (pmm: P.Allocator, memory: map<nat, seq<u64>>, ghost root: nat)
      requires pmm.Valid()
      requires forall f :: f in pmm.managed ==> f in memory && |memory[f]| == 512 && 0 < f < 0x100_0000_0000
      requires root in memory && memory[root] == Zeros() && root < 0x100_0000_0000 && root !in pmm.free
      ensures Valid() && this.pmm == pmm && ram == memory
      ensures tabs == map[ROOT := root]
      ensures forall v: nat :: Leaf(State(), v) == 0
    {
      this.pmm := pmm;
      ram := memory;
      tabs, edits := map[ROOT := root], 0;
      new;
      EmptyRoot(State(), root);
    }

    /** A zeroed page for a new table (lines 77-84); the panic on exhaustion is a precondition. */
    method Allocate() returns (page: u64)
      requires Valid() && pmm.free != {}
      modifies `ram, pmm.Repr
      ensures pmm.Valid() && pmm.Repr == old(pmm.Repr) && pmm.managed == old(pmm.managed)
      ensures page / 4096 in old(pmm.free) && PageOf(page / 4096, page) && pmm.free == old(pmm.free) - {page / 4096}
      ensures ram == old(ram)[page / 4096 := Zeros()]
    {
      page := pmm.AllocatePage();
      assert page != 0;
      var zeros: seq<u64> := seq(512, _ => 0);
      assert zeros == Zeros();
      ram := ram[page / 4096 := zeros];
    }

    /** Visits every slot of one table that the range touches (lines 106-145). */
    method ApplyNodes(loc: Loc, visit: Visit, ghost h: u64, ghost k: Key, ghost a: nat, ghost b: nat)
      requires Valid() && InRange(loc, h, k, a, b) && Holds(State(), k, loc.page)
      requires loc.depth == 3 ==> visit.Edit?
      requires Ready(visit, h, State(), loc.depth, a, b)
      modifies `ram, `tabs, `edits, pmm.Repr
      ensures Valid() && pmm.Repr == old(pmm.Repr)
      ensures Effect(visit, h, old(State()), State(), loc.depth, a, b)
      ensures edits == old(edits) + if visit.Edit? then b - a else 0
      decreases 3 - loc.depth, 2
    {
      hide *;
      ghost var m0, c := State(), a;
      var d := loc.depth;
      RangeNotEmpty(loc, h, k, a, b);
      var startIdx := StartIdx(loc.start, d);
      var endIdx := EndIdx(loc.start, loc.end, d);
      EffectEmpty(visit, h, m0, d, a);
      var i := startIdx;
      while i < endIdx
        invariant startIdx <= i <= endIdx
        invariant Valid() && pmm.Repr == old(pmm.Repr) && Holds(State(), k, loc.page)
        invariant a <= c <= b && c == if i == startIdx then a else BlockTo(d, k.p, i - 1, b)
        invariant i == endIdx ==> c == b
        invariant Effect(visit, h, m0, State(), d, a, c)
        invariant Ready(visit, h, State(), d, c, b)
        invariant edits == old(edits) + if visit.Edit? then c - a else 0
      {
        ReadTable(State(), k, loc.page, i);
        var entry := ram[Frame(loc.page)][i];
        var child := Loc(PhysAddr(entry), d + 1, BlkStart(loc.start, i, d), BlkEnd(loc.start, loc.end, i, d));
        ghost var ch, f, t := SlotOfRange(loc, h, k, a, b, i, PhysAddr(entry));
        ghost var m1 := State();
        ReadyPart(visit, h, m1, d, c, t, b);
        VisitNode(child, visit, loc.page, i, h, k, c, t);
        EffectJoin(visit, h, m0, m1, State(), d, a, c, t);
        ReadyRest(visit, h, m1, State(), d, c, t, b);
        c := t;
        i := i + 1;
      }
    }

    /** Calls the node callback on one entry. */
    method VisitNode(child: Loc, visit: Visit, page: u64, i: nat, ghost h: u64, ghost k: Key, ghost a: nat,
        ghost b: nat)
      requires Valid() && AtSlot(child, h, k, i, a, b) && Holds(State(), k, page)
      requires child.page == PhysAddr(Slot(State(), k, i))
      requires k.d == 3 ==> visit.Edit?
      requires Ready(visit, h, State(), k.d, a, b)
      modifies `ram, `tabs, `edits, pmm.Repr
      ensures Valid() && pmm.Repr == old(pmm.Repr) && Holds(State(), k, page)
      ensures Effect(visit, h, old(State()), State(), k.d, a, b)
      ensures edits == old(edits) + if visit.Edit? then b - a else 0
      decreases 3 - k.d, 1
    {
      assert i < 512 && k.d <= 3;
      hide *;
      match visit
      case Reserve => NodeReserve(child, page, i, h, k, a, b);
      case Collect => NodeGc(child, page, i, h, k, a, b);
      case Edit(e) => NodeLeaf(child, e, page, i, h, k, a, b);
    }

    /** Allocates the child table when the entry is absent, then reserves below it (lines 147-161). */
    method NodeReserve(child: Loc, page: u64, i: nat, ghost h: u64, ghost k: Key, ghost a: nat, ghost b: nat)
      requires Valid() && AtSlot(child, h, k, i, a, b) && Holds(State(), k, page) && k.d <= 2 && i < 512
      requires child.page == PhysAddr(Slot(State(), k, i))
      requires Ready(Reserve, h, State(), k.d, a, b)
      modifies `ram, `tabs, `edits, pmm.Repr
      ensures Valid() && pmm.Repr == old(pmm.Repr) && Holds(State(), k, page)
      ensures Effect(Reserve, h, old(State()), State(), k.d, a, b)
      ensures edits == old(edits)
      decreases 3 - k.d, 0
    {
      hide *;
      ghost var m0 := State();
      var next := ReserveEntry(child, page, i, h, k, a, b);
      ghost var m1 := State();
      GrewReady(child, h, m0, m1, k, i, a, b);
      ChildRange(child, next, h, k, i, a, b);
      Descend(child.(page := next), Reserve, h, Child(k, i), a, b);
      GrewDown(child, h, m0, m1, State(), k, i, a, b);
      HoldsAfter(Reserve, h, m0, State(), k.d, a, b, k, page);
    }

    /** `if (depth < PAGE_MAP_DEPTH_BOTTOM) apply_nodes (loc, visit)` (lines 159-160 and 172-173). */
    method Descend(c: Loc, visit: Visit, ghost h: u64, ghost k: Key, ghost a: nat, ghost b: nat)
      requires Valid() && InRange(c, h, k, a, b) && Holds(State(), k, c.page)
      requires !visit.Edit? && Ready(visit, h, State(), c.depth, a, b)
      modifies `ram, `tabs, `edits, pmm.Repr
      ensures Valid() && pmm.Repr == old(pmm.Repr)
      ensures Effect(visit, h, old(State()), State(), c.depth, a, b)
      ensures edits == old(edits)
      decreases 3 - c.depth, 3
    {
      assert c.depth <= 3;
      hide *;
      if c.depth < 3 {
        ApplyNodes(c, visit, h, k, a, b);
      } else {
        EffectBottom(visit, h, State(), a, b);
      }
    }

    /** `if (!(*entry & PRESENT)) { next = allocate (); *entry = next | PM_PERMS; }` and the child's page after it
        (lines 153-157). */
    method ReserveEntry(child: Loc, page: u64, i: nat, ghost h: u64, ghost k: Key, ghost a: nat, ghost b: nat)
        returns (next: u64)
      requires Valid() && AtSlot(child, h, k, i, a, b) && Holds(State(), k, page) && k.d <= 2 && i < 512
      requires child.page == PhysAddr(Slot(State(), k, i))
      requires Ready(Reserve, h, State(), k.d, a, b)
      modifies `ram, `tabs, pmm.Repr
      ensures Valid() && pmm.Repr == old(pmm.Repr)
      ensures Grew(old(State()), State(), Child(k, i)) && Holds(State(), Child(k, i), next)
    {
      hide Ready, AtSlot, Needed, Prefix, Inv, Grew, Slot, Frame, Present, Or, PmPerms, Zeros, P.Allocator.Valid,
        PhysAddr;
      ghost var m0 := State();
      ReadTable(m0, k, page, i);
      EntrySays(m0, k, i);
      AtSlotFacts(child, h, k, i, a, b);
      next := child.page;
      if !Present(ram[Frame(page)][i]) {
        FrameLeft(h, m0, k.d, 512 * k.p + i, a, b);
        next := Allocate();
        ghost var f := next / 4096;
        AddGrew(m0, k, i, f, next, Frame(page));
        var row: seq<u64> := ram[Frame(page)][i := Or(next, PmPerms())];
        ram := ram[Frame(page) := row];
        tabs := tabs[Child(k, i) := f];
        assert State() == Mem(m0.ram[f := Zeros()][Frame(page) := row], m0.tabs[Child(k, i) := f], m0.free - {f},
          m0.managed);
      } else {
        NoneGrew(m0, Child(k, i));
      }
    }

    /** Collects below the child, then drops the child if that left it empty (lines 163-186). */
    method NodeGc(child: Loc, page: u64, i: nat, ghost h: u64, ghost k: Key, ghost a: nat, ghost b: nat)
      requires Valid() && AtSlot(child, h, k, i, a, b) && Holds(State(), k, page) && k.d <= 2 && i < 512
      requires child.page == PhysAddr(Slot(State(), k, i))
      modifies `ram, `tabs, `edits, pmm.Repr
      ensures Valid() && pmm.Repr == old(pmm.Repr) && Holds(State(), k, page)
      ensures Effect(Collect, h, old(State()), State(), k.d, a, b)
      ensures edits == old(edits)
      decreases 3 - k.d, 0
    {
      hide *;
      ghost var m0 := State();
      ReadTable(m0, k, page, i);
      LinkSays(m0, k, i);
      if !Present(ram[Frame(page)][i]) {
        NothingBelow(child, h, m0, k, i, a, b);
        return;
      }
      ChildRange(child, child.page, h, k, i, a, b);
      ReadyCollect(h, m0, child.depth, a, b);
      Descend(child, Collect, h, Child(k, i), a, b);
      ghost var m1 := State();
      HoldsBelow(child, h, m0, m1, k, i, a, b, page);
      CollectEntry(child.page, page, i, k);
      CollectedUp(child, h, m0, m1, State(), k, i, a, b, page);
    }

    /** Frees the table below entry i when none of its 512 entries is present (lines 175-185). */
    method CollectEntry(childPage: u64, page: u64, i: nat, ghost k: Key)
      requires Valid() && Holds(State(), k, page) && Holds(State(), Child(k, i), childPage) && k.d <= 2 && i < 512
      modifies `ram, `tabs, pmm.Repr
      ensures Valid() && pmm.Repr == old(pmm.Repr)
      ensures Swept(old(State()), State(), k, i)
    {
      hide Inv, Present, Slot, Swept, Empty, NonEmpty, P.Allocator.Valid, Frame;
      ghost var m1, c := State(), Child(k, i);
      ReadTable(m1, k, page, i);
      ReadTable(m1, c, childPage, 0);
      for j := 0 to 512
        invariant Valid() && State() == m1 && pmm.Repr == old(pmm.Repr)
        invariant forall l: nat :: l < j ==> !Present(Slot(m1, c, l))
      {
        ReadTable(m1, c, childPage, j);
        if Present(ram[Frame(childPage)][j]) {
          SweptKeep(m1, k, i, j);
          return;
        }
      }
      SweptDrop(m1, k, i, page, childPage);
      var row: seq<u64> := ram[Frame(page)][i := 0];
      ram := ram[Frame(page) := row];
      tabs := tabs - {c};
      var outcome := pmm.FreePage(childPage);
      assert outcome.Freed?;
      assert State() == Mem(m1.ram[Frame(page) := row], m1.tabs - {c}, m1.free + {childPage / 4096}, m1.managed);
    }

    /** Walks down to the last level and edits the entry there (lines 199-212). */
    method NodeLeaf(child: Loc, e: LeafEdit, page: u64, i: nat, ghost h: u64, ghost k: Key, ghost a: nat, ghost b: nat)
      requires Valid() && AtSlot(child, h, k, i, a, b) && Holds(State(), k, page) && i < 512
      requires child.page == PhysAddr(Slot(State(), k, i))
      requires Ready(Edit(e), h, State(), k.d, a, b)
      modifies `ram, `tabs, `edits, pmm.Repr
      ensures Valid() && pmm.Repr == old(pmm.Repr) && Holds(State(), k, page)
      ensures Effect(Edit(e), h, old(State()), State(), k.d, a, b)
      ensures edits == old(edits) + (b - a)
      decreases 3 - k.d, 0
    {
      hide *;
      ghost var m0 := State();
      if child.depth <= 3 {
        EditBelow(child, h, e, m0, k, i, a, b);
        ChildRange(child, child.page, h, k, i, a, b);
        ApplyNodes(child, Edit(e), h, Child(k, i), a, b);
        EditUp(child, h, e, m0, State(), k, i, a, b);
        HoldsAfter(Edit(e), h, m0, State(), k.d, a, b, k, page);
        return;
      }
      OnePage(child, h, k, i, a, b);
      EditEntry(child, e, page, i, h, k, a, b);
      HoldsAfter(Edit(e), h, m0, State(), k.d, a, b, k, page);
    }

    /** The leaf callback on one entry (lines 211, 220-238). */
    method EditEntry(child: Loc, e: LeafEdit, page: u64, i: nat, ghost h: u64, ghost k: Key, ghost a: nat, ghost b: nat)
      requires Valid() && AtSlot(child, h, k, i, a, b) && Holds(State(), k, page) && child.depth > 3
      requires Ready(Edit(e), h, State(), k.d, a, b)
      modifies `ram, `edits
      ensures Valid() && pmm.Repr == old(pmm.Repr)
      ensures Effect(Edit(e), h, old(State()), State(), k.d, a, b)
      ensures edits == old(edits) + 1
    {
      hide Inv, Ready, Effect, AtSlot, Holds, LeafWord, P.Allocator.Valid, Frame;
      ghost var m := State();
      ReadTable(m, k, page, i);
      EditedState(child, h, e, m, k, i, a, b, page);
      var row: seq<u64> := ram[Frame(page)][i := LeafWord(e, child.start)];
      ram := ram[Frame(page) := row];
      edits := edits + 1;
      assert State() == Mem(m.ram[Frame(page) := row], m.tabs, m.free, m.managed);
    }

    /** Maps [address, address + size) to the physical memory from `page` on (lines 243-297). Beyond the checks of
        `apply_nodes_entry`, which panic, this needs the range to stay out of the last slot of the root, physical
        memory that fits an entry, and a free page for every table that is missing. */
    method Assign(top: u64, flags: nat, address: u64, size: u64, page: u64)
      requires Valid() && Holds(State(), ROOT, top)
      requires address + size <= 0xffff_ff80_0000_0000 && Accepted(address, address + size)
      requires page % 4096 == 0 && page + size <= 0x10_0000_0000_0000
      requires EnoughFree(State(), PageNumber(address), PageNumber(address + size))
      modifies `ram, `tabs, `edits, pmm.Repr
      ensures Valid() && pmm.Repr == old(pmm.Repr) && Holds(State(), ROOT, top)
      ensures Step(AssignOp(HalfOf(address), PageNumber(address), PageNumber(address + size), page, flags),
                old(State()), State())
      ensures forall v: nat ::
                Leaf(State(), v) ==
                if PageNumber(address) <= v < PageNumber(address + size)
                then page + 4096 * (v - PageNumber(address)) + 1 + (if flags % 2 == 1 then 4 else 0)
                     + (if flags / 8 % 2 == 1 then 8 else 0) + (if flags / 4 % 2 == 1 then 2 else 0)
                     + (if flags / 2 % 2 == 1 then 0 else 0x8000_0000_0000_0000)
                else Leaf(old(State()), v)
      ensures edits == old(edits) + (PageNumber(address + size) - PageNumber(address))
    {
      hide *;
      var end := address + size;
      ghost var h, a, b, m0 := HalfOf(address), PageNumber(address), PageNumber(end), State();
      RangeOfCall(address, end, top, h, a, b);
      FitsOfCall(address, end, page, flags, h, a, b);
      ReadyToReserve(h, m0, a, b);
      ApplyNodes(Loc(top, 0, address, end), Reserve, h, ROOT, a, b);
      ghost var m1 := State();
      RootHolds(Reserve, h, m0, m1, a, b, top);
      ReservedEdit(h, a, b, page, flags, m0, m1);
      ApplyNodes(Loc(top, 0, address, end), Edit(AssignLinear(page, address, ConvertFlags(flags))), h, ROOT, a, b);
      RootHolds(Edit(Linear(h, a, page, flags)), h, m1, State(), a, b, top);
      AssignStep(h, a, b, page, flags, m0, m1, State());
      AssignedLeaves(h, a, b, page, flags, m0, State());
    }

    /** Unmaps [address, address + size) and frees the tables this empties (lines 310-328). The leaf walker does not
        test for absent tables, so every table of the range's paths must exist. */
    method Remove(top: u64, address: u64, size: u64)
      requires Valid() && Holds(State(), ROOT, top)
      requires address + size <= 0xffff_ff80_0000_0000 && Accepted(address, address + size)
      requires TablesExist(State(), PageNumber(address), PageNumber(address + size))
      modifies `ram, `tabs, `edits, pmm.Repr
      ensures Valid() && pmm.Repr == old(pmm.Repr) && Holds(State(), ROOT, top)
      ensures Step(RemoveOp(HalfOf(address), PageNumber(address), PageNumber(address + size)), old(State()), State())
      ensures forall v: nat ::
                Leaf(State(), v) ==
                if PageNumber(address) <= v < PageNumber(address + size) then 0 else Leaf(old(State()), v)
      ensures edits == old(edits) + (PageNumber(address + size) - PageNumber(address))
    {
      hide *;
      var end := address + size;
      ghost var h, a, b, m0 := HalfOf(address), PageNumber(address), PageNumber(end), State();
      RangeOfCall(address, end, top, h, a, b);
      ReadyToClear(h, m0, a, b);
      ApplyNodes(Loc(top, 0, address, end), Edit(Clear), h, ROOT, a, b);
      ghost var m1 := State();
      RootHolds(Edit(Clear), h, m0, m1, a, b, top);
      ReadyCollect(h, m1, 0, a, b);
      ApplyNodes(Loc(top, 0, address, end), Collect, h, ROOT, a, b);
      RootHolds(Collect, h, m1, State(), a, b, top);
      RemoveStep(h, a, b, m0, m1, State());
      RemovedLeaves(h, a, b, m0, State());
    }

    /** A page taken by someone else from the same allocator (src/kernel.c:359 and 394). */
    method TakePage() returns (page: u64)
      requires Valid()
      modifies pmm.Repr
      ensures Valid() && pmm.Repr == old(pmm.Repr) && ram == old(ram) && tabs == old(tabs) && edits == old(edits)
      ensures page == 0 <==> old(pmm.free) == {}
      ensures page == 0 ==> State() == old(State())
      ensures page != 0 ==> page % 4096 == 0 && Step(TakeOp(page / 4096), old(State()), State())
    {
      hide P.Allocator.Valid, Inv;
      ghost var m := State();
      page := pmm.AllocatePage();
      TakenStep(m, page / 4096);
    }

    /** Such a page given back (src/kernel.c:377 and 406). */
    method GivePage(page: u64)
      requires Valid() && page != 0 && page / 4096 in pmm.managed && !OwnedFrame(State(), page / 4096)
      modifies pmm.Repr
      ensures Valid() && pmm.Repr == old(pmm.Repr) && ram == old(ram) && tabs == old(tabs) && edits == old(edits)
      ensures Step(GiveOp(page / 4096), old(State()), State())
    {
      hide P.Allocator.Valid, Inv;
      ghost var m := State();
      GivenStep(m, page / 4096);
      var outcome := pmm.FreePage(page);
      assert outcome.Freed?;
    }
  }
}
