/** Where `mmu_remove` goes when tables of its range are missing: the leaf walker (src/drivers/mmu.c,
    `node_callback_leaf`) does not test for presence and follows address fields of 0 into physical page 0. */
module Stray {
  import opened Words
  import opened Entries
  import opened Paging
  import opened Walk
  import opened Tables
  import opened Effects
  import opened Spaces
  import opened Runs
  import opened Mmu
  import P = Pmm

  /** The leaf walk for page v comes to an entry whose address field is 0, and goes on in physical page 0. */
  ghost predicate FallsOff(m: Mem, v: nat) {
    exists d: nat :: d <= 2 && Key(d, Prefix(d, v)) in m.tabs && PhysAddr(WalkEntry(m, d, v)) == 0
  }

  lemma NextOnPath(m: Mem, d: nat, v: nat)
    requires Inv(m) && d <= 2 && Key(d, Prefix(d, v)) in m.tabs
    ensures PhysAddr(WalkEntry(m, d, v)) == 0 <==> Key(d + 1, Prefix(d + 1, v)) !in m.tabs
  {
    var k, i := Key(d, Prefix(d, v)), Index(d, v);
    PrefixStep(d, v);
    hide PhysAddr, Present, Prefix, Index;
    EntrySays(m, k, i);
    if Child(k, i) in m.tabs {
      assert GoodFrame(m, m.tabs[Child(k, i)]);
      FrameNotZero(m, Child(k, i));
    } else {
      assert Slot(m, k, i) == LinkWord(m, Child(k, i)) == 0;
      ZeroAddress();
    }
  }

  lemma ZeroAddress()
    ensures PhysAddr(0) == 0
  {
  }

  lemma FrameNotZero(m: Mem, k: Key)
    requires Inv(m) && k in m.tabs && k != ROOT
    ensures m.tabs[k] > 0
  {
  }

  /** The condition `mmu_remove` needs, exactly: every table of the range's paths exists if and only if the leaf
      walk, which never tests PRESENT, is not led to physical page 0 for any page of the range. */
  lemma TablesExistExactly(m: Mem, a: nat, b: nat)
    requires Inv(m) && a < b <= 0x10_0000_0000
    ensures TablesExist(m, a, b) <==> forall v: nat :: a <= v < b ==> !FallsOff(m, v)
  {
    if TablesExist(m, a, b) {
      forall v: nat | a <= v < b ensures !FallsOff(m, v) { PathStands(m, a, b, v); }
    } else {
      var k :| k in Needed(0, a, b) && k !in m.tabs;
      var v := MeetsWitness(k, a, b);
      MissingFallsOff(m, k.d, v);
    }
  }

  lemma PathStands(m: Mem, a: nat, b: nat, v: nat)
    requires Inv(m) && TablesExist(m, a, b) && a <= v < b
    ensures !FallsOff(m, v)
  {
    forall d: nat | d <= 2 && Key(d, Prefix(d, v)) in m.tabs ensures PhysAddr(WalkEntry(m, d, v)) != 0 {
      WitnessMeets(d + 1, v, a, b);
      NextOnPath(m, d, v);
    }
  }

  lemma MissingFallsOff(m: Mem, d: nat, v: nat)
    requires Inv(m) && 0 < d <= 3 && v < 0x10_0000_0000 && Key(d, Prefix(d, v)) !in m.tabs
    ensures FallsOff(m, v)
  {
    assert Prefix(0, v) == 0 && ROOT in m.tabs;
    if d > 1 && Key(d - 1, Prefix(d - 1, v)) !in m.tabs {
      MissingFallsOff(m, d - 1, v);
    } else {
      NextOnPath(m, d - 1, v);
    }
  }

  /** Entry i of the 512 in frame f of memory. */
  ghost function EntryAt(m: Mem, f: nat, i: nat): u64 {
    if f in m.ram && i < |m.ram[f]| then m.ram[f][i] else 0
  }

  /** The frame in which the leaf walk for page v is at depth d: it goes where address fields say, present or not. */
  ghost function WalkFrame(m: Mem, d: nat, v: nat): nat
    requires d <= 3 && ROOT in m.tabs
  {
    if d == 0 then m.tabs[ROOT] else Frame(PhysAddr(EntryAt(m, WalkFrame(m, d - 1, v), Index(d - 1, v))))
  }

  /** No entry of physical page 0 leads anywhere else. */
  ghost predicate ZeroPageLoops(m: Mem) {
    forall i :: 0 <= i < 512 ==> PhysAddr(EntryAt(m, 0, i)) == 0
  }

  /** The next frame of the path: the child's where there is one, else page 0. */
  lemma NextFrame(m: Mem, d: nat, v: nat)
    requires Inv(m) && d <= 2 && v < 0x10_0000_0000 && Key(d, Prefix(d, v)) in m.tabs
    ensures var k, c := Key(d, Prefix(d, v)), Key(d + 1, Prefix(d + 1, v));
      && Frame(PhysAddr(EntryAt(m, m.tabs[k], Index(d, v)))) == (if c in m.tabs then m.tabs[c] else 0)
      && (c in m.tabs ==> m.tabs[c] > 0)
  {
    hide PhysAddr, Prefix, Index, Present;
    var k, i := Key(d, Prefix(d, v)), Index(d, v);
    PrefixStep(d, v);
    assert EntryAt(m, m.tabs[k], i) == Slot(m, k, i);
    hide Slot, EntryAt;
    EntrySays(m, k, i);
    NextOnPath(m, d, v);
    if Child(k, i) in m.tabs { FrameNotZero(m, Child(k, i)); }
    hide Inv;
  }

  /** A table has a parent. */
  lemma ParentStands(m: Mem, d: nat, v: nat)
    requires Inv(m) && 0 < d <= 3 && Key(d, Prefix(d, v)) in m.tabs
    ensures Key(d - 1, Prefix(d - 1, v)) in m.tabs
  {
    PrefixStep(d - 1, v);
    assert Parent(Key(d, Prefix(d, v))) in m.tabs;
  }

  /** What `mmu_remove` clears for page v, its table there or not: the entry of that table, or else one of physical
      page 0. */
  lemma {:induction false} ClearedFrame(m: Mem, d: nat, v: nat)
    requires Inv(m) && 0 < d <= 3 && v < 0x10_0000_0000 && ZeroPageLoops(m)
    ensures WalkFrame(m, d, v) == if Key(d, Prefix(d, v)) in m.tabs then m.tabs[Key(d, Prefix(d, v))] else 0
    ensures WalkFrame(m, d, v) == 0 <==> Key(d, Prefix(d, v)) !in m.tabs
  {
    hide Inv, PhysAddr, Prefix, Index, EntryAt, Frame;
    RootIsTable(m, v);
    if d > 1 { ClearedFrame(m, d - 1, v); }
    assert PageOf(0, 0);
    if Key(d - 1, Prefix(d - 1, v)) in m.tabs {
      NextFrame(m, d - 1, v);
    } else if Key(d, Prefix(d, v)) in m.tabs {
      ParentStands(m, d, v);
    }
  }

  /** The leaf callback of `mmu_remove` for page v, in whatever frame the walk is by then. */
  ghost function ClearAt(m: Mem, v: nat): (m': Mem)
    requires ROOT in m.tabs
    ensures m'.tabs == m.tabs && m'.free == m.free && m'.managed == m.managed
  {
    var f, i := WalkFrame(m, 3, v), v % 512;
    if f in m.ram && i < |m.ram[f]| then
      var row: seq<u64> := m.ram[f][i := 0];
      m.(ram := m.ram[f := row])
    else m
  }

  /** The leaf pass of `mmu_remove` over the pages [a, b), in order. */
  ghost function LeafPass(m: Mem, a: nat, b: nat): (m': Mem)
    requires ROOT in m.tabs
    ensures m'.tabs == m.tabs && m'.free == m.free && m'.managed == m.managed
  {
    if a < b then ClearAt(LeafPass(m, a, b - 1), b - 1) else m
  }

  /** Physical page 0 is memory of 512 entries that lead nowhere else, and no table lies in it. */
  ghost predicate ZeroPage(m: Mem) {
    0 in m.ram && |m.ram[0]| == 512 && 0 !in m.tabs.Values && ZeroPageLoops(m)
  }

  /** Some page of [a, b) without a table has slot i. */
  ghost predicate Astray(m: Mem, a: nat, b: nat, i: nat) {
    exists v: nat :: a <= v < b && v % 512 == i && Key(3, Prefix(3, v)) !in m.tabs
  }

  /** What the pass has done: the tree is as it was with the pages of the range unmapped, as far as they have tables,
      and for the others entries of physical page 0 are gone; no other memory is written. */
  ghost predicate Passed(m: Mem, n: Mem, a: nat, b: nat) {
    && Inv(n) && ZeroPage(n) && n.tabs == m.tabs && n.free == m.free && n.managed == m.managed
    && n.ram.Keys == m.ram.Keys
    && (forall v: nat :: Leaf(n, v) == if a <= v < b then 0 else Leaf(m, v))
    && (forall i :: 0 <= i < 512 ==> EntryAt(n, 0, i) == if Astray(m, a, b, i) then 0 else EntryAt(m, 0, i))
    && forall f :: f in m.ram && f in n.ram && f != 0 && f !in m.tabs.Values ==> n.ram[f] == m.ram[f]
  }

  /** A write to page 0 leaves the tree alone. */
  lemma ZeroPageWrite(m: Mem, i: nat)
    requires Inv(m) && ZeroPage(m) && i < 512
    ensures var row: seq<u64> := m.ram[0][i := 0];
            var n := m.(ram := m.ram[0 := row]);
            Inv(n) && ZeroPage(n) && SameLeaves(m, n)
  {
    var row: seq<u64> := m.ram[0][i := 0];
    var n := m.(ram := m.ram[0 := row]);
    forall k, j ensures Slot(n, k, j) == Slot(m, k, j) { if k in m.tabs { assert m.tabs[k] in m.tabs.Values; } }
    forall c ensures LinkWord(n, c) == LinkWord(m, c) {}
    ZeroAddress();
    hide Slot, LinkWord, PhysAddr, Present, Large;
    forall j | 0 <= j < 512 ensures PhysAddr(EntryAt(n, 0, j)) == 0 {
      assert EntryAt(n, 0, j) == if j == i then 0 else EntryAt(m, 0, j);
    }
  }

  /** A write to the table of page v leaves page 0 alone. */
  lemma TableWrite(m: Mem, v: nat)
    requires Inv(m) && ZeroPage(m) && Key(3, Prefix(3, v)) in m.tabs
    ensures var n := WriteSlot(m, Key(3, Prefix(3, v)), v % 512, 0);
      && Inv(n) && ZeroPage(n) && n.tabs == m.tabs && n.ram.Keys == m.ram.Keys
      && (forall u: nat :: Leaf(n, u) == if u == v then 0 else Leaf(m, u))
      && (forall i :: EntryAt(n, 0, i) == EntryAt(m, 0, i))
      && forall f :: f in m.ram && f in n.ram && f !in m.tabs.Values ==> n.ram[f] == m.ram[f]
  {
    hide PhysAddr, Frame;
    var k := Key(3, Prefix(3, v));
    assert m.tabs[k] in m.tabs.Values;
    WriteInv(m, v, 0);
    var n := WriteSlot(m, k, v % 512, 0);
    forall i ensures EntryAt(n, 0, i) == EntryAt(m, 0, i) {}
    hide Inv, Leaf, EntryAt;
  }

  lemma AstrayOne(m: Mem, v: nat, w: nat)
    requires w == v + 1
    ensures forall i :: Astray(m, v, w, i) <==> i == v % 512 && Key(3, Prefix(3, v)) !in m.tabs
  {
  }

  /** One page of the pass. */
  lemma ClearAtEffect(m: Mem, v: nat, w: nat)
    requires Inv(m) && ZeroPage(m) && v < 0x10_0000_0000 && w == v + 1
    ensures ROOT in m.tabs && Passed(m, ClearAt(m, v), v, w)
  {
    RootIsTable(m, v);
    hide Inv, Leaf, PhysAddr, Prefix, WalkFrame, Astray;
    ClearedFrame(m, 3, v);
    AstrayOne(m, v, w);
    if Key(3, Prefix(3, v)) in m.tabs {
      InTable(m, v);
      TableWrite(m, v);
    } else {
      ZeroPageWrite(m, v % 512);
      NoLeaf(m, v);
    }
  }

  /** With a table the callback writes its entry. */
  lemma InTable(m: Mem, v: nat)
    requires Inv(m) && Key(3, Prefix(3, v)) in m.tabs && ROOT in m.tabs
    requires WalkFrame(m, 3, v) == m.tabs[Key(3, Prefix(3, v))]
    ensures ClearAt(m, v) == WriteSlot(m, Key(3, Prefix(3, v)), v % 512, 0)
  {
    hide WalkFrame;
    assert GoodFrame(m, m.tabs[Key(3, Prefix(3, v))]);
  }

  lemma NoLeaf(m: Mem, v: nat)
    requires Key(3, Prefix(3, v)) !in m.tabs
    ensures Leaf(m, v) == 0
  {
  }

  /** The passes over [a, v) and over v together. */
  lemma PassedOn(m: Mem, n: Mem, o: Mem, a: nat, v: nat, w: nat)
    requires Passed(m, n, a, v) && Passed(n, o, v, w) && a <= v && w == v + 1
    ensures Passed(m, o, a, w)
  {
    hide Inv, Leaf, EntryAt, ZeroPage, Prefix;
    forall i | 0 <= i < 512 ensures Astray(m, a, w, i) <==> Astray(m, a, v, i) || Astray(n, v, w, i) {}
  }

  /** What the leaf pass of `mmu_remove` does to memory for any range, its tables there or not. */
  lemma {:induction false} LeafPassEffect(m: Mem, a: nat, b: nat)
    requires Inv(m) && ZeroPage(m) && a <= b <= 0x10_0000_0000
    ensures ROOT in m.tabs && Passed(m, LeafPass(m, a, b), a, b)
  {
    hide Inv, ZeroPage, Prefix, ClearAt, Passed, LeafPass;
    RootIsTable(m, 0);
    LeafPassIs(m, a, b);
    if a < b {
      var n := LeafPass(m, a, b - 1);
      LeafPassEffect(m, a, b - 1);
      PassedInv(m, n, a, b - 1);
      ClearAtEffect(n, b - 1, b);
      PassedOn(m, n, ClearAt(n, b - 1), a, b - 1, b);
    } else {
      NothingPassed(m, a);
    }
  }

  lemma LeafPassIs(m: Mem, a: nat, b: nat)
    requires ROOT in m.tabs
    ensures a < b ==> LeafPass(m, a, b) == ClearAt(LeafPass(m, a, b - 1), b - 1)
    ensures a >= b ==> LeafPass(m, a, b) == m
  {
  }

  lemma PassedInv(m: Mem, n: Mem, a: nat, b: nat)
    ensures Passed(m, n, a, b) ==> Inv(n) && ZeroPage(n)
  {
  }

  lemma NothingPassed(m: Mem, a: nat)
    requires Inv(m) && ZeroPage(m)
    ensures forall b: nat :: b <= a ==> Passed(m, m, a, b)
  {
    hide Inv, ZeroPage, Leaf;
  }

  // ------------------------------------------------------------------ the walk itself

  /** Where the leaf walk is for the block named k: in its table, or in physical page 0. */
  ghost predicate Stands(m: Mem, k: Key, page: u64) {
    PageOf(if k in m.tabs then m.tabs[k] else 0, page)
  }

  lemma ReadEntry(m: Mem, k: Key, page: u64, i: nat)
    ensures Inv(m) && ZeroPage(m) && Stands(m, k, page) && i < 512 ==>
              Frame(page) in m.ram && |m.ram[Frame(page)]| == 512 && m.ram[Frame(page)][i] == EntryAt(m, Frame(page), i)
  {
    if k in m.tabs && Inv(m) { assert GoodFrame(m, m.tabs[k]); }
    hide Rooted, Linked, LeavesOk;
  }

  /** The entry for slot i leads to where the walk is one level down. */
  lemma NextStands(m: Mem, child: Loc, h: u64, k: Key, i: nat, a: nat, b: nat, page: u64)
    ensures Inv(m) && ZeroPage(m) && Stands(m, k, page) && AtSlot(child, h, k, i, a, b) && k.d <= 2 ==>
              Stands(m, Child(k, i), PhysAddr(EntryAt(m, Frame(page), i)))
  {
    hide PhysAddr, Present, Prefix;
    if Inv(m) && ZeroPage(m) && Stands(m, k, page) && AtSlot(child, h, k, i, a, b) && k.d <= 2 {
      if k in m.tabs {
        assert EntryAt(m, Frame(page), i) == Slot(m, k, i);
        EntrySays(m, k, i);
        if Child(k, i) !in m.tabs {
          assert Slot(m, k, i) == LinkWord(m, Child(k, i)) == 0;
          ZeroAddress();
        }
      } else {
        assert Parent(Child(k, i)) == k;
      }
    }
    hide Slot, EntryAt, LinkWord, Housed, LeavesOk;
  }

  lemma LeafPassJoin(m: Mem, a: nat, c: nat, t: nat)
    requires ROOT in m.tabs && a <= c <= t
    ensures LeafPass(LeafPass(m, a, c), c, t) == LeafPass(m, a, t)
    decreases t - c
  {
    if c < t { LeafPassJoin(m, a, c, t - 1); }
    hide ClearAt;
  }

  /** At the last level the walk is in the frame that `ClearAt` writes. */
  lemma LastStands(m: Mem, child: Loc, h: u64, k: Key, i: nat, a: nat, b: nat, page: u64)
    ensures Inv(m) && ZeroPage(m) && Stands(m, k, page) && AtSlot(child, h, k, i, a, b) && k.d == 3 ==>
              b == a + 1 && Frame(page) in m.ram && i < |m.ram[Frame(page)]| && ROOT in m.tabs
    ensures Inv(m) && ZeroPage(m) && Stands(m, k, page) && AtSlot(child, h, k, i, a, b) && k.d == 3
            && Frame(page) in m.ram && i < |m.ram[Frame(page)]| ==>
              var row: seq<u64> := m.ram[Frame(page)][i := 0];
              Mem(m.ram[Frame(page) := row], m.tabs, m.free, m.managed) == LeafPass(m, a, b)
  {
    if Inv(m) && ZeroPage(m) && Stands(m, k, page) && AtSlot(child, h, k, i, a, b) && k.d == 3 {
      ReadEntry(m, k, page, i);
      RootIsTable(m, a);
      hide Inv, PhysAddr, EntryAt, WalkFrame, ZeroPage;
      ClearedFrame3(m, k, i, a);
      LeafPassIs(m, a, b);
      LeafPassIs(m, a, a);
    }
    hide *;
  }

  lemma ClearedFrame3(m: Mem, k: Key, i: nat, a: nat)
    requires Inv(m) && ZeroPage(m) && a < 0x10_0000_0000 && k.d == 3 && a == 512 * k.p + i && i < 512
    ensures ROOT in m.tabs && WalkFrame(m, 3, a) == (if k in m.tabs then m.tabs[k] else 0) && a % 512 == i
  {
    RootIsTable(m, a);
    assert Prefix(3, a) == k.p;
    hide Inv, Prefix, PhysAddr, EntryAt;
    ClearedFrame(m, 3, a);
  }

  /** Below an entry of the last but one level the same holds for the child's range. */
  lemma PassState(m: Mem, a: nat, b: nat)
    ensures Inv(m) && ZeroPage(m) && a <= b <= 0xf_f800_0000 ==>
              ROOT in m.tabs && Inv(LeafPass(m, a, b)) && ZeroPage(LeafPass(m, a, b))
  {
    hide Inv, ZeroPage, LeafPass;
    if Inv(m) && ZeroPage(m) && a <= b <= 0xf_f800_0000 {
      LeafPassEffect(m, a, b);
      PassedInv(m, LeafPass(m, a, b), a, b);
    }
    hide Passed;
  }

  lemma StandsOn(m: Mem, n: Mem, k: Key, page: u64)
    ensures m.tabs == n.tabs && Stands(m, k, page) ==> Stands(n, k, page)
  {
  }

  /** `apply_nodes` with `node_callback_leaf` and `leaf_callback_clear` (lines 106-145, 199-212 and 232-238), with
      whatever tables there are. */
  method ClearPages(pt: PageTables, loc: Loc, ghost h: u64, ghost k: Key, ghost a: nat, ghost b: nat)
    requires pt.Valid() && ZeroPage(pt.State()) && InRange(loc, h, k, a, b) && Stands(pt.State(), k, loc.page)
    modifies pt`ram, pt`edits
    ensures pt.Valid() && ZeroPage(pt.State()) && ROOT in old(pt.State()).tabs
    ensures pt.State() == LeafPass(old(pt.State()), a, b)
    ensures pt.edits == old(pt.edits) + (b - a)
    decreases 3 - loc.depth
  {
    hide *;
    ghost var m0, c := pt.State(), a;
    var d := loc.depth;
    RangeNotEmpty(loc, h, k, a, b);
    PassStart(m0, a);
    var startIdx := StartIdx(loc.start, d);
    var endIdx := EndIdx(loc.start, loc.end, d);
    var i := startIdx;
    while i < endIdx
      invariant startIdx <= i <= endIdx
      invariant pt.Valid() && ZeroPage(pt.State()) && Stands(pt.State(), k, loc.page)
      invariant a <= c <= b && c == if i == startIdx then a else BlockTo(d, k.p, i - 1, b)
      invariant i == endIdx ==> c == b
      invariant pt.State() == LeafPass(m0, a, c)
      invariant pt.edits == old(pt.edits) + (c - a)
    {
      ghost var m1 := pt.State();
      ReadEntry(m1, k, loc.page, i);
      var entry := pt.ram[Frame(loc.page)][i];
      var child := Loc(PhysAddr(entry), d + 1, BlkStart(loc.start, i, d), BlkEnd(loc.start, loc.end, i, d));
      ghost var ch, f, t := SlotOfRange(loc, h, k, a, b, i, PhysAddr(entry));
      if d < 3 {
        NextStands(m1, child, h, k, i, c, t, loc.page);
        ChildRange(child, child.page, h, k, i, c, t);
        ClearPages(pt, child, h, Child(k, i), c, t);
      } else {
        ClearEntry(pt, child, loc.page, i, h, k, c, t);
      }
      StandsOn(m1, pt.State(), k, loc.page);
      LeafPassJoin(m0, a, c, t);
      c := t;
      i := i + 1;
    }
  }

  /** The callback on one entry of the last level. */
  method ClearEntry(pt: PageTables, child: Loc, page: u64, i: nat, ghost h: u64, ghost k: Key, ghost a: nat,
      ghost b: nat)
    requires pt.Valid() && ZeroPage(pt.State()) && AtSlot(child, h, k, i, a, b) && Stands(pt.State(), k, page)
    requires k.d == 3
    modifies pt`ram, pt`edits
    ensures pt.Valid() && ZeroPage(pt.State()) && ROOT in old(pt.State()).tabs
    ensures pt.State() == LeafPass(old(pt.State()), a, b)
    ensures pt.edits == old(pt.edits) + (b - a)
  {
    hide Inv, AtSlot, LeafPass, ZeroPage, Stands, P.Allocator.Valid, Frame;
    ghost var m := pt.State();
    LastStands(m, child, h, k, i, a, b, page);
    SlotBound(child, h, k, i, a, b);
    PassState(m, a, b);
    var row: seq<u64> := pt.ram[Frame(page)][i := 0];
    pt.ram := pt.ram[Frame(page) := row];
    pt.edits := pt.edits + 1;
    assert pt.State() == Mem(m.ram[Frame(page) := row], m.tabs, m.free, m.managed);
  }

  lemma SlotBound(child: Loc, h: u64, k: Key, i: nat, a: nat, b: nat)
    ensures AtSlot(child, h, k, i, a, b) ==> a < b <= 0xf_f800_0000
  {
  }

  lemma PassStart(m: Mem, a: nat)
    ensures Inv(m) ==> ROOT in m.tabs && LeafPass(m, a, a) == m
  {
  }

  /** What `mmu_remove` does whatever tables there are: the range is unmapped and its emptied tables are given back,
      as always, and besides that only entries of physical page 0 are gone. */
  ghost predicate RemovedAnyway(m0: Mem, m1: Mem, a: nat, b: nat) {
    && Inv(m1) && ZeroPage(m1) && SameFrames(m0, m1) && m1.managed == m0.managed && m1.ram.Keys == m0.ram.Keys
    && Collected(m0, m1, Needed(0, a, b))
    && (forall v: nat :: Leaf(m1, v) == if a <= v < b then 0 else Leaf(m0, v))
    && (forall i :: 0 <= i < 512 ==> EntryAt(m1, 0, i) == if Astray(m0, a, b, i) then 0 else EntryAt(m0, 0, i))
    && (forall f :: OwnedFrame(m0, f) <==> OwnedFrame(m1, f))
    && forall f :: f in m0.ram && f in m1.ram && f != 0 && !OwnedFrame(m0, f) ==> m1.ram[f] == m0.ram[f]
  }

  lemma BothPasses(h: u64, m0: Mem, m1: Mem, m2: Mem, a: nat, b: nat)
    ensures Inv(m0) && ZeroPage(m0) && Passed(m0, m1, a, b) && Effect(Collect, h, m1, m2, 0, a, b) ==>
              RemovedAnyway(m0, m2, a, b)
  {
    hide Inv, Leaf, ZeroPage, Needed, Astray, NonEmpty, EntryAt;
    if Inv(m0) && ZeroPage(m0) && Passed(m0, m1, a, b) && Effect(Collect, h, m1, m2, 0, a, b) {
      ZeroKept(m1, m2);
      OwnedTwice(m0, m1, m2);
    }
  }

  lemma OwnedTwice(m0: Mem, m1: Mem, m2: Mem)
    requires m1.tabs == m0.tabs && m1.free == m0.free && Kept(m1, m2)
    requires forall f :: f in m0.ram && f in m1.ram && f != 0 && f !in m0.tabs.Values ==> m1.ram[f] == m0.ram[f]
    ensures forall f :: OwnedFrame(m0, f) <==> OwnedFrame(m2, f)
    ensures m1.ram.Keys == m0.ram.Keys ==>
              forall f :: f in m0.ram && f in m2.ram && f != 0 && !OwnedFrame(m0, f) ==> m2.ram[f] == m0.ram[f]
  {
    assert forall f :: OwnedFrame(m0, f) <==> OwnedFrame(m1, f);
  }

  /** Page 0 is not the allocator's, so collecting leaves it alone. */
  lemma ZeroKept(m1: Mem, m2: Mem)
    requires Inv(m1) && ZeroPage(m1) && Inv(m2) && Kept(m1, m2)
    ensures ZeroPage(m2) && forall i :: EntryAt(m2, 0, i) == EntryAt(m1, 0, i)
  {
    assert !OwnedFrame(m1, 0);
    assert !OwnedFrame(m2, 0);
    hide Rooted, Linked, LeavesOk, PhysAddr;
    forall i ensures EntryAt(m2, 0, i) == EntryAt(m1, 0, i) {}
  }

  /** With all tables there, that is the removal of the page map's range and nothing else. */
  lemma NothingAstray(h: u64, m0: Mem, m1: Mem, a: nat, b: nat)
    requires ZeroPage(m0) && TablesExist(m0, a, b) && RemovedAnyway(m0, m1, a, b)
    ensures Removed(m0, m1, h, a, b)
  {
    hide Inv, Leaf, Needed, Astray, NonEmpty, Collected, ZeroPage, EntryAt, TablesExist;
    NoneAstray(m0, a, b);
    ZeroPageSame(m0, m1);
  }

  lemma NoneAstray(m: Mem, a: nat, b: nat)
    requires TablesExist(m, a, b)
    ensures forall i :: !Astray(m, a, b, i)
  {
    hide Prefix;
    forall v: nat | a <= v < b ensures Key(3, Prefix(3, v)) in m.tabs { WitnessMeets(3, v, a, b); }
  }

  lemma ZeroPageSame(m0: Mem, m1: Mem)
    requires ZeroPage(m0) && ZeroPage(m1) && forall i :: 0 <= i < 512 ==> EntryAt(m1, 0, i) == EntryAt(m0, 0, i)
    ensures 0 in m0.ram && 0 in m1.ram && m1.ram[0] == m0.ram[0]
  {
    hide PhysAddr;
    forall i | 0 <= i < 512 ensures m1.ram[0][i] == m0.ram[0][i] { assert EntryAt(m1, 0, i) == EntryAt(m0, 0, i); }
  }

  /** `mmu_remove` (lines 310-328) for every accepted range below slot 511 of the higher half, when no entry of
      physical page 0 holds an address. */
  method RemoveAnyway(pt: PageTables, top: u64, address: u64, size: u64)
    requires pt.Valid() && ZeroPage(pt.State()) && Holds(pt.State(), ROOT, top)
    requires address + size <= 0xffff_ff80_0000_0000 && Accepted(address, address + size)
    modifies pt`ram, pt`tabs, pt`edits, pt.pmm.Repr
    ensures pt.Valid() && pt.pmm.Repr == old(pt.pmm.Repr) && Holds(pt.State(), ROOT, top)
    ensures RemovedAnyway(old(pt.State()), pt.State(), PageNumber(address), PageNumber(address + size))
    ensures pt.edits == old(pt.edits) + (PageNumber(address + size) - PageNumber(address))
  {
    hide *;
    var end := address + size;
    ghost var h, a, b, m0 := HalfOf(address), PageNumber(address), PageNumber(end), pt.State();
    RangeOfCall(address, end, top, h, a, b);
    RootStands(m0, top);
    ClearPages(pt, Loc(top, 0, address, end), h, ROOT, a, b);
    ghost var m1 := pt.State();
    LeafPassEffect(m0, a, b);
    RootHeld(m0, m1, top);
    ReadyCollect(h, m1, 0, a, b);
    pt.ApplyNodes(Loc(top, 0, address, end), Collect, h, ROOT, a, b);
    RootHolds(Collect, h, m1, pt.State(), a, b, top);
    BothPasses(h, m0, m1, pt.State(), a, b);
  }

  lemma RootStands(m: Mem, top: u64)
    ensures Holds(m, ROOT, top) ==> Stands(m, ROOT, top)
  {
  }

  lemma RootHeld(m: Mem, n: Mem, top: u64)
    ensures Holds(m, ROOT, top) && n.tabs == m.tabs ==> Holds(n, ROOT, top)
  {
  }

  /** In a fresh address space every removal of one page falls off, and clears a word of physical page 0. */
  lemma FreshFallsOff(m: Mem, v: nat)
    requires Inv(m) && m.tabs.Keys == {ROOT} && v < 0x10_0000_0000
    ensures FallsOff(m, v)
    ensures ZeroPageLoops(m) ==> WalkFrame(m, 3, v) == 0
  {
    MissingFallsOff(m, 3, v);
    if ZeroPageLoops(m) { ClearedFrame(m, 3, v); }
  }
}
