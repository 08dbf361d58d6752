/** Kernel code that uses the page-table driver (src/kernel.c). */
module Clients {
  import opened Words
  import opened Entries
  import opened Paging
  import opened Walk
  import opened Tables
  import opened Effects
  import opened Spaces
  import opened Runs
  import opened Mmu
  import opened Sequences

  /** A run that starts in a canonical tree and has unmapped nothing of it so far: it has come to m, with the frames
      `own` for tables and free pages. */
  ghost predicate Session(ops: seq<Op>, ms: seq<Mem>, m: Mem, own: set<nat>)
    ensures Session(ops, ms, m, own) ==> |ms| == |ops| + 1
  {
    && Run(ops, ms) && Canonical(ms[0]) && KeepAll(ops, ms[0]) && ms[|ops|] == m
    && OwnAfter(ops, Own(ms[0])) == own
  }

  lemma SessionStart(m: Mem)
    ensures Inv(m) && Canonical(m) ==> Session([], [m], m, Own(m))
  {
    hide Leaf, Inv, Canonical, Own;
  }

  /** A call that unmaps nothing of what was mapped at first. */
  ghost predicate Sparing(op: Op, first: Mem) {
    op.RemoveOp? ==> forall v: nat :: op.a <= v < op.b ==> Leaf(first, v) == 0
  }

  lemma SessionMore(ops: seq<Op>, ms: seq<Mem>, m: Mem, own: set<nat>, op: Op, n: Mem, first: Mem)
    ensures Session(ops, ms, m, own) && Step(op, m, n) && ms[0] == first && Sparing(op, first) ==>
              && Session(ops + [op], ms + [n], n, OwnStep(op, own)) && (ms + [n])[0] == first
              && OwnStep(op, own) == if op.TakeOp? then own - {op.frame} else if op.GiveOp? then own + {op.frame}
                 else own
  {
    hide Run, Leaf, Canonical, Step, Replay, OwnAfter, OwnStep, Own;
    if Session(ops, ms, m, own) && Step(op, m, n) && ms[0] == first && Sparing(op, first) {
      RunMore(ops, ms, op, n);
      OwnMore(ops, op, Own(first));
      OwnStepIs(op, own);
      forall v: nat ensures KeepsMapped(ops + [op], v, Leaf(first, v)) {
        assert KeepsMapped(ops, v, Leaf(first, v)) && ops[..|ops|] == ops;
        AppliedMapped(op, m, n, v, Replay(ops, v, Leaf(first, v)));
        KeepsMore(ops, op, v, Leaf(first, v));
      }
    }
  }

  lemma OwnStepIs(op: Op, own: set<nat>)
    ensures OwnStep(op, own) == if op.TakeOp? then own - {op.frame} else if op.GiveOp? then own + {op.frame} else own
  {
  }

  /** A frame that is not the session's is neither a table nor free. */
  lemma SessionOwn(ops: seq<Op>, ms: seq<Mem>, m: Mem, own: set<nat>, f: nat)
    ensures Session(ops, ms, m, own) && f !in own ==> !OwnedFrame(m, f)
    ensures Session(ops, ms, m, own) ==> m.managed == ms[0].managed
  {
    hide Run, Canonical, OwnAfter, KeepAll, Foreign;
    if Session(ops, ms, m, own) { RunKeeps(ops, ms); }
  }

  /** Only a removal unmaps a page. */
  lemma AppliedMapped(op: Op, m: Mem, n: Mem, v: nat, before: u64)
    ensures Step(op, m, n) && before != 0 && (op.RemoveOp? ==> !(op.a <= v < op.b)) ==> Applied(op, v, before) != 0
  {
    if op.AssignOp? && Step(op, m, n) && op.a <= v < op.b {
      AssignedWord(op.h, op.a, op.b, op.page, op.flags, v);
    }
    hide Assigned, Removed, Inv, LeafWord;
  }

  /** A session that ends with the page map and the frames it began with has changed nothing. */
  lemma SessionEnd(ops: seq<Op>, ms: seq<Mem>, m: Mem, own: set<nat>, first: Mem)
    ensures Session(ops, ms, m, own) && ms[0] == first && own == Own(first) && SameLeaves(first, m) ==>
              m.tabs == first.tabs && m.free == first.free
  {
    hide Run, Leaf, Canonical, Replay, OwnAfter, Own, KeepAll;
    if Session(ops, ms, m, own) && ms[0] == first && own == Own(first) && SameLeaves(first, m) {
      forall v: nat ensures Replay(ops, v, Leaf(first, v)) == Leaf(first, v) { RunTranslates(ops, ms, v); }
      RunRestores(ops, ms);
    }
  }

  // ------------------------------------------------------------------ single pages

  /** The page number of a one-page range, and that of its end. */
  lemma OnePageCall(address: u64)
    requires address + 4096 <= 0xffff_ff80_0000_0000
    ensures Accepted(address, address + 4096) ==> PageNumber(address + 4096) == PageNumber(address) + 1
  {
    hide Accepted, PageNumber, HalfOf;
    if Accepted(address, address + 4096) {
      var h, a, b := HalfOf(address), PageNumber(address), PageNumber(address + 4096);
      InnerRange(address, address + 4096, h, a, b);
    }
  }

  /** Two addresses have two page numbers. */
  lemma OtherPage(x: u64, y: u64)
    requires x + 4096 <= 0xffff_ff80_0000_0000 && y + 4096 <= 0xffff_ff80_0000_0000
    ensures Accepted(x, x + 4096) && Accepted(y, y + 4096) && x != y ==> PageNumber(x) != PageNumber(y)
  {
    hide Accepted, PageNumber, HalfOf;
    if Accepted(x, x + 4096) && Accepted(y, y + 4096) {
      SameHalf(x, x + 4096);
      SameHalf(y, y + 4096);
      PageNumberOf(x);
      PageNumberOf(y);
      Halves(x);
      Halves(y);
    }
  }

  lemma Halves(x: u64)
    ensures HalfOf(x) == if x < 0x8000_0000_0000 then 0 else 0xffff_0000_0000_0000
  {
  }

  /** One page needs at most three tables below the root. */
  lemma NeededForOne(a: nat, b: nat)
    requires b == a + 1
    ensures |Needed(0, a, b)| <= 3
  {
    var path := {Key(1, Prefix(1, a)), Key(2, Prefix(2, a)), Key(3, Prefix(3, a))};
    hide Prefix;
    SubsetSize(Needed(0, a, b), path);
  }

  lemma OnePageFits(m: Mem, a: nat, b: nat)
    ensures b == a + 1 && |m.free| >= 3 ==> EnoughFree(m, a, b)
  {
    if b == a + 1 {
      NeededForOne(a, b);
      SubsetSize(Needed(0, a, b) - m.tabs.Keys, Needed(0, a, b));
    }
    hide Needed;
  }

  lemma OnePageTables(m: Mem, a: nat, b: nat)
    ensures Inv(m) && b == a + 1 && Leaf(m, a) != 0 ==> TablesExist(m, a, b)
  {
    if Inv(m) && b == a + 1 && Leaf(m, a) != 0 { MappedHasTables(m, a, b); }
    hide *;
  }

  /** At most page v is translated differently. */
  ghost predicate SameBut(m: Mem, n: Mem, v: nat) {
    forall u: nat :: u != v ==> Leaf(n, u) == Leaf(m, u)
  }

  lemma AfterAssign(m: Mem, n: Mem, h: u64, a: nat, b: nat, page: u64, flags: nat)
    ensures Inv(m) && b == a + 1 && Step(AssignOp(h, a, b, page, flags), m, n) ==>
              Leaf(n, a) != 0 && SameBut(m, n, a) && |n.free| + 3 >= |m.free|
  {
    if Inv(m) && b == a + 1 && Step(AssignOp(h, a, b, page, flags), m, n) {
      AssignedWord(h, a, b, page, flags, a);
      NeededForOne(a, b);
      TotalKept(m, n);
      assert |n.tabs.Keys| <= |m.tabs.Keys| + |Needed(0, a, b)|;
    }
    hide Needed, Linear, Inv, LeafWord, Leaf;
  }

  lemma AfterRemove(m: Mem, n: Mem, h: u64, a: nat, b: nat)
    ensures b == a + 1 && Step(RemoveOp(h, a, b), m, n) ==>
              Leaf(n, a) == 0 && SameBut(m, n, a)
  {
    hide Leaf, Inv, Kept, Collected;
  }

  lemma AfterOther(m: Mem, n: Mem, op: Op)
    ensures (op.TakeOp? || op.GiveOp?) && Step(op, m, n) ==> SameLeaves(m, n) && n.tabs == m.tabs
    ensures op.TakeOp? && Step(op, m, n) ==> |n.free| == |m.free| - 1
  {
    hide Inv;
  }

  /** A page of the allocator can be named in an entry. */
  lemma PageBelowLimit(m: Mem, page: u64)
    ensures Inv(m) && page % 4096 == 0 && page / 4096 in m.free ==>
              page + 4096 <= 0x10_0000_0000_0000 && page / 4096 in m.managed
  {
    hide Rooted, Linked, LeavesOk;
    if Inv(m) && page / 4096 in m.free { assert GoodFrame(m, page / 4096); }
  }

  // ------------------------------------------------------------------ test_mmu

  /** `mmu_assign` of one page as a call of a session. */
  method MapPage(pt: PageTables, top: u64, flags: nat, address: u64, page: u64, ghost ops: seq<Op>, ghost ms: seq<Mem>,
      ghost own: set<nat>, ghost first: Mem) returns (ghost ops': seq<Op>, ghost ms': seq<Mem>)
    requires pt.Valid() && Holds(pt.State(), ROOT, top)
    requires Session(ops, ms, pt.State(), own) && ms[0] == first && |pt.pmm.free| >= 3
    requires address + 4096 <= 0xffff_ff80_0000_0000 && Accepted(address, address + 4096)
    requires page % 4096 == 0 && page + 4096 <= 0x10_0000_0000_0000
    modifies pt`ram, pt`tabs, pt`edits, pt.pmm.Repr
    ensures pt.Valid() && pt.pmm.Repr == old(pt.pmm.Repr) && Holds(pt.State(), ROOT, top)
    ensures Session(ops', ms', pt.State(), own) && ms'[0] == first && |pt.pmm.free| + 3 >= old(|pt.pmm.free|)
    ensures Leaf(pt.State(), PageNumber(address)) != 0
    ensures SameBut(old(pt.State()), pt.State(), PageNumber(address))
    ensures pt.edits == old(pt.edits) + 1
  {
    hide *;
    ghost var m, h, v := pt.State(), HalfOf(address), PageNumber(address);
    OnePageCall(address);
    OnePageFits(m, v, v + 1);
    pt.Assign(top, flags, address, 4096, page);
    ghost var op := AssignOp(h, v, v + 1, page, flags);
    AfterAssign(m, pt.State(), h, v, v + 1, page, flags);
    SparingOne(op, first);
    SessionMore(ops, ms, m, own, op, pt.State(), first);
    ops', ms' := ops + [op], ms + [pt.State()];
  }

  /** `mmu_remove` of one page that was not mapped at first. */
  method UnmapPage(pt: PageTables, top: u64, address: u64, ghost ops: seq<Op>, ghost ms: seq<Mem>,
      ghost own: set<nat>, ghost first: Mem) returns (ghost ops': seq<Op>, ghost ms': seq<Mem>)
    requires pt.Valid() && Holds(pt.State(), ROOT, top)
    requires Session(ops, ms, pt.State(), own) && ms[0] == first
    requires address + 4096 <= 0xffff_ff80_0000_0000 && Accepted(address, address + 4096)
    requires Leaf(pt.State(), PageNumber(address)) != 0 && Leaf(first, PageNumber(address)) == 0
    modifies pt`ram, pt`tabs, pt`edits, pt.pmm.Repr
    ensures pt.Valid() && pt.pmm.Repr == old(pt.pmm.Repr) && Holds(pt.State(), ROOT, top)
    ensures Session(ops', ms', pt.State(), own) && ms'[0] == first
    ensures Leaf(pt.State(), PageNumber(address)) == 0
    ensures SameBut(old(pt.State()), pt.State(), PageNumber(address))
    ensures pt.edits == old(pt.edits) + 1
  {
    hide *;
    ghost var m, h, v := pt.State(), HalfOf(address), PageNumber(address);
    OnePageCall(address);
    OnePageTables(m, v, v + 1);
    pt.Remove(top, address, 4096);
    ghost var op := RemoveOp(h, v, v + 1);
    AfterRemove(m, pt.State(), h, v, v + 1);
    SparingOne(op, first);
    SessionMore(ops, ms, m, own, op, pt.State(), first);
    ops', ms' := ops + [op], ms + [pt.State()];
  }

  /** The page is mapped at two places and unmapped again (lines 366-375). */
  method UsePage(pt: PageTables, top: u64, write: u64, read: u64, page: u64, ghost ops: seq<Op>, ghost ms: seq<Mem>,
      ghost own: set<nat>, ghost first: Mem) returns (ghost ops': seq<Op>, ghost ms': seq<Mem>)
    requires pt.Valid() && Holds(pt.State(), ROOT, top) && |pt.pmm.free| >= 6
    requires Session(ops, ms, pt.State(), own) && ms[0] == first
    requires write + 4096 <= 0xffff_ff80_0000_0000 && Accepted(write, write + 4096)
    requires read + 4096 <= 0xffff_ff80_0000_0000 && Accepted(read, read + 4096) && read != write
    requires Leaf(first, PageNumber(write)) == 0 && Leaf(first, PageNumber(read)) == 0
    requires SameLeaves(first, pt.State())
    requires page % 4096 == 0 && page + 4096 <= 0x10_0000_0000_0000
    modifies pt`ram, pt`tabs, pt`edits, pt.pmm.Repr
    ensures pt.Valid() && pt.pmm.Repr == old(pt.pmm.Repr)
    ensures Session(ops', ms', pt.State(), own) && ms'[0] == first
    ensures SameLeaves(first, pt.State())
    ensures pt.edits == old(pt.edits) + 4
  {
    var flags: nat := MEMORY_WRITE;
    hide *;
    OtherPage(write, read);
    ghost var w, r, m0 := PageNumber(write), PageNumber(read), pt.State();
    ops', ms' := MapPage(pt, top, flags, write, page, ops, ms, own, first);
    ghost var m1 := pt.State();
    ops', ms' := MapPage(pt, top, 0, read, page, ops', ms', own, first);
    ghost var m2 := pt.State();
    Elsewhere(m1, m2, r, w);
    ops', ms' := UnmapPage(pt, top, write, ops', ms', own, first);
    ghost var m3 := pt.State();
    Elsewhere(m2, m3, w, r);
    ops', ms' := UnmapPage(pt, top, read, ops', ms', own, first);
    BackAgain(first, m0, m1, m2, m3, pt.State(), w, r);
  }

  lemma Elsewhere(m: Mem, n: Mem, v: nat, u: nat)
    ensures SameBut(m, n, v) && u != v ==> Leaf(n, u) == Leaf(m, u)
  {
  }

  lemma BackAgain(first: Mem, m0: Mem, m1: Mem, m2: Mem, m3: Mem, m4: Mem, w: nat, r: nat)
    ensures SameLeaves(first, m0) && SameBut(m0, m1, w) && SameBut(m1, m2, r) && SameBut(m2, m3, w)
              && SameBut(m3, m4, r)
            && w != r && Leaf(m3, w) == 0 && Leaf(m4, r) == 0 && Leaf(first, w) == 0 && Leaf(first, r) == 0 ==>
              SameLeaves(first, m4)
  {
    hide Leaf;
  }

  /** `test_mmu` (lines 357-378) at any two pages that are not mapped: a page is taken, mapped and unmapped at
      both and given back. No call panics, and page map, tables with their frames and free pages are as before. */
  method TestMmu(pt: PageTables, top: u64, write: u64, read: u64)
    requires pt.Valid() && Canonical(pt.State()) && Holds(pt.State(), ROOT, top) && |pt.pmm.free| >= 7
    requires write + 4096 <= 0xffff_ff80_0000_0000 && Accepted(write, write + 4096)
    requires read + 4096 <= 0xffff_ff80_0000_0000 && Accepted(read, read + 4096) && read != write
    requires Leaf(pt.State(), PageNumber(write)) == 0 && Leaf(pt.State(), PageNumber(read)) == 0
    modifies pt`ram, pt`tabs, pt`edits, pt.pmm.Repr
    ensures pt.Valid() && pt.pmm.Repr == old(pt.pmm.Repr)
    ensures SameLeaves(old(pt.State()), pt.State())
    ensures pt.tabs == old(pt.tabs) && pt.pmm.free == old(pt.pmm.free)
    ensures pt.edits == old(pt.edits) + 4
  {
    hide *;
    ghost var first := pt.State();
    SessionStart(first);
    var page := pt.TakePage();
    ghost var f, m := page / 4096, pt.State();
    PageTaken(first, m, page);
    SparingOne(TakeOp(f), first);
    SessionMore([], [first], first, Own(first), TakeOp(f), m, first);
    KeepRoot(first, m, top);
    ghost var ops, ms, own := [] + [TakeOp(f)], [first] + [m], Own(first) - {f};
    ops, ms := UsePage(pt, top, write, read, page, ops, ms, own, first);
    m := pt.State();
    SessionOwn(ops, ms, m, own, f);
    pt.GivePage(page);
    AfterOther(m, pt.State(), GiveOp(f));
    SparingOne(GiveOp(f), first);
    SessionMore(ops, ms, m, own, GiveOp(f), pt.State(), first);
    LeavesBack(first, m, pt.State());
    assert own + {f} == Own(first);
    SessionEnd(ops + [GiveOp(f)], ms + [pt.State()], pt.State(), own + {f}, first);
  }

  /** The page map is back before the page is. */
  lemma LeavesBack(first: Mem, m: Mem, n: Mem)
    ensures SameLeaves(first, m) && SameLeaves(m, n) ==> SameLeaves(first, n)
  {
    hide Leaf;
  }

  /** What the page that was taken brings along. */
  lemma PageTaken(first: Mem, m: Mem, page: u64)
    ensures Inv(first) && page % 4096 == 0 && Step(TakeOp(page / 4096), first, m) ==>
              && SameLeaves(first, m) && m.tabs == first.tabs && |m.free| == |first.free| - 1
              && page + 4096 <= 0x10_0000_0000_0000 && page / 4096 in first.managed && page / 4096 in Own(first)
  {
    AfterOther(first, m, TakeOp(page / 4096));
    PageBelowLimit(first, page);
    hide Inv, Leaf;
  }

  lemma KeepRoot(m: Mem, n: Mem, top: u64)
    ensures Holds(m, ROOT, top) && n.tabs == m.tabs ==> Holds(n, ROOT, top)
  {
  }

  lemma SparingOne(op: Op, first: Mem)
    ensures op.RemoveOp? && op.b == op.a + 1 && Leaf(first, op.a) == 0 ==> Sparing(op, first)
    ensures !op.RemoveOp? ==> Sparing(op, first)
  {
    hide Leaf;
  }
}
