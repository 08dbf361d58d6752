/** How the kernel feeds its memory map to the page allocator (src/kernel.c, the loop of `print_meminfo`). */
module MemoryMap {
  import opened Words
  import opened Pmm

  /** `struct limine_memmap_entry`, with its type reduced to usable or not. */
  datatype Entry = Entry(base: u64, length: u64, usable: bool)
  {
    function Lo(): nat { base / 4096 }

    function Pages(): nat { length / 4096 }

    function End(): nat { Lo() + Pages() }

    /** Page aligned and inside the address space. */
    predicate Placed() {
      usable ==> base % 4096 == 0 && base + length <= 0x1_0000_0000_0000_0000
    }
  }

  /** Two usable entries share no page. */
  predicate Beside(e: Entry, f: Entry) {
    e.usable && f.usable ==> e.End() <= f.Lo() || f.End() <= e.Lo()
  }

  ghost predicate WellPlaced(es: seq<Entry>) {
    && (forall i :: 0 <= i < |es| ==> es[i].Placed())
    && (forall i, k :: 0 <= i < k < |es| ==> Beside(es[i], es[k]))
  }

  /** Page-aligned entries without common bytes are well placed. */
  lemma ApartInBytes(es: seq<Entry>)
    requires forall i :: 0 <= i < |es| && es[i].usable ==>
               es[i].base % 4096 == 0 && es[i].base + es[i].length <= 0x1_0000_0000_0000_0000
    requires forall i, k :: 0 <= i < k < |es| && es[i].usable && es[k].usable ==>
               es[i].base + es[i].length <= es[k].base || es[k].base + es[k].length <= es[i].base
    ensures WellPlaced(es)
  {
    forall i, k | 0 <= i < k < |es| ensures Beside(es[i], es[k]) {
      if es[i].usable && es[k].usable {
        InPages(es[i], es[k]);
        InPages(es[k], es[i]);
      }
    }
  }

  lemma InPages(e: Entry, f: Entry)
    requires e.base % 4096 == 0 && f.base % 4096 == 0
    ensures e.base + e.length <= f.base ==> e.End() <= f.Lo()
  {
  }

  /** The block slots left after all entries. */
  function SlotsAfter(es: seq<Entry>, slots: nat): nat {
    if es == [] then slots
    else
      var before, e := SlotsAfter(es[..|es| - 1], slots), es[|es| - 1];
      if e.usable then SlotsLeft(e.Pages(), before) else before
  }

  /** The data pages all entries contribute. */
  ghost function AllData(es: seq<Entry>, slots: nat): set<nat> {
    if es == [] then {}
    else
      var before, e := es[..|es| - 1], es[|es| - 1];
      AllData(before, slots) + if e.usable then DataFrames(e.Lo(), e.Pages(), SlotsAfter(before, slots)) else {}
  }

  /** Each data page lies strictly inside a usable entry, behind its first page. */
  lemma {:induction false} DataInEntries(es: seq<Entry>, slots: nat, f: nat)
    requires f in AllData(es, slots)
    ensures exists i :: 0 <= i < |es| && es[i].usable && es[i].Lo() < f < es[i].End()
  {
    var before, e := es[..|es| - 1], es[|es| - 1];
    if f in AllData(before, slots) {
      DataInEntries(before, slots, f);
      var i :| 0 <= i < |before| && before[i].usable && before[i].Lo() < f < before[i].End();
      assert es[i] == before[i];
    } else {
      DataBehindStart(e.Lo(), e.Pages(), SlotsAfter(before, slots), f);
    }
  }

  lemma DataBehindStart(lo: nat, n: nat, slots: nat, f: nat)
    requires f in DataFrames(lo, n, slots)
    ensures lo < f < lo + n
  {
  }

  /** What the entries before entry i contribute lies outside entry i. */
  lemma OutsideEntry(es: seq<Entry>, i: nat, slots: nat, f: nat)
    requires WellPlaced(es) && i < |es| && es[i].usable && f in AllData(es[..i], slots)
    ensures f < es[i].Lo() || es[i].End() < f
  {
    DataInEntries(es[..i], slots, f);
    var k :| 0 <= k < i && es[..i][k].usable && es[..i][k].Lo() < f < es[..i][k].End();
    assert Beside(es[k], es[i]);
  }

  /** An entry apart from the memory before and from the other entries is apart from all that was added. */
  lemma StillUntouched(m0: set<nat>, es: seq<Entry>, i: nat, slots: nat)
    requires WellPlaced(es) && i < |es| && es[i].usable && Untouched(m0, es[i].Lo(), es[i].End())
    ensures Untouched(m0 + AllData(es[..i], slots), es[i].Lo(), es[i].End())
  {
    forall f | f in AllData(es[..i], slots) ensures f < es[i].Lo() || es[i].End() < f {
      OutsideEntry(es, i, slots, f);
    }
  }

  lemma NextEntry(es: seq<Entry>, i: nat, slots: nat)
    requires i < |es|
    ensures AllData(es[..i + 1], slots) == AllData(es[..i], slots)
            + if es[i].usable then DataFrames(es[i].Lo(), es[i].Pages(), SlotsAfter(es[..i], slots)) else {}
    ensures SlotsAfter(es[..i + 1], slots) ==
            if es[i].usable then SlotsLeft(es[i].Pages(), SlotsAfter(es[..i], slots)) else SlotsAfter(es[..i], slots)
  {
    assert es[..i + 1][..i] == es[..i] && es[..i + 1][i] == es[i];
  }

  lemma GrownAgain(m0: set<nat>, f0: set<nat>, m1: set<nat>, f1: set<nat>, m2: set<nat>, f2: set<nat>, d: set<nat>,
      e: set<nat>)
    ensures Grown(m0, f0, m1, f1, d) && Grown(m1, f1, m2, f2, e) ==> Grown(m0, f0, m2, f2, d + e)
  {
  }

  lemma PageAligned(e: Entry)
    requires e.usable && e.Placed()
    ensures Bytes(e.Lo(), e.base)
  {
  }

  /** Adds every usable entry of the map (lines 143-161): the allocator gains exactly the closed form of all ranges. */
  method AddAll(pmm: Allocator, es: seq<Entry>)
    requires pmm.Valid() && WellPlaced(es)
    requires forall i :: 0 <= i < |es| && es[i].usable ==> Untouched(pmm.managed, es[i].Lo(), es[i].End())
    modifies pmm.Repr
    ensures pmm.Valid() && fresh(pmm.Repr - old(pmm.Repr))
    ensures Grown(old(pmm.managed), old(pmm.free), pmm.managed, pmm.free, AllData(es, old(pmm.Slots())))
    ensures pmm.Slots() == SlotsAfter(es, old(pmm.Slots()))
  {
    hide Allocator.Valid, Allocator.Slots, AllData, SlotsAfter, SlotsLeft, DataFrames, Bytes, Untouched, Grown;
    ghost var m0, f0, slots := pmm.managed, pmm.free, pmm.Slots();
    NothingGrown(m0, f0);
    assert es[..0] == [];
    Nothing(slots);
    for i := 0 to |es|
      invariant pmm.Valid() && fresh(pmm.Repr - old(pmm.Repr)) && pmm.Slots() == SlotsAfter(es[..i], slots)
      invariant Grown(m0, f0, pmm.managed, pmm.free, AllData(es[..i], slots))
    {
      NextEntry(es, i, slots);
      var e := es[i];
      assert e.Placed();
      if e.usable {
        ghost var m1, f1 := pmm.managed, pmm.free;
        StillUntouched(m0, es, i, slots);
        GrownSets(m0, f0, m1, f1, AllData(es[..i], slots));
        PageAligned(e);
        pmm.Add(e.base, e.length, e.Lo(), e.Pages(), e.End());
        GrownAgain(m0, f0, m1, f1, pmm.managed, pmm.free, AllData(es[..i], slots),
          DataFrames(e.Lo(), e.Pages(), SlotsAfter(es[..i], slots)));
      } else {
        assert AllData(es[..i], slots) + {} == AllData(es[..i], slots);
      }
    }
    assert es[..|es|] == es;
  }

  lemma Nothing(slots: nat)
    ensures AllData([], slots) == {} && SlotsAfter([], slots) == slots
  {
  }

  lemma GrownSets(m0: set<nat>, f0: set<nat>, m1: set<nat>, f1: set<nat>, d: set<nat>)
    ensures Grown(m0, f0, m1, f1, d) ==> m1 == m0 + d && f1 == f0 + d
  {
  }

  /** The sum of what the entries yield, each with the slots those before it leave. */
  function TotalYield(es: seq<Entry>, slots: nat): nat {
    if es == [] then 0
    else
      var before, e := es[..|es| - 1], es[|es| - 1];
      TotalYield(before, slots) + if e.usable then YieldsWith(e.Pages(), SlotsAfter(before, slots)) else 0
  }

  /** No page is counted twice: the whole map yields the sum of what its entries yield. */
  lemma {:induction false} MapYields(es: seq<Entry>, slots: nat)
    requires WellPlaced(es)
    ensures |AllData(es, slots)| == TotalYield(es, slots)
  {
    if es != [] {
      var before, e := es[..|es| - 1], es[|es| - 1];
      MapYields(before, slots);
      if e.usable {
        var data := DataFrames(e.Lo(), e.Pages(), SlotsAfter(before, slots));
        DataFramesCount(e.Lo(), e.Pages(), SlotsAfter(before, slots));
        forall f | f in data ensures e.Lo() < f < e.End() {
          DataBehindStart(e.Lo(), e.Pages(), SlotsAfter(before, slots), f);
        }
        forall f | f in AllData(before, slots) ensures f < e.Lo() || e.End() < f {
          OutsideEntry(es, |es| - 1, slots, f);
        }
        assert AllData(before, slots) !! data;
      }
    }
  }
}
