/** What a walk over a range of pages does to the tree, as a relation between the state before and after, and how
    the effects of consecutive ranges and of consecutive levels add up. */
module Effects {
  import opened Words
  import opened Entries
  import opened Paging
  import opened Sequences
  import opened Tables

  /** The leaf callbacks: `leaf_callback_assign_linear` with its context, and `leaf_callback_clear`. */
  datatype LeafEdit = AssignLinear(pBase: u64, vBase: u64, flags: u64) | Clear

  /** The entry a leaf callback stores for a virtual address (lines 220-238). */
  function LeafWord(e: LeafEdit, address: u64): u64 {
    match e
    case AssignLinear(pBase, vBase, flags) => Or(Add64(Sub64(address, vBase), pBase), flags)
    case Clear => 0
  }

  /** The node callbacks: reserve, collect garbage, edit the leaves. */
  datatype Visit = Reserve | Collect | Edit(edit: LeafEdit)

  /** The address of page v in the half with base h. */
  function PageAt(h: u64, v: nat): u64 {
    (h + 4096 * v) % 0x1_0000_0000_0000_0000
  }

  /** Visiting the tables below depth d for the pages [a, b) turns m0 into m1. */
  ghost predicate Effect(visit: Visit, h: u64, m0: Mem, m1: Mem, d: nat, a: nat, b: nat)
    ensures Effect(visit, h, m0, m1, d, a, b) ==> Inv(m1)
  {
    && Inv(m1) && Kept(m0, m1) && SameFrames(m0, m1)
    && match visit
       case Reserve => m1.tabs.Keys == m0.tabs.Keys + Needed(d, a, b) && SameLeaves(m0, m1)
       case Collect => Collected(m0, m1, Needed(d, a, b)) && SameLeaves(m0, m1)
       case Edit(e) => m1.tabs == m0.tabs && m1.free == m0.free && Edited(e, h, m0, m1, a, b)
  }

  /** Only tables of `range` are gone, and those of them that are left have a present entry. */
  ghost predicate Collected(m0: Mem, m1: Mem, range: set<Key>) {
    && m1.tabs.Keys <= m0.tabs.Keys <= m1.tabs.Keys + range
    && forall k :: k in m1.tabs && k in range ==> NonEmpty(m1, k)
  }

  ghost predicate Edited(e: LeafEdit, h: u64, m0: Mem, m1: Mem, a: nat, b: nat) {
    forall v: nat :: Leaf(m1, v) == if a <= v < b then LeafWord(e, PageAt(h, v)) else Leaf(m0, v)
  }

  /** What a visit relies on: enough free frames for every missing table; the tables of an edited range. */
  ghost predicate Ready(visit: Visit, h: u64, m: Mem, d: nat, a: nat, b: nat) {
    match visit
    case Reserve => |m.tabs.Keys + Needed(d, a, b)| <= |m.tabs| + |m.free|
    case Collect => true
    case Edit(e) => Needed(d, a, b) <= m.tabs.Keys && WordsOk(e, h, a, b)
  }

  ghost predicate WordsOk(e: LeafEdit, h: u64, a: nat, b: nat) {
    forall v :: a <= v < b ==> LeafOk(LeafWord(e, PageAt(h, v)))
  }

  // ------------------------------------------------------------------ nothing to do

  lemma KeptRefl(m: Mem)
    ensures Kept(m, m) && SameFrames(m, m) && SameLeaves(m, m)
  {
  }

  lemma EffectEmpty(visit: Visit, h: u64, m: Mem, d: nat, a: nat)
    requires Inv(m)
    ensures Effect(visit, h, m, m, d, a, a)
  {
  }

  /** Below depth 3 there are no tables. */
  lemma EffectBottom(visit: Visit, h: u64, m: Mem, a: nat, b: nat)
    requires Inv(m) && !visit.Edit?
    ensures Effect(visit, h, m, m, 3, a, b)
  {
  }

  // ------------------------------------------------------------------ ranges add up

  lemma SameLeavesTrans(m0: Mem, m1: Mem, m2: Mem)
    requires SameLeaves(m0, m1) && SameLeaves(m1, m2)
    ensures SameLeaves(m0, m2)
  {
  }

  lemma NonEmptySame(m1: Mem, m2: Mem, k: Key)
    requires Inv(m1) && Inv(m2) && k in m1.tabs && k in m2.tabs && NonEmpty(m1, k)
    requires k.d == 3 ==> SameLeaves(m1, m2)
    requires forall i: nat :: i < 512 && Child(k, i) in m1.tabs ==> Child(k, i) in m2.tabs
    ensures NonEmpty(m2, k)
  {
    var i :| 0 <= i < 512 && Present(Slot(m1, k, i));
    hide TableEntry, Present, Slot;
    if k.d == 3 {
      var v := 512 * k.p + i;
      assert Prefix(3, v) == k.p && v % 512 == i;
      assert Leaf(m1, v) == Slot(m1, k, i) && Leaf(m2, v) == Slot(m2, k, i);
    } else {
      ZeroEntry();
      assert Slot(m1, k, i) == LinkWord(m1, Child(k, i));
      assert Slot(m2, k, i) == LinkWord(m2, Child(k, i));
      assert GoodFrame(m2, m2.tabs[Child(k, i)]);
      TableEntryFields(m2.tabs[Child(k, i)]);
    }
  }

  lemma MeetsChild(k: Key, i: nat, a: nat, b: nat)
    requires i < 512 && k.d < 3
    ensures Meets(Child(k, i), a, b) ==> Meets(k, a, b)
  {
  }

  /** A table left non-empty by one range stays so when a later range is collected. */
  lemma CollectedJoin(m0: Mem, m1: Mem, m2: Mem, d: nat, a: nat, c: nat, b: nat)
    requires a <= c <= b && Inv(m1) && Inv(m2)
    requires Collected(m0, m1, Needed(d, a, c)) && Collected(m1, m2, Needed(d, c, b)) && SameLeaves(m1, m2)
    ensures Collected(m0, m2, Needed(d, a, b))
  {
    NeededSplit(d, a, c, b);
    forall k | k in m2.tabs && k in Needed(d, a, b) ensures NonEmpty(m2, k) {
      if k !in Needed(d, c, b) {
        forall i: nat | i < 512 && Child(k, i) in m1.tabs ensures Child(k, i) in m2.tabs {
          assert Child(k, i).d <= 3;
          MeetsChild(k, i, c, b);
        }
        NonEmptySame(m1, m2, k);
      }
    }
  }

  lemma SameFramesTrans(m0: Mem, m1: Mem, m2: Mem)
    requires SameFrames(m0, m1) && SameFrames(m1, m2)
    requires forall k :: k in m0.tabs && k in m2.tabs ==> k in m1.tabs
    ensures SameFrames(m0, m2)
  {
  }

  lemma EffectJoin(visit: Visit, h: u64, m0: Mem, m1: Mem, m2: Mem, d: nat, a: nat, c: nat, b: nat)
    requires a <= c <= b
    requires Effect(visit, h, m0, m1, d, a, c) && Effect(visit, h, m1, m2, d, c, b)
    ensures Effect(visit, h, m0, m2, d, a, b)
  {
    KeptTrans(m0, m1, m2);
    match visit
    case Reserve =>
      NeededSplit(d, a, c, b);
      SameFramesTrans(m0, m1, m2);
      SameLeavesTrans(m0, m1, m2);
    case Collect =>
      CollectedJoin(m0, m1, m2, d, a, c, b);
      SameFramesTrans(m0, m1, m2);
      SameLeavesTrans(m0, m1, m2);
    case Edit(e) =>
      hide Leaf, LeafWord;
      forall v: nat ensures Leaf(m2, v) == if a <= v < b then LeafWord(e, PageAt(h, v)) else Leaf(m0, v) {
        assert Leaf(m1, v) == if a <= v < c then LeafWord(e, PageAt(h, v)) else Leaf(m0, v);
      }
  }

  // ------------------------------------------------------------------ levels add up

  /** A reserved child and the reserved tables below it. */
  lemma ReserveDown(h: u64, m0: Mem, m1: Mem, m2: Mem, d: nat, q: nat, a: nat, b: nat)
    requires d <= 2 && a < b && Prefix(d + 1, a) == q && Prefix(d + 1, b - 1) == q
    requires Kept(m0, m1) && SameFrames(m0, m1) && SameLeaves(m0, m1)
    requires m1.tabs.Keys == m0.tabs.Keys + {Key(d + 1, q)}
    requires Effect(Reserve, h, m1, m2, d + 1, a, b)
    ensures Effect(Reserve, h, m0, m2, d, a, b)
  {
    hide Inv, Leaf;
    KeptTrans(m0, m1, m2);
    SameLeavesTrans(m0, m1, m2);
    SameFramesTrans(m0, m1, m2);
    NeededBlock(d, q, a, b);
  }

  /** The path of a page above a table of the tree is in the tree. */
  lemma {:induction false} PathUp(m: Mem, d: nat, e: nat, v: nat)
    requires Rooted(m) && e <= d <= 3 && Key(d, Prefix(d, v)) in m.tabs
    ensures Key(e, Prefix(e, v)) in m.tabs
  {
    if e < d {
      PrefixStep(d - 1, v);
      PathUp(m, d - 1, e, v);
    }
  }

  /** Every needed table of a block lies at or below the block's own table. */
  lemma NeededBelow(m: Mem, d: nat, q: nat, a: nat, b: nat, k: Key)
    requires Rooted(m) && d <= 2 && a < b && Prefix(d + 1, a) == q && Prefix(d + 1, b - 1) == q
    requires k in Needed(d, a, b) && k in m.tabs
    ensures Key(d + 1, q) in m.tabs
  {
    hide Prefix, Meets, Rooted, Needed;
    var v := MeetsWitness(k, a, b);
    PrefixMonotone(d + 1, a, v);
    PrefixMonotone(d + 1, v, b - 1);
    PathUp(m, k.d, d + 1, v);
  }

  /** `node_callback_gc` on an absent entry returns at once: there is nothing to collect. */
  lemma CollectAbsent(h: u64, m: Mem, d: nat, q: nat, a: nat, b: nat)
    requires Inv(m) && d <= 2 && a < b && Prefix(d + 1, a) == q && Prefix(d + 1, b - 1) == q
    requires Key(d + 1, q) !in m.tabs
    ensures Effect(Collect, h, m, m, d, a, b)
  {
    KeptRefl(m);
    forall k | k in m.tabs && k in Needed(d, a, b) ensures false { NeededBelow(m, d, q, a, b, k); }
  }

  /** The child is kept: it has a present entry. */
  lemma CollectKeep(h: u64, m0: Mem, m1: Mem, d: nat, q: nat, a: nat, b: nat)
    requires d <= 2 && a < b && Prefix(d + 1, a) == q && Prefix(d + 1, b - 1) == q
    requires Effect(Collect, h, m0, m1, d + 1, a, b)
    requires Key(d + 1, q) in m1.tabs ==> NonEmpty(m1, Key(d + 1, q))
    ensures Effect(Collect, h, m0, m1, d, a, b)
  {
    hide Inv, NonEmpty;
    NeededBlock(d, q, a, b);
  }

  /** The child is dropped: collecting below it left it empty. */
  lemma CollectDrop(h: u64, m0: Mem, m1: Mem, k: Key, i: nat, d: nat, q: nat, a: nat, b: nat)
    requires Inv(m0) && k in m1.tabs && d == k.d <= 2 && i < 512 && q == 512 * k.p + i
    requires a < b && Prefix(d + 1, a) == q && Prefix(d + 1, b - 1) == q
    requires Effect(Collect, h, m0, m1, d + 1, a, b)
    requires Key(d + 1, q) in m1.tabs && Empty(m1, Key(d + 1, q))
    ensures Child(k, i) == Key(d + 1, q)
    ensures Effect(Collect, h, m0, DropTable(m1, k, i), d, a, b)
  {
    assert Child(k, i) == Key(d + 1, q);
    DropIsKept(m1, k, i);
    var m2 := DropTable(m1, k, i);
    hide DropTable, Kept, Inv, SameLeaves, SameFrames, Empty, NonEmpty, Meets, Needed;
    CollectedDrop(m0, m1, k, i, Needed(d + 1, a, b));
    NeededBlock(d, q, a, b);
    KeptTrans(m0, m1, m2);
    SameLeavesTrans(m0, m1, m2);
    hide Prefix;
    SameFramesTrans(m0, m1, m2);
  }

  lemma DropIsKept(m: Mem, k: Key, i: nat)
    requires Inv(m) && k in m.tabs && k.d < 3 && i < 512 && Child(k, i) in m.tabs && Empty(m, Child(k, i))
    ensures var m' := DropTable(m, k, i);
      Inv(m') && Kept(m, m') && SameFrames(m, m') && SameLeaves(m, m') && m'.tabs.Keys == m.tabs.Keys - {Child(k, i)}
  {
    DropInv(m, k, i);
    DropKept(m, k, i);
  }

  lemma CollectedDrop(m0: Mem, m1: Mem, k: Key, i: nat, below: set<Key>)
    requires Inv(m1) && k in m1.tabs && k.d < 3 && i < 512 && Child(k, i) in m1.tabs && Empty(m1, Child(k, i))
    requires Collected(m0, m1, below) && k !in below
    ensures Collected(m0, DropTable(m1, k, i), below + {Child(k, i)})
  {
    var c, m2 := Child(k, i), DropTable(m1, k, i);
    DropKept(m1, k, i);
    hide DropTable, Kept, Inv, SameLeaves, SameFrames, Empty;
    forall l | l in m2.tabs && l in below + {c} ensures NonEmpty(m2, l) {
      assert l != c && l in m1.tabs;
      StillNonEmpty(m1, k, i, l);
    }
  }

  /** Dropping the child of another table takes no entry from l. */
  lemma StillNonEmpty(m: Mem, k: Key, i: nat, l: Key)
    requires Inv(m) && k in m.tabs && k.d < 3 && i < 512 && Child(k, i) in m.tabs && Empty(m, Child(k, i))
    requires l in m.tabs && l != Child(k, i) && l != k && NonEmpty(m, l)
    ensures NonEmpty(DropTable(m, k, i), l)
  {
    DropInv(m, k, i);
    DropKept(m, k, i);
    hide DropTable;
    forall j: nat | j < 512 && Child(l, j) in m.tabs ensures Child(l, j) in DropTable(m, k, i).tabs {
      if Child(l, j) == Child(k, i) { ChildInjective(l, j, k, i); }
    }
    NonEmptySame(m, DropTable(m, k, i), l);
  }

  /** One leaf. */
  lemma EditOne(e: LeafEdit, h: u64, m: Mem, v: nat)
    requires Inv(m) && Key(3, Prefix(3, v)) in m.tabs && LeafOk(LeafWord(e, PageAt(h, v)))
    ensures Effect(Edit(e), h, m, WriteSlot(m, Key(3, Prefix(3, v)), v % 512, LeafWord(e, PageAt(h, v))), 3, v, v + 1)
  {
    hide LeafWord;
    WriteInv(m, v, LeafWord(e, PageAt(h, v)));
  }

  // ------------------------------------------------------------------ readiness

  /** What is left of a range is ready after its first part is done. */
  lemma ReadyRest(visit: Visit, h: u64, m0: Mem, m1: Mem, d: nat, a: nat, c: nat, b: nat)
    requires a <= c <= b && Inv(m0)
    requires Ready(visit, h, m0, d, a, b) && Effect(visit, h, m0, m1, d, a, c)
    ensures Ready(visit, h, m1, d, c, b)
  {
    NeededSplit(d, a, c, b);
    match visit
    case Reserve =>
      TotalKept(m0, m1);
      hide Inv, Kept, Needed, Meets, SameFrames, SameLeaves;
      assert m1.tabs.Keys + Needed(d, c, b) == m0.tabs.Keys + Needed(d, a, b);
    case Collect =>
    case Edit(e) =>
      hide LeafWord, LeafOk, Inv, Kept, Meets, SameFrames, Edited;
  }

  /** A part of a ready range is ready. */
  lemma ReadyPart(visit: Visit, h: u64, m: Mem, d: nat, a: nat, c: nat, b: nat)
    requires a <= c <= b && Ready(visit, h, m, d, a, b)
    ensures Ready(visit, h, m, d, a, c)
  {
    NeededSplit(d, a, c, b);
    match visit
    case Reserve => SubsetSize(m.tabs.Keys + Needed(d, a, c), m.tabs.Keys + Needed(d, a, b));
    case Collect =>
    case Edit(e) => hide LeafWord, LeafOk;
  }

  /** The level below a reserved child is ready. */
  lemma ReadyBelow(h: u64, m0: Mem, m1: Mem, d: nat, q: nat, a: nat, b: nat)
    requires d <= 2 && a < b && Prefix(d + 1, a) == q && Prefix(d + 1, b - 1) == q
    requires Housed(m0) && Housed(m1) && Kept(m0, m1) && m1.tabs.Keys == m0.tabs.Keys + {Key(d + 1, q)}
    requires Ready(Reserve, h, m0, d, a, b)
    ensures Ready(Reserve, h, m1, d + 1, a, b)
  {
    TotalKept(m0, m1);
    hide Housed, Kept;
    NeededBlock(d, q, a, b);
    SubsetSize(m1.tabs.Keys + Needed(d + 1, a, b), m0.tabs.Keys + Needed(d, a, b));
  }

  /** A missing child of a ready range finds a free frame. */
  lemma FrameLeft(h: u64, m: Mem, d: nat, q: nat, a: nat, b: nat)
    requires d <= 2 && a < b && Prefix(d + 1, a) == q && Prefix(d + 1, b - 1) == q
    requires Ready(Reserve, h, m, d, a, b) && Key(d + 1, q) !in m.tabs
    ensures m.free != {}
  {
    NeededBlock(d, q, a, b);
    SubsetSize(m.tabs.Keys + {Key(d + 1, q)}, m.tabs.Keys + Needed(d, a, b));
  }

  /** The tables an edit needs below a slot are there. */
  lemma ReadyEdit(e: LeafEdit, h: u64, m: Mem, d: nat, q: nat, a: nat, b: nat)
    requires d <= 2 && a < b && Prefix(d + 1, a) == q && Prefix(d + 1, b - 1) == q
    requires Ready(Edit(e), h, m, d, a, b)
    ensures Key(d + 1, q) in m.tabs && Ready(Edit(e), h, m, d + 1, a, b)
  {
  }
}
