/** The page-table tree as a value: physical memory, which frame holds which table, and which frames are free. */
module Tables {
  import opened Words
  import opened Entries
  import opened Paging

  /** `ram` is physical memory by frame, 512 words each. `tabs` gives the frame of every table of the tree by the
      table's name; `free` and `managed` are the frames of the page allocator. */
  datatype Mem = Mem(ram: map<nat, seq<u64>>, tabs: map<Key, nat>, free: set<nat>, managed: set<nat>)

  /** Entry i of table k; 0 when there is no such entry. */
  ghost function Slot(m: Mem, k: Key, i: nat): u64 {
    if k in m.tabs && m.tabs[k] in m.ram && i < |m.ram[m.tabs[k]]| then m.ram[m.tabs[k]][i] else 0
  }

  /** The entry that the last level of the tree holds for page v; 0 when no table covers v. */
  ghost function Leaf(m: Mem, v: nat): u64 {
    Slot(m, Key(3, Prefix(3, v)), v % 512)
  }

  // ------------------------------------------------------------------ the invariant

  /** One root, and every other table hangs below the table of its parent's name. */
  ghost predicate Rooted(m: Mem) {
    && ROOT in m.tabs
    && forall k :: k in m.tabs ==> k.d <= 3 && (k.d == 0 ==> k == ROOT) && (k.d > 0 ==> Parent(k) in m.tabs)
  }

  ghost predicate GoodFrame(m: Mem, f: nat) {
    f in m.ram && |m.ram[f]| == 512 && f < 0x100_0000_0000
  }

  /** Every table has a frame of its own, outside the free set, and all but the root's came from the allocator. */
  ghost predicate Housed(m: Mem) {
    && (forall k :: k in m.tabs ==>
       GoodFrame(m, m.tabs[k]) && m.tabs[k] !in m.free && (k.d > 0 ==> m.tabs[k] in m.managed))
    && (forall k, l :: k in m.tabs && l in m.tabs && m.tabs[k] == m.tabs[l] ==> k == l)
    && (forall f :: f in m.managed ==> GoodFrame(m, f) && f > 0)
    && m.free <= m.managed
  }

  ghost function LinkWord(m: Mem, c: Key): u64 {
    if c in m.tabs && m.tabs[c] < 0x100_0000_0000 then TableEntry(m.tabs[c]) else 0
  }

  /** Entries above the last level are exactly the links to the tables there are. */
  ghost predicate Linked(m: Mem) {
    forall k, i {:trigger Slot(m, k, i)} :: k in m.tabs && k.d < 3 && i < 512 ==>
      Slot(m, k, i) == LinkWord(m, Child(k, i))
  }

  ghost predicate LeafOk(w: u64) {
    w == 0 || (Present(w) && !Large(w))
  }

  ghost predicate LeavesOk(m: Mem) {
    forall k, i {:trigger Slot(m, k, i)} :: k in m.tabs && k.d == 3 && i < 512 ==> LeafOk(Slot(m, k, i))
  }

  ghost predicate Inv(m: Mem) {
    Rooted(m) && Housed(m) && Linked(m) && LeavesOk(m)
  }

  // ------------------------------------------------------------------ the three updates

  ghost function Zeros(): (z: seq<u64>)
    ensures |z| == 512 && forall i :: 0 <= i < 512 ==> z[i] == 0
  {
    seq(512, _ => 0)
  }

  /** `table->entry[i] = w`. */
  ghost function WriteSlot(m: Mem, k: Key, i: nat, w: u64): Mem
    requires k in m.tabs && m.tabs[k] in m.ram && i < |m.ram[m.tabs[k]]|
  {
    var row: seq<u64> := m.ram[m.tabs[k]][i := w];
    m.(ram := m.ram[m.tabs[k] := row])
  }

  /** A zeroed frame f becomes the table below entry i of k. */
  ghost function AddTable(m: Mem, k: Key, i: nat, f: nat): Mem
    requires k in m.tabs && m.tabs[k] in m.ram && m.tabs[k] != f && i < |m.ram[m.tabs[k]]| && f < 0x100_0000_0000
  {
    var linked := WriteSlot(m.(ram := m.ram[f := Zeros()]), k, i, TableEntry(f));
    linked.(tabs := m.tabs[Child(k, i) := f], free := m.free - {f})
  }

  /** The table below entry i of k is unlinked and its frame given back. */
  ghost function DropTable(m: Mem, k: Key, i: nat): Mem
    requires k in m.tabs && m.tabs[k] in m.ram && i < |m.ram[m.tabs[k]]| && Child(k, i) in m.tabs
  {
    WriteSlot(m, k, i, 0).(tabs := m.tabs - {Child(k, i)}, free := m.free + {m.tabs[Child(k, i)]})
  }

  lemma SlotAfterWrite(m: Mem, k: Key, i: nat, w: u64, l: Key, j: nat)
    requires Housed(m) && k in m.tabs && i < 512
    ensures Slot(WriteSlot(m, k, i, w), l, j) == if l == k && j == i then w else Slot(m, l, j)
  {
  }

  lemma SlotAfterAdd(m: Mem, k: Key, i: nat, f: nat, l: Key, j: nat)
    requires Housed(m) && k in m.tabs && i < 512 && f in m.free && Child(k, i) !in m.tabs
    ensures f < 0x100_0000_0000
    ensures Slot(AddTable(m, k, i, f), l, j) ==
            if l == Child(k, i) then 0 else if l == k && j == i then TableEntry(f) else Slot(m, l, j)
  {
  }

  lemma SlotAfterDrop(m: Mem, k: Key, i: nat, l: Key, j: nat)
    requires Housed(m) && k in m.tabs && i < 512 && Child(k, i) in m.tabs
    ensures Slot(DropTable(m, k, i), l, j) ==
            if l == Child(k, i) then 0 else if l == k && j == i then 0 else Slot(m, l, j)
  {
  }

  // ------------------------------------------------------------------ what stays

  ghost predicate OwnedFrame(m: Mem, f: nat) {
    f in m.free || f in m.tabs.Values
  }

  /** Table frames and free frames together stay the same frames, and no other frame is written. */
  ghost predicate Kept(m0: Mem, m1: Mem) {
    && m1.managed == m0.managed && m1.ram.Keys == m0.ram.Keys
    && (forall f :: OwnedFrame(m0, f) <==> OwnedFrame(m1, f))
    && (forall f :: f in m0.ram && f in m1.ram && !OwnedFrame(m0, f) ==> m1.ram[f] == m0.ram[f])
  }

  ghost predicate SameFrames(m0: Mem, m1: Mem) {
    forall k :: k in m0.tabs && k in m1.tabs ==> m1.tabs[k] == m0.tabs[k]
  }

  ghost predicate SameLeaves(m0: Mem, m1: Mem) {
    forall v: nat :: Leaf(m1, v) == Leaf(m0, v)
  }

  ghost predicate NonEmpty(m: Mem, k: Key) {
    exists i :: 0 <= i < 512 && Present(Slot(m, k, i))
  }

  lemma KeptTrans(m0: Mem, m1: Mem, m2: Mem)
    requires Kept(m0, m1) && Kept(m1, m2)
    ensures Kept(m0, m2)
  {
  }

  lemma {:induction false} ValuesSize(t: map<Key, nat>)
    requires forall k, l :: k in t && l in t && t[k] == t[l] ==> k == l
    ensures |t.Values| == |t|
  {
    if t.Keys != {} {
      var k :| k in t.Keys;
      var r := t - {k};
      ValuesSize(r);
      assert t.Values == r.Values + {t[k]} by {
        forall f | f in t.Values ensures f in r.Values + {t[k]} {
          var l :| l in t && t[l] == f;
          if l != k { assert l in r && r[l] == f; }
        }
        forall f | f in r.Values ensures f in t.Values {
          var l :| l in r && r[l] == f;
          assert l in t;
        }
      }
      assert t.Keys == r.Keys + {k};
    } else {
      assert t == map[];
    }
  }

  lemma OwnedCount(m: Mem)
    requires Housed(m)
    ensures |m.tabs.Values + m.free| == |m.tabs| + |m.free|
  {
    ValuesSize(m.tabs);
    assert m.tabs.Values !! m.free;
  }

  /** Conservation: the number of tables and free pages together never changes. */
  lemma TotalKept(m0: Mem, m1: Mem)
    requires Housed(m0) && Housed(m1) && Kept(m0, m1)
    ensures |m1.tabs| + |m1.free| == |m0.tabs| + |m0.free|
  {
    OwnedCount(m0);
    OwnedCount(m1);
    OwnedSame(m0, m1);
    hide *;
  }

  lemma OwnedSame(m0: Mem, m1: Mem)
    requires Kept(m0, m1)
    ensures m0.tabs.Values + m0.free == m1.tabs.Values + m1.free
  {
    forall f ensures f in m0.tabs.Values + m0.free <==> f in m1.tabs.Values + m1.free {
      assert OwnedFrame(m0, f) <==> OwnedFrame(m1, f);
    }
  }

  // ------------------------------------------------------------------ adding a table

  lemma AddKept(m: Mem, k: Key, i: nat, f: nat)
    requires Housed(m) && k in m.tabs && i < 512 && f in m.free && Child(k, i) !in m.tabs
    ensures f < 0x100_0000_0000
    ensures var m' := AddTable(m, k, i, f);
      && Kept(m, m') && SameFrames(m, m') && m'.tabs.Keys == m.tabs.Keys + {Child(k, i)}
      && m'.tabs[Child(k, i)] == f && m'.free == m.free - {f}
  {
    assert GoodFrame(m, f);
    hide TableEntry;
    var c, m' := Child(k, i), AddTable(m, k, i, f);
    forall g ensures OwnedFrame(m, g) <==> OwnedFrame(m', g) {
      if g in m.tabs.Values { var l :| l in m.tabs && m.tabs[l] == g; assert l in m'.tabs && m'.tabs[l] == g; }
      if g in m'.tabs.Values && g != f {
        var l :| l in m'.tabs && m'.tabs[l] == g;
        assert l in m.tabs && m.tabs[l] == g;
      }
      assert c in m'.tabs && m'.tabs[c] == f;
    }
    assert m.tabs[k] in m.tabs.Values;
    assert OwnedFrame(m, m.tabs[k]) && OwnedFrame(m, f);
  }

  lemma AddHoused(m: Mem, k: Key, i: nat, f: nat)
    requires Housed(m) && k in m.tabs && i < 512 && f in m.free && Child(k, i) !in m.tabs
    ensures f < 0x100_0000_0000 && Housed(AddTable(m, k, i, f))
  {
    assert GoodFrame(m, f) && GoodFrame(m, m.tabs[k]);
    hide TableEntry;
    var m' := AddTable(m, k, i, f);
    forall g | GoodFrame(m, g) ensures GoodFrame(m', g) { }
  }

  lemma AddRooted(m: Mem, k: Key, i: nat, f: nat)
    requires Rooted(m) && Housed(m) && k in m.tabs && k.d < 3 && i < 512 && f in m.free && Child(k, i) !in m.tabs
    ensures f < 0x100_0000_0000 && Rooted(AddTable(m, k, i, f))
  {
    assert GoodFrame(m, f);
    ParentOfChild(k, i);
    hide TableEntry;
  }

  /** A table that is not there has no children. */
  lemma NoGrandchild(m: Mem, c: Key, j: nat)
    requires Rooted(m) && c !in m.tabs && j < 512
    ensures Child(c, j) !in m.tabs
  {
  }

  lemma ChildInjective(k: Key, i: nat, l: Key, j: nat)
    requires i < 512 && j < 512 && Child(k, i) == Child(l, j)
    ensures k == l && i == j
  {
  }

  lemma AddLinked(m: Mem, k: Key, i: nat, f: nat)
    requires Inv(m) && k in m.tabs && k.d < 3 && i < 512 && f in m.free && Child(k, i) !in m.tabs
    ensures f < 0x100_0000_0000
    ensures Linked(AddTable(m, k, i, f)) && LeavesOk(AddTable(m, k, i, f)) && SameLeaves(m, AddTable(m, k, i, f))
  {
    assert GoodFrame(m, f);
    var c, m' := Child(k, i), AddTable(m, k, i, f);
    AddKept(m, k, i, f);
    hide TableEntry, AddTable, Housed, Slot, Kept;
    forall l, j: nat | l in m'.tabs && l.d < 3 && j < 512
      ensures Slot(m', l, j) == LinkWord(m', Child(l, j))
    {
      SlotAfterAdd(m, k, i, f, l, j);
      if l == c {
        NoGrandchild(m, c, j);
      } else {
        assert Slot(m, l, j) == LinkWord(m, Child(l, j));
        if Child(l, j) == c { ChildInjective(k, i, l, j); }
      }
    }
    forall l, j: nat | l in m'.tabs && l.d == 3 && j < 512 ensures LeafOk(Slot(m', l, j)) {
      SlotAfterAdd(m, k, i, f, l, j);
      assert l != c ==> LeafOk(Slot(m, l, j));
    }
    forall v: nat ensures Leaf(m', v) == Leaf(m, v) {
      SlotAfterAdd(m, k, i, f, Key(3, Prefix(3, v)), v % 512);
      SlotAbsent(m, c, v % 512);
    }
  }

  lemma SlotAbsent(m: Mem, c: Key, j: nat)
    requires c !in m.tabs
    ensures Slot(m, c, j) == 0
  {
  }

  /** `node_callback_reserve` on a missing entry. */
  lemma AddInv(m: Mem, k: Key, i: nat, f: nat)
    requires Inv(m) && k in m.tabs && k.d < 3 && i < 512 && f in m.free && Child(k, i) !in m.tabs
    ensures f < 0x100_0000_0000
    ensures Inv(AddTable(m, k, i, f)) && SameLeaves(m, AddTable(m, k, i, f))
  {
    AddHoused(m, k, i, f);
    AddRooted(m, k, i, f);
    AddLinked(m, k, i, f);
  }

  // ------------------------------------------------------------------ dropping a table

  lemma DropKept(m: Mem, k: Key, i: nat)
    requires Housed(m) && k in m.tabs && i < 512 && Child(k, i) in m.tabs
    ensures var m' := DropTable(m, k, i);
      && Kept(m, m') && SameFrames(m, m') && m'.tabs.Keys == m.tabs.Keys - {Child(k, i)}
  {
    var c, m' := Child(k, i), DropTable(m, k, i);
    forall g ensures OwnedFrame(m, g) <==> OwnedFrame(m', g) {
      if g in m.tabs.Values && g != m.tabs[c] {
        var l :| l in m.tabs && m.tabs[l] == g;
        assert l in m'.tabs && m'.tabs[l] == g;
      }
      if g in m'.tabs.Values { var l :| l in m'.tabs && m'.tabs[l] == g; assert l in m.tabs && m.tabs[l] == g; }
      assert c in m.tabs && m.tabs[c] in m.tabs.Values;
    }
    assert m.tabs[k] in m.tabs.Values;
    assert OwnedFrame(m, m.tabs[k]);
  }

  lemma DropHoused(m: Mem, k: Key, i: nat)
    requires Housed(m) && k in m.tabs && i < 512 && Child(k, i) in m.tabs && Child(k, i).d > 0
    ensures Housed(DropTable(m, k, i))
  {
    assert GoodFrame(m, m.tabs[k]);
    var m' := DropTable(m, k, i);
    forall g | GoodFrame(m, g) ensures GoodFrame(m', g) { }
  }

  /** The table has no present entry. */
  ghost predicate Empty(m: Mem, c: Key) {
    forall j :: 0 <= j < 512 ==> !Present(Slot(m, c, j))
  }

  lemma EmptyHasNoChild(m: Mem, c: Key, l: Key)
    requires Inv(m) && c in m.tabs && Empty(m, c) && l in m.tabs && l.d > 0
    ensures Parent(l) != c
  {
    if Parent(l) == c {
      ChildOfParent(l);
      var j := l.p % 512;
      assert Slot(m, c, j) == LinkWord(m, Child(c, j));
      assert GoodFrame(m, m.tabs[l]);
      TableEntryFields(m.tabs[l]);
    }
  }

  lemma DropLinked(m: Mem, k: Key, i: nat)
    requires Inv(m) && k in m.tabs && k.d < 3 && i < 512 && Child(k, i) in m.tabs && Empty(m, Child(k, i))
    ensures Linked(DropTable(m, k, i)) && LeavesOk(DropTable(m, k, i))
  {
    var c, m' := Child(k, i), DropTable(m, k, i);
    DropKept(m, k, i);
    forall x ensures LinkWord(m', x) == if x == c then 0 else LinkWord(m, x) { LinkAfterDrop(m, k, i, x); }
    hide TableEntry, DropTable, Housed, Slot, Kept, Present, Large, Empty, LinkWord, SameFrames;
    forall l, j: nat | l in m'.tabs && j < 512
      ensures l.d < 3 ==> Slot(m', l, j) == LinkWord(m', Child(l, j))
      ensures l.d == 3 ==> LeafOk(Slot(m', l, j))
    {
      SlotAfterDrop(m, k, i, l, j);
      assert l.d < 3 ==> Slot(m, l, j) == LinkWord(m, Child(l, j));
      assert l.d == 3 ==> LeafOk(Slot(m, l, j));
      if Child(l, j) == c { ChildInjective(k, i, l, j); }
      assert LinkWord(m', Child(l, j)) == if Child(l, j) == c then 0 else LinkWord(m, Child(l, j));
    }
  }

  lemma LinkAfterDrop(m: Mem, k: Key, i: nat, x: Key)
    requires Housed(m) && k in m.tabs && i < 512 && Child(k, i) in m.tabs
    ensures LinkWord(DropTable(m, k, i), x) == if x == Child(k, i) then 0 else LinkWord(m, x)
  {
  }

  lemma DropLeaves(m: Mem, k: Key, i: nat)
    requires Inv(m) && k in m.tabs && k.d < 3 && i < 512 && Child(k, i) in m.tabs && Empty(m, Child(k, i))
    ensures SameLeaves(m, DropTable(m, k, i))
  {
    var c, m' := Child(k, i), DropTable(m, k, i);
    hide TableEntry, DropTable, Housed, Slot, Kept, Present, Large;
    forall v: nat ensures Leaf(m', v) == Leaf(m, v) {
      var l, j := Key(3, Prefix(3, v)), v % 512;
      SlotAfterDrop(m, k, i, l, j);
      if l == c {
        assert !Present(Slot(m, c, j)) && LeafOk(Slot(m, c, j));
      }
    }
  }

  /** `node_callback_gc` on an empty table. */
  lemma DropInv(m: Mem, k: Key, i: nat)
    requires Inv(m) && k in m.tabs && k.d < 3 && i < 512 && Child(k, i) in m.tabs && Empty(m, Child(k, i))
    ensures Inv(DropTable(m, k, i)) && SameLeaves(m, DropTable(m, k, i))
  {
    var m' := DropTable(m, k, i);
    DropHoused(m, k, i);
    DropLinked(m, k, i);
    DropLeaves(m, k, i);
    DropKept(m, k, i);
    forall l | l in m'.tabs && l.d > 0 ensures Parent(l) in m'.tabs { EmptyHasNoChild(m, Child(k, i), l); }
    assert Child(k, i) != ROOT;
  }

  // ------------------------------------------------------------------ writing a leaf

  lemma WriteHoused(m: Mem, k: Key, i: nat, w: u64)
    requires Housed(m) && k in m.tabs && i < 512
    ensures var m' := WriteSlot(m, k, i, w);
      Housed(m') && Kept(m, m') && m'.tabs == m.tabs && m'.free == m.free
  {
  }

  /** A leaf callback writes the entry of one page and nothing else. */
  lemma WriteInv(m: Mem, v: nat, w: u64)
    requires Inv(m) && Key(3, Prefix(3, v)) in m.tabs && LeafOk(w)
    ensures var m' := WriteSlot(m, Key(3, Prefix(3, v)), v % 512, w);
      && Inv(m') && Kept(m, m') && m'.tabs == m.tabs && m'.free == m.free
      && forall u: nat :: Leaf(m', u) == if u == v then w else Leaf(m, u)
  {
    var k, i := Key(3, Prefix(3, v)), v % 512;
    var m' := WriteSlot(m, k, i, w);
    WriteHoused(m, k, i, w);
    hide WriteSlot, Housed, Slot, Kept, TableEntry, Present, Large;
    forall l, j: nat | l in m.tabs && j < 512
      ensures l.d < 3 ==> Slot(m', l, j) == LinkWord(m', Child(l, j))
      ensures l.d == 3 ==> LeafOk(Slot(m', l, j))
    {
      SlotAfterWrite(m, k, i, w, l, j);
      assert l.d < 3 ==> Slot(m, l, j) == LinkWord(m, Child(l, j));
      assert l.d == 3 ==> LeafOk(Slot(m, l, j));
    }
    forall u: nat ensures Leaf(m', u) == if u == v then w else Leaf(m, u) {
      SlotAfterWrite(m, k, i, w, Key(3, Prefix(3, u)), u % 512);
      assert Prefix(3, u) == Prefix(3, v) && u % 512 == v % 512 ==> u == v;
    }
  }
}
