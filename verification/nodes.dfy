/** Where the region list of src/memory/vaddress.c keeps its nodes: chains of nodes linked through memory, and the
    storage blocks that hand nodes out. */
module Nodes {
  import opened Regions
  import opened Sequences

  /** The address of a `struct address_region`: entry `slot` of the storage block in page `page`. */
  datatype Addr = Null | Node(page: nat, slot: nat)

  /** `struct address_region`. */
  datatype Region = Region(next: Addr, begin: nat, end: nat)

  /** `struct storage_block` without its entries: the page of the next block (0 for none), and how many entries
      were handed out. */
  datatype Storage = Storage(next: nat, entries: nat)

  // ------------------------------------------------------------------ chains

  function At(s: seq<Addr>, i: nat): Addr {
    if i < |s| then s[i] else Null
  }

  ghost predicate Linked(mem: map<Addr, Region>, s: seq<Addr>, i: nat)
    requires i < |s|
  {
    s[i].Node? && s[i] in mem && mem[s[i]].next == At(s, i + 1)
  }

  /** The nodes s, all different, linked in order from `head` to null: an acyclic list. */
  ghost predicate Chain(mem: map<Addr, Region>, head: Addr, s: seq<Addr>) {
    && head == At(s, 0) && Distinct(s)
    && forall i :: 0 <= i < |s| ==> Linked(mem, s, i)
  }

  function SpanOf(mem: map<Addr, Region>, a: Addr): Span {
    if a in mem then Span(mem[a].begin, mem[a].end) else Span(0, 0)
  }

  /** What the nodes of a list say. */
  function Spans(mem: map<Addr, Region>, s: seq<Addr>): seq<Span> {
    seq(|s|, i requires 0 <= i < |s| => SpanOf(mem, s[i]))
  }

  lemma ChainFrame(mem: map<Addr, Region>, head: Addr, s: seq<Addr>, a: Addr, r: Region)
    ensures Chain(mem, head, s) && a !in s ==> Chain(mem[a := r], head, s) && Spans(mem[a := r], s) == Spans(mem, s)
  {
    if Chain(mem, head, s) && a !in s {
      var mem' := mem[a := r];
      forall i | 0 <= i < |s| ensures Linked(mem', s, i) { assert Linked(mem, s, i); }
      assert Spans(mem', s) == Spans(mem, s);
    }
  }

  lemma ChainPush(mem: map<Addr, Region>, head: Addr, s: seq<Addr>, a: Addr, r: Region)
    ensures Chain(mem, head, s) && a !in s && a.Node? && r.next == head
            ==> Chain(mem[a := r], a, [a] + s) && Spans(mem[a := r], [a] + s) == [Span(r.begin, r.end)] + Spans(mem, s)
  {
    if Chain(mem, head, s) && a !in s && a.Node? && r.next == head {
      var mem', s' := mem[a := r], [a] + s;
      forall i | 0 <= i < |s'| ensures Linked(mem', s', i) { if i > 0 { assert Linked(mem, s, i - 1); } }
      assert Spans(mem', s') == [Span(r.begin, r.end)] + Spans(mem, s);
    }
  }

  lemma ChainPop(mem: map<Addr, Region>, head: Addr, s: seq<Addr>)
    ensures Chain(mem, head, s) && s != [] ==>
              head in mem && head == s[0] && head !in s[1..] && Chain(mem, mem[head].next, s[1..])
  {
    if Chain(mem, head, s) && s != [] {
      assert Linked(mem, s, 0);
      forall i | 0 <= i < |s[1..]| ensures Linked(mem, s[1..], i) { assert Linked(mem, s, i + 1); }
    }
  }

  /** Changing what node c says, not where it points. */
  lemma ChainEdit(mem: map<Addr, Region>, head: Addr, s: seq<Addr>, c: nat, r: Region)
    ensures Chain(mem, head, s) && c < |s| && s[c] in mem && r.next == mem[s[c]].next
            ==> Chain(mem[s[c] := r], head, s) && Spans(mem[s[c] := r], s) == Spans(mem, s)[c := Span(r.begin, r.end)]
  {
    if Chain(mem, head, s) && c < |s| && s[c] in mem && r.next == mem[s[c]].next {
      var mem' := mem[s[c] := r];
      forall i | 0 <= i < |s| ensures Linked(mem', s, i) { assert Linked(mem, s, i); }
      assert Spans(mem', s) == Spans(mem, s)[c := Span(r.begin, r.end)];
    }
  }

  /** Node c is taken out by making its predecessor, or the head, point past it. */
  function Unlinked(mem: map<Addr, Region>, s: seq<Addr>, c: nat): map<Addr, Region> {
    if 0 < c < |s| && s[c - 1] in mem && s[c] in mem then
      mem[s[c - 1] := mem[s[c - 1]].(next := mem[s[c]].next)]
    else mem
  }

  lemma ChainUnlink(mem: map<Addr, Region>, head: Addr, s: seq<Addr>, c: nat)
    ensures Chain(mem, head, s) && c < |s| ==>
              var s', mem' := s[..c] + s[c + 1..], Unlinked(mem, s, c);
              && Chain(mem', if c == 0 then At(s, 1) else head, s') && s[c] !in s'
              && Spans(mem', s') == Spans(mem, s)[..c] + Spans(mem, s)[c + 1..]
  {
    if Chain(mem, head, s) && c < |s| {
      var s', mem' := s[..c] + s[c + 1..], Unlinked(mem, s, c);
      assert Linked(mem, s, c) && (c > 0 ==> Linked(mem, s, c - 1));
      forall i | 0 <= i < |s'| ensures Linked(mem', s', i) && SpanOf(mem', s'[i]) == SpanOf(mem, s'[i]) {
        assert s'[i] == s[if i < c then i else i + 1];
        assert Linked(mem, s, if i < c then i else i + 1);
      }
      assert Spans(mem', s') == Spans(mem, s)[..c] + Spans(mem, s)[c + 1..];
    }
  }

  /** A new node n is put behind node c, which gets a new end. */
  lemma ChainInsert(mem: map<Addr, Region>, head: Addr, s: seq<Addr>, c: nat, n: Addr, end: nat, r: Region)
    ensures Chain(mem, head, s) && c < |s| && s[c] in mem && n !in s && n.Node? && r.next == mem[s[c]].next ==>
              var s', mem' := s[..c + 1] + [n] + s[c + 1..], mem[n := r][s[c] := mem[s[c]].(end := end, next := n)];
              && Chain(mem', head, s')
              && Spans(mem', s') == Spans(mem, s)[..c] + [Span(mem[s[c]].begin, end), Span(r.begin, r.end)]
                 + Spans(mem, s)[c + 1..]
  {
    if Chain(mem, head, s) && c < |s| && s[c] in mem && n !in s && n.Node? && r.next == mem[s[c]].next {
      var s', mem' := s[..c + 1] + [n] + s[c + 1..], mem[n := r][s[c] := mem[s[c]].(end := end, next := n)];
      assert Linked(mem, s, c) && |s'| == |s| + 1 && Distinct(s');
      forall i | 0 <= i < |s'| ensures Linked(mem', s', i) {
        assert i <= c ==> s'[i] == s[i];
        assert i > c + 1 ==> s'[i] == s[i - 1];
        if i <= c { assert Linked(mem, s, i); }
        if i > c + 1 { assert Linked(mem, s, i - 1); }
      }
      assert Spans(mem', s') ==
        Spans(mem, s)[..c] + [Span(mem[s[c]].begin, end), Span(r.begin, r.end)] + Spans(mem, s)[c + 1..];
    }
  }

  // ------------------------------------------------------------------ storage blocks

  function BlockAt(s: seq<nat>, i: nat): nat {
    if i < |s| then s[i] else 0
  }

  ghost predicate BlockLinked(block: map<nat, Storage>, s: seq<nat>, i: nat)
    requires i < |s|
  {
    s[i] != 0 && s[i] in block && block[s[i]].next == BlockAt(s, i + 1) && block[s[i]].entries <= 100
  }

  /** The blocks form an acyclic list from `head`, and there is no other block. */
  ghost predicate BlockChain(block: map<nat, Storage>, head: nat, s: seq<nat>) {
    && head == BlockAt(s, 0) && Distinct(s)
    && (forall i :: 0 <= i < |s| ==> BlockLinked(block, s, i))
    && (forall p :: p in block ==> p in s)
  }

  /** How many nodes these blocks have handed out. */
  function Total(block: map<nat, Storage>, s: seq<nat>): nat {
    if s == [] then 0 else (if s[0] in block then block[s[0]].entries else 0) + Total(block, s[1..])
  }

  lemma {:induction false} TotalFrame(block: map<nat, Storage>, s: seq<nat>, p: nat, b: Storage)
    requires p !in s
    ensures Total(block[p := b], s) == Total(block, s)
  {
    if s != [] { TotalFrame(block, s[1..], p, b); }
  }

  lemma {:induction false} TotalUpdate(block: map<nat, Storage>, s: seq<nat>, i: nat, b: Storage)
    requires Distinct(s) && i < |s| && s[i] in block
    ensures Total(block[s[i] := b], s) == Total(block, s) - block[s[i]].entries + b.entries
  {
    if i > 0 {
      TotalUpdate(block, s[1..], i - 1, b);
    } else {
      TotalFrame(block, s[1..], s[0], b);
    }
  }

  /** Some block has handed this node out. */
  ghost predicate Handed(block: map<nat, Storage>, a: Addr) {
    a.Node? && a.page in block && a.slot < block[a.page].entries
  }

  /** Node conservation: the nodes handed out are the used ones and the idle ones, none is both, and there are as
      many as the blocks' counters say. */
  ghost predicate Conserved(block: map<nat, Storage>, head: nat, s: seq<nat>, used: set<Addr>, idle: seq<Addr>) {
    && BlockChain(block, head, s)
    && (forall a :: Handed(block, a) <==> a in used || a in idle)
    && (forall a :: a in idle ==> a !in used)
    && |used| + |idle| == Total(block, s)
  }

  /** The free list's first node is put to use, or a used node is put on the free list. */
  lemma ConservedPop(block: map<nat, Storage>, head: nat, s: seq<nat>, used: set<Addr>, idle: seq<Addr>)
    ensures Conserved(block, head, s, used, idle) && idle != [] && Distinct(idle)
            ==> idle[0] !in used && idle[0] !in idle[1..] && Conserved(block, head, s, used + {idle[0]}, idle[1..])
  {
  }

  lemma ConservedPush(block: map<nat, Storage>, head: nat, s: seq<nat>, used: set<Addr>, idle: seq<Addr>, a: Addr)
    ensures Conserved(block, head, s, used, idle) && a in used ==>
              a !in idle && Conserved(block, head, s, used - {a}, [a] + idle)
  {
  }

  /** A block hands out its next entry. */
  lemma ConservedTake(block: map<nat, Storage>, head: nat, s: seq<nat>, used: set<Addr>, idle: seq<Addr>, p: nat)
    ensures Conserved(block, head, s, used, idle) && p in block && block[p].entries < 100 ==>
              var n := Node(p, block[p].entries);
              && n !in used && n !in idle
              && Conserved(block[p := block[p].(entries := block[p].entries + 1)], head, s, used + {n}, idle)
  {
    if Conserved(block, head, s, used, idle) && p in block && block[p].entries < 100 {
      var n, b := Node(p, block[p].entries), block[p].(entries := block[p].entries + 1);
      var i :| 0 <= i < |s| && s[i] == p;
      assert !Handed(block, n);
      TotalUpdate(block, s, i, b);
      var block' := block[p := b];
      forall k | 0 <= k < |s| ensures BlockLinked(block', s, k) { assert BlockLinked(block, s, k); }
      forall a ensures Handed(block', a) <==> Handed(block, a) || a == n {}
    }
  }

  /** A new block is put in front and hands out its first entry. */
  lemma ConservedNew(block: map<nat, Storage>, head: nat, s: seq<nat>, used: set<Addr>, idle: seq<Addr>, p: nat)
    ensures Conserved(block, head, s, used, idle) && p !in block && p != 0 ==>
              var n := Node(p, 0);
              && n !in used && n !in idle
              && Conserved(block[p := Storage(head, 1)], p, [p] + s, used + {n}, idle)
  {
    hide BlockChain, Handed;
    BlockPush(block, head, s, p);
    HandedNew(block, head, p);
  }

  lemma HandedNew(block: map<nat, Storage>, head: nat, p: nat)
    ensures p !in block ==> !Handed(block, Node(p, 0))
    ensures p !in block ==> forall a :: Handed(block[p := Storage(head, 1)], a) <==> Handed(block, a) || a == Node(p, 0)
  {
  }

  lemma BlockPush(block: map<nat, Storage>, head: nat, s: seq<nat>, p: nat)
    ensures BlockChain(block, head, s) && p !in block && p != 0 ==>
              && BlockChain(block[p := Storage(head, 1)], p, [p] + s)
              && Total(block[p := Storage(head, 1)], [p] + s) == Total(block, s) + 1
  {
    if BlockChain(block, head, s) && p !in block && p != 0 {
      var block', s' := block[p := Storage(head, 1)], [p] + s;
      forall k | 0 <= k < |s| ensures s[k] in block { assert BlockLinked(block, s, k); }
      TotalFrame(block, s, p, Storage(head, 1));
      assert s'[1..] == s;
      forall k | 0 <= k < |s'| ensures BlockLinked(block', s', k) { if k > 0 { assert BlockLinked(block, s, k - 1); } }
    }
  }

  // ------------------------------------------------------------------ the whole space

  /** The memory of an address space: nodes, storage blocks and the heads of the three lists, with what the lists
      hold. `inUse` is the field `allocated` of the source. */
  datatype Heap = Heap(region: map<Addr, Region>, block: map<nat, Storage>, storage: nat, inUse: Addr, unused: Addr,
                       alloc: seq<Addr>, idle: seq<Addr>, chain: seq<nat>)

  const BLANK := Region(Null, 0, 0)

  function Listing(h: Heap): seq<Span> {
    Spans(h.region, h.alloc)
  }

  ghost predicate Stored(h: Heap, used: set<Addr>) {
    Conserved(h.block, h.storage, h.chain, used, h.idle) && Chain(h.region, h.unused, h.idle)
  }

  /** The region list and the free list are acyclic, share no node, and together hold exactly the nodes the storage
      blocks handed out. */
  ghost predicate Good(h: Heap) {
    Stored(h, Elems(h.alloc)) && Chain(h.region, h.inUse, h.alloc)
  }

  /** The same, but node n was just taken and is in neither list yet. */
  ghost predicate Limbo(h: Heap, n: Addr) {
    Stored(h, Elems(h.alloc) + {n}) && n !in h.alloc && n !in h.idle && n.Node? && Chain(h.region, h.inUse, h.alloc)
  }

  lemma ElemsPush(s: seq<Addr>, n: Addr)
    ensures Elems([n] + s) == Elems(s) + {n}
  {
  }

  lemma ElemsInsert(s: seq<Addr>, c: nat, n: Addr)
    requires c < |s|
    ensures Elems(s[..c + 1] + [n] + s[c + 1..]) == Elems(s) + {n}
  {
  }

  lemma ElemsDrop(s: seq<Addr>, c: nat)
    requires c < |s| && Distinct(s)
    ensures Elems(s[..c] + s[c + 1..]) == Elems(s) - {s[c]}
  {
  }

  function Popped(h: Heap): Heap
    requires h.unused in h.region && h.idle != []
  {
    h.(region := h.region[h.unused := BLANK], unused := h.region[h.unused].next, idle := h.idle[1..])
  }

  lemma LimboPop(h: Heap)
    ensures Good(h) && h.idle != [] ==> h.unused in h.region && Limbo(Popped(h), h.unused)
    ensures Good(h) && h.idle == [] ==> h.unused == Null
    ensures Good(h) && h.idle != [] ==> h.unused != Null
  {
    hide Conserved;
    ConservedPop(h.block, h.storage, h.chain, Elems(h.alloc), h.idle);
    ChainPop(h.region, h.unused, h.idle);
    if Good(h) && h.idle != [] {
      assert Linked(h.region, h.idle, 0);
      ChainFrame(h.region, h.region[h.unused].next, h.idle[1..], h.unused, BLANK);
      ChainFrame(h.region, h.inUse, h.alloc, h.unused, BLANK);
    }
  }

  function Taken(h: Heap, p: nat): Heap
    requires p in h.block
  {
    h.(region := h.region[Node(p, h.block[p].entries) := BLANK],
       block := h.block[p := h.block[p].(entries := h.block[p].entries + 1)])
  }

  lemma LimboTake(h: Heap, p: nat)
    ensures Good(h) && p in h.block && h.block[p].entries < 100 ==> Limbo(Taken(h, p), Node(p, h.block[p].entries))
  {
    hide Conserved, Chain;
    ConservedTake(h.block, h.storage, h.chain, Elems(h.alloc), h.idle, p);
    if p in h.block {
      ChainFrame(h.region, h.unused, h.idle, Node(p, h.block[p].entries), BLANK);
      ChainFrame(h.region, h.inUse, h.alloc, Node(p, h.block[p].entries), BLANK);
    }
  }

  function WithBlock(h: Heap, p: nat): Heap {
    h.(region := h.region[Node(p, 0) := BLANK], block := h.block[p := Storage(h.storage, 1)],
       storage := p, chain := [p] + h.chain)
  }

  lemma LimboNew(h: Heap, p: nat)
    ensures Good(h) && p !in h.block && p != 0 ==> Limbo(WithBlock(h, p), Node(p, 0))
  {
    hide Conserved, Chain;
    ConservedNew(h.block, h.storage, h.chain, Elems(h.alloc), h.idle, p);
    ChainFrame(h.region, h.unused, h.idle, Node(p, 0), BLANK);
    ChainFrame(h.region, h.inUse, h.alloc, Node(p, 0), BLANK);
  }

  /** The new node goes to the front of the region list. */
  lemma GoodPush(h: Heap, n: Addr, r: Region)
    ensures Limbo(h, n) && r.next == h.inUse ==>
              var h' := h.(region := h.region[n := r], inUse := n, alloc := [n] + h.alloc);
              Good(h') && Listing(h') == [Span(r.begin, r.end)] + Listing(h)
  {
    hide Conserved, Chain, Elems;
    ElemsPush(h.alloc, n);
    ChainFrame(h.region, h.unused, h.idle, n, r);
    ChainPush(h.region, h.inUse, h.alloc, n, r);
  }

  /** Node c of the region list says something else. */
  lemma GoodEdit(h: Heap, c: nat, r: Region)
    ensures Good(h) && c < |h.alloc| ==> h.alloc[c] in h.region
    ensures Good(h) && c < |h.alloc| && h.alloc[c] in h.region && r.next == h.region[h.alloc[c]].next ==>
              var h' := h.(region := h.region[h.alloc[c] := r]);
              Good(h') && Listing(h') == Replace(Listing(h), c, [Span(r.begin, r.end)])
  {
    hide Conserved;
    if Good(h) && c < |h.alloc| {
      assert Linked(h.region, h.alloc, c) && h.alloc[c] in Elems(h.alloc);
      UsedNotIdle(h, Elems(h.alloc), h.alloc[c]);
      hide Chain;
      ChainFrame(h.region, h.unused, h.idle, h.alloc[c], r);
      ChainEdit(h.region, h.inUse, h.alloc, c, r);
    }
  }

  lemma UsedNotIdle(h: Heap, used: set<Addr>, a: Addr)
    ensures Stored(h, used) && a in used ==> a !in h.idle
  {
  }

  /** Node c goes from the region list to the free list. */
  function Dropped(h: Heap, c: nat): Heap
    requires c < |h.alloc| && h.alloc[c] in h.region
  {
    var a, mem := h.alloc[c], Unlinked(h.region, h.alloc, c);
    h.(region := mem[a := h.region[a].(next := h.unused)], unused := a, idle := [a] + h.idle,
    inUse := if c == 0 then h.region[a].next else h.inUse, alloc := h.alloc[..c] + h.alloc[c + 1..])
  }

  lemma GoodDrop(h: Heap, c: nat)
    ensures Good(h) && c < |h.alloc| ==> h.alloc[c] in h.region
    ensures Good(h) && 0 < c < |h.alloc| ==>
              h.alloc[c - 1].Node? && h.alloc[c - 1] in h.region && h.alloc[c - 1] != h.alloc[c]
    ensures Good(h) && c < |h.alloc| && h.alloc[c] in h.region ==>
              Good(Dropped(h, c)) && Listing(Dropped(h, c)) == Replace(Listing(h), c, [])
  {
    if Good(h) && c < |h.alloc| {
      DropGood(h, c);
    }
    hide *;
  }

  lemma DropGood(h: Heap, c: nat)
    requires Good(h) && c < |h.alloc|
    ensures h.alloc[c] in h.region
              && (c > 0 ==> h.alloc[c - 1].Node? && h.alloc[c - 1] in h.region && h.alloc[c - 1] != h.alloc[c])
    ensures Good(Dropped(h, c)) && Listing(Dropped(h, c)) == Listing(h)[..c] + [] + Listing(h)[c + 1..]
  {
    hide Conserved;
    var a, rest, mem := h.alloc[c], h.alloc[..c] + h.alloc[c + 1..], Unlinked(h.region, h.alloc, c);
    assert Linked(h.region, h.alloc, c) && (c > 0 ==> Linked(h.region, h.alloc, c - 1));
    assert a in Elems(h.alloc) && (c > 0 ==> h.alloc[c - 1] in Elems(h.alloc));
    ElemsDrop(h.alloc, c);
    UsedNotIdle(h, Elems(h.alloc), a);
    if c > 0 {
      UsedNotIdle(h, Elems(h.alloc), h.alloc[c - 1]);
      ChainFrame(h.region, h.unused, h.idle, h.alloc[c - 1], h.region[h.alloc[c - 1]].(next := h.region[a].next));
    }
    hide Elems;
    ChainUnlink(h.region, h.inUse, h.alloc, c);
    ConservedPush(h.block, h.storage, h.chain, Elems(h.alloc), h.idle, a);
    var r := h.region[a].(next := h.unused);
    ChainFrame(mem, if c == 0 then At(h.alloc, 1) else h.inUse, rest, a, r);
    ChainPush(mem, h.unused, h.idle, a, r);
  }

  /** The new node n goes behind node c, which ends at a; n goes from e to where c ended. */
  function Divided(h: Heap, c: nat, n: Addr, a: nat, e: nat): Heap
    requires c < |h.alloc| && h.alloc[c] in h.region
  {
    var r := h.region[h.alloc[c]];
    h.(region := h.region[n := Region(r.next, e, r.end)][h.alloc[c] := Region(n, r.begin, a)],
    alloc := h.alloc[..c + 1] + [n] + h.alloc[c + 1..])
  }

  lemma GoodSplit(h: Heap, c: nat, n: Addr, a: nat, e: nat)
    ensures Limbo(h, n) && c < |h.alloc| ==> h.alloc[c] in h.region && n != h.alloc[c]
    ensures Limbo(h, n) && c < |h.alloc| && h.alloc[c] in h.region ==>
              && Good(Divided(h, c, n, a, e)) && c < |Listing(h)|
              && Listing(Divided(h, c, n, a, e)) ==
                 Replace(Listing(h), c, [Span(Listing(h)[c].begin, a), Span(e, Listing(h)[c].end)])
  {
    if Limbo(h, n) && c < |h.alloc| {
      SplitGood(h, c, n, a, e);
      assert |Listing(h)| == |h.alloc| && Listing(h)[c] == SpanOf(h.region, h.alloc[c]);
    }
    hide *;
  }

  lemma SplitGood(h: Heap, c: nat, n: Addr, a: nat, e: nat)
    requires Limbo(h, n) && c < |h.alloc|
    ensures h.alloc[c] in h.region
    ensures var r, after := h.region[h.alloc[c]], Divided(h, c, n, a, e);
      Good(after) && Listing(after) == Listing(h)[..c] + [Span(r.begin, a), Span(e, r.end)] + Listing(h)[c + 1..]
  {
    hide Conserved;
    assert Linked(h.region, h.alloc, c) && h.alloc[c] in Elems(h.alloc) + {n};
    UsedNotIdle(h, Elems(h.alloc) + {n}, h.alloc[c]);
    ElemsInsert(h.alloc, c, n);
    hide Elems, Chain;
    var r := h.region[h.alloc[c]];
    ChainFrame(h.region, h.unused, h.idle, n, Region(r.next, e, r.end));
    ChainFrame(h.region[n := Region(r.next, e, r.end)], h.unused, h.idle, h.alloc[c], Region(n, r.begin, a));
    ChainInsert(h.region, h.inUse, h.alloc, c, n, a, Region(r.next, e, r.end));
  }

  lemma BlocksLinked(h: Heap, i: nat)
    ensures Good(h) ==> h.storage == BlockAt(h.chain, 0) && (forall p :: p in h.block ==> p in h.chain)
    ensures Good(h) && i < |h.chain| ==> BlockLinked(h.block, h.chain, i)
  {
  }

  /** Node c of the list says what region c is. */
  lemma ListAt(h: Heap, c: nat)
    ensures |Listing(h)| == |h.alloc| && (Good(h) ==> h.inUse == At(h.alloc, 0))
    ensures Good(h) && c < |h.alloc| ==> Linked(h.region, h.alloc, c) && Listing(h)[c] == SpanOf(h.region, h.alloc[c])
    ensures Good(h) && c < |h.alloc| ==>
              && h.alloc[c] in h.region
              && Listing(h)[c] == Span(h.region[h.alloc[c]].begin, h.region[h.alloc[c]].end)
              && h.region[h.alloc[c]].next == if c + 1 < |h.alloc| then h.alloc[c + 1] else Null
    ensures Good(h) ==> h.inUse == if h.alloc == [] then Null else h.alloc[0]
  {
  }

  /** Taking a node changes no region of the list. */
  lemma LimboListing(h: Heap, after: Heap, n: Addr)
    ensures Limbo(after, n) && after.alloc == h.alloc && after.region == h.region[n := BLANK] ==>
              Listing(after) == Listing(h)
  {
  }

  lemma IdleAt(h: Heap, c: nat)
    ensures Good(h) ==> h.unused == At(h.idle, 0)
    ensures Good(h) && c < |h.idle| ==> Linked(h.region, h.idle, c)
  {
  }

  /** The storage blocks' counters add up to the nodes of both lists. */
  lemma NodesBalance(h: Heap)
    ensures Good(h) ==> Total(h.block, h.chain) == |h.alloc| + |h.idle| && |Listing(h)| == |h.alloc|
  {
    if Good(h) { ElemsCount(h.alloc); }
  }

  /** Blocks that are all used up have handed out 100 nodes each. */
  lemma {:induction false} FullTotal(block: map<nat, Storage>, s: seq<nat>)
    requires forall i :: 0 <= i < |s| ==> s[i] in block && block[s[i]].entries == 100
    ensures Total(block, s) == 100 * |s|
  {
    if s != [] { FullTotal(block, s[1..]); }
  }

  /** When no block has room and the free list is empty, every node of every block is in the region list. */
  lemma AllInUse(h: Heap)
    requires forall p :: p in h.block ==> h.block[p].entries >= 100
    ensures Good(h) && h.idle == [] ==> |h.alloc| == 100 * |h.block|
  {
    NodesBalance(h);
    if Good(h) && h.idle == [] {
      forall i | 0 <= i < |h.chain| ensures h.chain[i] in h.block && h.block[h.chain[i]].entries == 100 {
        BlocksLinked(h, i);
      }
      FullTotal(h.block, h.chain);
      ElemsCount(h.chain);
      BlocksLinked(h, 0);
      assert Elems(h.chain) == h.block.Keys;
    }
    hide Good, Total;
  }
}
