/** The virtual address-space allocator (src/memory/vaddress.c): the region list edited in place through its `next`
    pointers, with its nodes taken from a free list or from page-sized storage blocks. */
module Vaddress {
  import opened Regions
  import opened Nodes
  import Pmm

  /** `struct vaddress_space`, with the memory its nodes and storage blocks lie in. */
  class AddressSpace {
    const pmm: Pmm.Allocator
    const page: nat
    const spaceBegin: nat
    const spaceEnd: nat
    var storage: nat
    var inUse: Addr // the field `allocated`
    var unused: Addr
    var region: map<Addr, Region>
    var block: map<nat, Storage>
    ghost var alloc: seq<Addr>
    ghost var idle: seq<Addr>
    ghost var chain: seq<nat>

    ghost function View(): Heap
      reads this
    {
      Heap(region, block, storage, inUse, unused, alloc, idle, chain)
    }

    /** The regions, in list order. */
    ghost function List(): seq<Span>
      reads this
    {
      Listing(View())
    }

    /** The pages the space holds: its own and those of its storage blocks. */
    ghost function Pages(): set<nat>
      reads this`block
    {
      block.Keys + {page}
    }

    /** The pages held are managed by the page allocator, and not free there. */
    ghost predicate Paged()
      reads this`block, pmm, pmm.Repr
      ensures Paged() ==> pmm.Valid() && this !in pmm.Repr
    {
      && pmm.Valid() && this !in pmm.Repr
      && page !in block && Pages() <= pmm.managed && Pages() !! pmm.free
      && spaceBegin <= spaceEnd < 0x1_0000_0000_0000_0000
    }

    lemma SpaceBounds()
      ensures Paged() ==> spaceBegin <= spaceEnd
    {
    }

    ghost predicate Valid()
      reads this, pmm, pmm.Repr
      ensures Valid() ==> Paged() && Good(View())
    {
      Paged() && Good(View())
    }

    /** The regions are in address order, do not overlap and lie in the space. */
    ghost predicate Ordered()
      reads this
    {
      Sorted(List()) && Within(List(), spaceBegin, spaceEnd)
    }

    /** A block has room for one more node. */
    ghost predicate Spare()
      reads this`block
    {
      exists p :: p in block && block[p].entries < 100
    }

    /** A node can be had without running out of pages. */
    ghost predicate CanTake()
      reads this`block, this`idle, pmm
    {
      idle != [] || Spare() || pmm.free != {}
    }

    /** With more pages at hand than the listed regions can fill, a node can always be had. */
    lemma PagesGiveNodes()
      ensures Valid() && |pmm.free + Pages()| > 1 + |List()| / 100 ==> CanTake()
    {
      if Valid() && !CanTake() {
        AllInUse(View());
        ListAt(View(), 0);
        PagesHeld();
      }
      hide *;
    }

    lemma PagesHeld()
      ensures Paged() && pmm.free == {} ==> |pmm.free + Pages()| == 1 + |block|
    {
      if Paged() && pmm.free == {} {
        assert pmm.free + Pages() == block.Keys + {page};
      }
    }

    /** `vaddress_space_new` (lines 51-64): an empty list, and a page for the space itself. */
    constructor (pmm: Pmm.Allocator, begin: nat, end: nat)
      requires pmm.Valid() && pmm.free != {} && begin <= end < 0x1_0000_0000_0000_0000
      modifies pmm.Repr
      ensures Valid() && Ordered() && this.pmm == pmm && spaceBegin == begin && spaceEnd == end && List() == []
      ensures block == map[] && idle == []
      ensures pmm.managed == old(pmm.managed) && pmm.free + Pages() == old(pmm.free) && pmm.Repr == old(pmm.Repr)
    {
      var physical := pmm.AllocatePage();
      this.pmm, page, spaceBegin, spaceEnd := pmm, physical / 4096, begin, end;
      storage, inUse, unused, region, block := 0, Null, Null, map[], map[];
      alloc, idle, chain := [], [], [];
    }

    /** `find_free_node` (lines 66-97): a blank node from the free list, else from a block with room, else from a
        new block. A page is taken only in the last case. */
    method FindFreeNode() returns (node: Addr)
      requires Valid() && CanTake()
      modifies this`region, this`block, this`storage, this`unused, this`idle, this`chain, pmm.Repr
      ensures Paged() && Limbo(View(), node) && region == old(region)[node := BLANK]
      ensures node in region && region[node] == Region(Null, 0, 0)
      ensures pmm.managed == old(pmm.managed) && pmm.free + Pages() == old(pmm.free + Pages())
                && pmm.Repr == old(pmm.Repr)
      ensures old(idle != [] || Spare()) ==> pmm.free == old(pmm.free)
      ensures old(idle) != [] ==> node == old(idle)[0] && idle == old(idle)[1..] && block == old(block)
      ensures old(idle) == [] && old(Spare()) ==>
                exists i :: 0 <= i < |chain| && chain == old(chain) && chain[i] in old(block)
                  && (forall k :: 0 <= k < i ==> chain[k] in old(block) && old(block)[chain[k]].entries >= 100)
                  && old(block)[chain[i]].entries < 100 && node == Node(chain[i], old(block)[chain[i]].entries)
      ensures old(idle) == [] && !old(Spare()) ==>
                && node.Node? && node.page in old(pmm.free) && node.slot == 0 && chain == [node.page] + old(chain)
                && block == old(block)[node.page := Storage(old(storage), 1)]
    {
      hide Pmm.Allocator.Valid, Good, Limbo, Listing, Paged;
      ghost var h := View();
      LimboPop(h);
      IdleAt(h, 0);
      if unused != Null {
        node := unused;
        unused := region[node].next;
        idle := idle[1..];
        region := region[node := BLANK];
        return;
      }
      var blk := storage;
      ghost var i := 0;
      BlocksLinked(h, 0);
      while blk != 0
        invariant 0 <= i <= |chain| && blk == BlockAt(chain, i)
        invariant forall k :: 0 <= k < i ==> chain[k] in block && block[chain[k]].entries >= 100
        modifies {}
        decreases |chain| - i
      {
        BlocksLinked(h, i);
        if block[blk].entries < 100 {
          break;
        }
        blk := block[blk].next;
        i := i + 1;
      }
      BlocksLinked(h, i);
      if blk != 0 {
        assert chain[i] == blk;
        node := TakeEntry(blk);
        return;
      }
      assert !Spare();
      node := NewBlock();
    }

    /** The next entry of a block with room (lines 79-84). */
    method TakeEntry(blk: nat) returns (node: Addr)
      requires Valid() && blk in block && block[blk].entries < 100
      modifies this`region, this`block
      ensures Paged() && Limbo(View(), node) && region == old(region)[node := BLANK] && block.Keys == old(block.Keys)
      ensures node == Node(blk, old(block)[blk].entries)
      ensures block == old(block)[blk := old(block)[blk].(entries := old(block)[blk].entries + 1)]
    {
      hide Pmm.Allocator.Valid, Good, Limbo, Listing;
      LimboTake(View(), blk);
      node := Node(blk, block[blk].entries);
      block := block[blk := block[blk].(entries := block[blk].entries + 1)];
      region := region[node := BLANK];
    }

    /** A new page becomes the first block, and its first entry the node (lines 87-94). */
    method NewBlock() returns (node: Addr)
      requires Valid() && pmm.free != {}
      modifies this`region, this`block, this`storage, this`chain, pmm.Repr
      ensures Paged() && Limbo(View(), node) && region == old(region)[node := BLANK]
      ensures pmm.managed == old(pmm.managed) && pmm.free + Pages() == old(pmm.free + Pages())
                && pmm.Repr == old(pmm.Repr)
      ensures node.Node? && node.page in old(pmm.free) && node.slot == 0 && chain == [node.page] + old(chain)
      ensures storage == node.page && block == old(block)[node.page := Storage(old(storage), 1)]
    {
      hide Pmm.Allocator.Valid, Good, Limbo, Listing;
      var physical := pmm.AllocatePage();
      var blk := physical / 4096;
      LimboNew(View(), blk);
      block := block[blk := Storage(storage, 1)];
      storage := blk;
      chain := [blk] + chain;
      node := Node(blk, 0);
      region := region[node := BLANK];
    }

    /** `vaddress_allocate` (lines 99-134); 0 stands for NULL. */
    method Allocate(size: nat) returns (address: nat)
      requires Valid() && Ordered()
      requires GapEnd(List(), spaceEnd) - spaceBegin >= size ==> CanTake()
      modifies this`region, this`block, this`storage, this`unused, this`idle, this`chain, this`inUse, this`alloc,
        pmm.Repr
      ensures Valid() && Ordered()
      ensures var (found, after) := Allocated(old(List()), spaceBegin, spaceEnd, size);
        List() == after && address == Pointer(found)
      ensures Tight(old(List())) && size > 0 && address != 0 ==>
                HandsOut(old(List()), List(), spaceBegin, spaceEnd, size, address)
      ensures Tight(old(List())) && size > 0 ==>
                ((address == 0 <==> forall x: nat :: !Fits(old(List()), spaceBegin, spaceEnd, size, x)) <==>
                 !(spaceBegin == 0 && GapEnd(old(List()), spaceEnd) >= size))
      ensures pmm.managed == old(pmm.managed) && pmm.free + Pages() == old(pmm.free + Pages())
                && pmm.Repr == old(pmm.Repr)
    {
      hide Pmm.Allocator.Valid, Good, Limbo, Listing, Extended, Sorted, Within, Tight, Fits, HandsOut, Replace,
        Pages, Paged, CanTake, Spare;
      ghost var h, rs, hi := View(), List(), spaceEnd;
      NullWhen(rs, spaceBegin, hi, size);
      GivenWhen(rs, spaceBegin, hi, size);
      SpaceBounds();
      AllocatedSorted(rs, spaceBegin, hi, size);
      ListAt(h, 0);
      var freeBegin := spaceBegin;
      var freeEnd := if inUse != Null then region[inUse].begin else spaceEnd;
      var space := freeEnd - freeBegin;
      if space >= size {
        PushHead(freeBegin, size);
        return freeBegin;
      }
      var node := inUse;
      ghost var c := 0;
      while node != Null
        invariant 0 <= c <= |alloc| && node == At(alloc, c)
        invariant forall i :: 0 <= i < c ==> Gap(rs, hi, i) < size
        modifies {}
        decreases |alloc| - c
      {
        ListAt(h, c);
        ListAt(h, c + 1);
        var next := region[node].next;
        freeBegin := region[node].end;
        freeEnd := if next != Null then region[next].begin else spaceEnd;
        space := freeEnd - freeBegin;
        if space >= size {
          break;
        }
        node := next;
        c := c + 1;
      }
      ListAt(h, c);
      ExtendedAt(rs, hi, size, c);
      if node == Null {
        return 0;
      }
      ReplaceOne(rs, c, Span(rs[c].begin, rs[c].end + size));
      Edit(node, c, Span(region[node].begin, region[node].end + size));
      return freeBegin;
    }

    /** A whole run of calls on an empty space: the list and the pointers returned are those of the run, whatever nodes
        and blocks it goes through, and the pages are enough when a region for every call would fit them. */
    method Serve(qs: seq<Request>, line: Line164) returns (pointers: seq<nat>)
      requires Valid() && List() == [] && |pmm.free + Pages()| > 1 + |qs| / 100
      requires forall i :: 0 <= i < |qs| && qs[i].Free? ==> qs[i].address + qs[i].size < 0x1_0000_0000_0000_0000
      modifies this`region, this`block, this`storage, this`unused, this`idle, this`chain, this`inUse, this`alloc,
        pmm.Repr
      ensures Valid() && Ordered() && List() == ServedAll(spaceBegin, spaceEnd, qs, line)
      ensures |pointers| == |qs|
      ensures forall i :: 0 <= i < |qs| && qs[i].Allocate? ==>
                pointers[i] == Pointer(Block(spaceBegin, spaceEnd, qs, line, i))
      ensures forall i {:trigger pointers[i]} ::
                && 0 <= i < |qs| && qs[i].Allocate? && qs[i].size > 0 && pointers[i] != 0
                && Tight(ServedAll(spaceBegin, spaceEnd, qs[..i], line))
                ==> HandsOut(ServedAll(spaceBegin, spaceEnd, qs[..i], line),
                             ServedAll(spaceBegin, spaceEnd, qs[..i + 1], line),
                             spaceBegin, spaceEnd, qs[i].size, pointers[i])
      ensures pmm.managed == old(pmm.managed) && pmm.free + Pages() == old(pmm.free + Pages())
      ensures pmm.Repr == old(pmm.Repr)
    {
      hide Pmm.Allocator.Valid, Good, Paged, Pages, Listing, CanTake, ServedAll, Sorted, Within, Tight, HandsOut, Freed,
        Allocated;
      ghost var pages := pmm.free + Pages();
      SpaceBounds();
      NoneServed(spaceBegin, spaceEnd, line);
      assert qs[..0] == [];
      pointers := [];
      for i := 0 to |qs|
        invariant Valid() && Ordered() && List() == ServedAll(spaceBegin, spaceEnd, qs[..i], line)
        invariant |pointers| == i
        invariant forall k :: 0 <= k < i && qs[k].Allocate? ==>
                    pointers[k] == Pointer(Block(spaceBegin, spaceEnd, qs, line, k))
        invariant forall k {:trigger pointers[k]} ::
                    && 0 <= k < i && qs[k].Allocate? && qs[k].size > 0 && pointers[k] != 0
                    && Tight(ServedAll(spaceBegin, spaceEnd, qs[..k], line))
                    ==> HandsOut(ServedAll(spaceBegin, spaceEnd, qs[..k], line),
                                 ServedAll(spaceBegin, spaceEnd, qs[..k + 1], line),
                                 spaceBegin, spaceEnd, qs[k].size, pointers[k])
        invariant pmm.managed == old(pmm.managed) && pmm.free + Pages() == pages && pmm.Repr == old(pmm.Repr)
      {
        SpaceBounds();
        RunLength(spaceBegin, spaceEnd, qs[..i], line);
        PagesGiveNodes();
        NextServed(spaceBegin, spaceEnd, qs, line, i);
        match qs[i]
        case Allocate(size) =>
          var pointer := Allocate(size);
          pointers := pointers + [pointer];
        case Free(address, size) =>
          Free(address, size, line);
          pointers := pointers + [0];
      }
      assert qs[..|qs|] == qs;
    }

    /** A region of its own in front of the list (lines 108-116). */
    method PushHead(begin: nat, size: nat)
      requires Valid() && CanTake()
      modifies this`region, this`block, this`storage, this`unused, this`idle, this`chain, this`inUse, this`alloc,
        pmm.Repr
      ensures Valid() && List() == [Span(begin, begin + size)] + old(List())
      ensures pmm.managed == old(pmm.managed) && pmm.free + Pages() == old(pmm.free + Pages())
                && pmm.Repr == old(pmm.Repr)
    {
      hide Pmm.Allocator.Valid, Good, Limbo, Listing, Paged, Pages, CanTake, Spare;
      ghost var h := View();
      var node := FindFreeNode();
      LimboListing(h, View(), node);
      GoodPush(View(), node, Region(inUse, begin, begin + size));
      region := region[node := Region(inUse, begin, begin + size)];
      inUse := node;
      alloc := [node] + alloc;
    }

    /** Node c of the list gets a new begin and end. */
    method Edit(node: Addr, ghost c: nat, span: Span)
      requires Valid() && c < |alloc| && node == alloc[c]
      modifies this`region
      ensures Valid() && List() == Replace(old(List()), c, [span])
    {
      hide Pmm.Allocator.Valid, Good, Listing, Paged, Pages;
      GoodEdit(View(), c, BLANK);
      GoodEdit(View(), c, Region(region[node].next, span.begin, span.end));
      region := region[node := Region(region[node].next, span.begin, span.end)];
    }

    /** Node c moves to the free list (lines 155-160); `prev` is the node before it, Null for the list head. */
    method Unlink(node: Addr, prev: Addr, ghost c: nat)
      requires Valid() && c < |alloc| && node == alloc[c] && prev == if c == 0 then Null else alloc[c - 1]
      modifies this`region, this`unused, this`idle, this`inUse, this`alloc
      ensures Valid() && alloc == old(alloc[..c] + alloc[c + 1..]) && CanTake()
      ensures List() == Replace(old(List()), c, [])
    {
      hide Pmm.Allocator.Valid, Good, Listing, Paged, Pages;
      GoodDrop(View(), c);
      var next := region[node].next;
      if prev == Null {
        inUse := next;
      } else {
        region := region[prev := region[prev].(next := next)];
      }
      region := region[node := region[node].(next := unused)];
      unused := node;
      alloc := alloc[..c] + alloc[c + 1..];
      idle := [node] + idle;
    }

    /** Node c is split around [a, e) (lines 174-184). */
    method Split(node: Addr, ghost c: nat, a: nat, e: nat) returns (second: Addr)
      requires Valid() && c < |alloc| && node == alloc[c] && CanTake()
      modifies this`region, this`block, this`storage, this`unused, this`idle, this`chain, this`alloc, pmm.Repr
      ensures Valid() && alloc == old(alloc[..c + 1]) + [second] + old(alloc[c + 1..])
      ensures List() == Replace(old(List()), c, [Span(old(List())[c].begin, a), Span(e, old(List())[c].end)])
      ensures pmm.managed == old(pmm.managed) && pmm.free + Pages() == old(pmm.free + Pages())
                && pmm.Repr == old(pmm.Repr)
    {
      hide Pmm.Allocator.Valid, Good, Limbo, Listing, Paged, Pages, CanTake, Spare;
      ghost var h := View();
      second := FindFreeNode();
      LimboListing(h, View(), second);
      GoodSplit(View(), c, second, a, e);
      region := region[second := Region(region[node].next, e, region[node].end)];
      region := region[node := region[node].(end := a, next := second)];
      alloc := alloc[..c + 1] + [second] + alloc[c + 1..];
    }
  
    /** What `vaddress_free` does to a region that starts no later than e (lines 151-184); the cursor moves on. */
    method CutRegion(node: Addr, prev: Addr, ghost c: nat, a: nat, e: nat, line: Line164)
        returns (cursor: Addr, ghost next: nat)
      requires Valid() && c < |alloc| && node == alloc[c] && prev == if c == 0 then Null else alloc[c - 1]
      requires c < |List()| && List()[c].begin <= e && (List()[c].begin < a && e < List()[c].end ==> CanTake())
      modifies this`region, this`block, this`storage, this`unused, this`idle, this`chain, this`inUse, this`alloc,
        pmm.Repr
      ensures Valid() && List() == Replace(old(List()), c, Cut(old(List())[c], a, e, line))
      ensures next == c + |Cut(old(List())[c], a, e, line)| <= |alloc|
      ensures cursor == if next == 0 then Null else alloc[next - 1]
      ensures |alloc| - next < |old(alloc)| - c && At(alloc, next) == At(old(alloc), c + 1)
      ensures old(CanTake()) && next < c + 2 ==> CanTake()
      ensures pmm.managed == old(pmm.managed) && pmm.free + Pages() == old(pmm.free + Pages())
                && pmm.Repr == old(pmm.Repr)
    {
      hide Pmm.Allocator.Valid, Good, Limbo, Listing, Replace, Pages, Paged, CanTake, Spare;
      ListAt(View(), c);
      ReplaceSame(List(), c);
      var r := region[node];
      cursor, next := node, c + 1;
      if r.end < a {
      } else if a <= r.begin && r.end <= e {
        Unlink(node, prev, c);
        cursor, next := prev, c;
      } else if a <= r.begin {
        Edit(node, c, if line.AsWritten? then Span(r.begin, e) else Span(e, r.end));
      } else if r.end <= e {
        Edit(node, c, Span(r.begin, a));
      } else {
        cursor := Split(node, c, a, e);
        next := c + 2;
      }
    }

    /** `vaddress_free` (lines 136-188), under either reading of line 164. A page can only be needed for a split. */
    method Free(address: nat, size: nat, line: Line164)
      requires Valid() && Ordered() && address + size < 0x1_0000_0000_0000_0000
      requires Splits(List(), address, address + size) ==> CanTake()
      modifies this`region, this`block, this`storage, this`unused, this`idle, this`chain, this`inUse, this`alloc,
        pmm.Repr
      ensures Valid() && Ordered() && List() == Freed(old(List()), address, address + size, line)
      ensures pmm.managed == old(pmm.managed) && pmm.free + Pages() == old(pmm.free + Pages())
                && pmm.Repr == old(pmm.Repr)
    {
      hide Pmm.Allocator.Valid, Good, Limbo, Listing, Freed, Sorted, Within, Splits, Reached, SplitsFrom, Replace,
        Pages, Paged, CanTake, Spare;
      ghost var a, e, goal := address, address + size, Freed(List(), address, address + size, line);
      ReachedStart(List(), a, e, line);
      FreedSorted(List(), a, e, line, spaceBegin, spaceEnd);
      ListAt(View(), 0);
      var prev, node, addressEnd := Null, inUse, address + size;
      ghost var c := 0;
      while node != Null
        invariant Valid() && 0 <= c <= |alloc| && node == At(alloc, c)
                    && prev == (if c == 0 then Null else alloc[c - 1])
        invariant Reached(List(), c, goal, a, e, line) && (SplitsFrom(List(), c, a, e) ==> CanTake())
        invariant pmm.managed == old(pmm.managed) && pmm.free + Pages() == old(pmm.free + Pages())
                    && pmm.Repr == old(pmm.Repr)
        decreases |alloc| - c
      {
        ListAt(View(), c);
        var r := region[node];
        var next := r.next;
        if addressEnd < r.begin {
          break;
        }
        ReachedNext(List(), c, goal, a, e, line);
        prev, c := CutRegion(node, prev, c, address, addressEnd, line);
        node := next;
      }
      ListAt(View(), c);
      ReachedEnd(List(), c, goal, a, e, line);
    }
  
    /** The count `vaddress_print` makes (lines 204-222): "Region lost from vaddr!" cannot happen. */
    method CountNodes() returns (regions: nat, used: nat, spare: nat)
      requires Valid()
      ensures regions == used + spare && used == |List()| && spare == |idle|
    {
      hide Pmm.Allocator.Valid, Good, Listing, Paged;
      ghost var h := View();
      NodesBalance(h);
      regions, used, spare := 0, 0, 0;
      var blk := storage;
      ghost var i := 0;
      BlocksLinked(h, 0);
      while blk != 0
        invariant 0 <= i <= |chain| && blk == BlockAt(chain, i)
                    && regions + Total(block, chain[i..]) == Total(block, chain)
        decreases |chain| - i
      {
        BlocksLinked(h, i);
        regions := regions + block[blk].entries;
        blk := block[blk].next;
        i := i + 1;
      }
      BlocksLinked(h, i);
      var node := unused;
      IdleAt(h, 0);
      while node != Null
        invariant 0 <= spare <= |idle| && node == At(idle, spare)
        decreases |idle| - spare
      {
        IdleAt(h, spare);
        spare := spare + 1;
        node := region[node].next;
      }
      IdleAt(h, spare);
      node := inUse;
      ListAt(h, 0);
      while node != Null
        invariant 0 <= used <= |alloc| && node == At(alloc, used)
        decreases |alloc| - used
      {
        ListAt(h, used);
        used := used + 1;
        node := region[node].next;
      }
      ListAt(h, used);
    }
  }

  /** A new space put to any use (src/kernel.c, lines 308-332): it returns what the specification returns, whatever
      nodes it goes through, and its pages come from the free ones. */
  method UseSpace(pmm: Pmm.Allocator, begin: nat, end: nat, qs: seq<Request>, line: Line164)
      returns (vaddr: AddressSpace, pointers: seq<nat>)
    requires pmm.Valid() && |pmm.free| > 1 + |qs| / 100 && begin <= end < 0x1_0000_0000_0000_0000
    requires forall i :: 0 <= i < |qs| && qs[i].Free? ==> qs[i].address + qs[i].size < 0x1_0000_0000_0000_0000
    modifies pmm.Repr
    ensures vaddr.Valid() && vaddr.List() == ServedAll(begin, end, qs, line) && pmm.Repr == old(pmm.Repr)
    ensures |pointers| == |qs|
    ensures forall i :: 0 <= i < |qs| && qs[i].Allocate? ==> pointers[i] == Pointer(Block(begin, end, qs, line, i))
    ensures forall i {:trigger pointers[i]} ::
              && 0 <= i < |qs| && qs[i].Allocate? && qs[i].size > 0 && pointers[i] != 0
              && Tight(ServedAll(begin, end, qs[..i], line))
              ==> HandsOut(ServedAll(begin, end, qs[..i], line), ServedAll(begin, end, qs[..i + 1], line),
                           begin, end, qs[i].size, pointers[i])
    ensures pmm.managed == old(pmm.managed) && pmm.free + vaddr.Pages() == old(pmm.free)
  {
    hide *;
    vaddr := new AddressSpace(pmm, begin, end);
    pointers := vaddr.Serve(qs, line);
  }

  lemma GivenWhen(rs: seq<Span>, lo: nat, hi: nat, size: nat)
    ensures Sorted(rs) && Tight(rs) && Within(rs, lo, hi) && lo <= hi && size > 0 ==>
              var (found, after) := Allocated(rs, lo, hi, size);
              Pointer(found) != 0 ==> HandsOut(rs, after, lo, hi, size, Pointer(found))
  {
    hide Sorted, Tight, Within, HandsOut, Allocated, Pointer;
    if Sorted(rs) && Tight(rs) && Within(rs, lo, hi) && lo <= hi && size > 0 { PointerMeans(rs, lo, hi, size); }
  }

  lemma NullWhen(rs: seq<Span>, lo: nat, hi: nat, size: nat)
    ensures Sorted(rs) && Tight(rs) && Within(rs, lo, hi) && lo <= hi && size > 0 ==>
              (NullMeansNone(rs, lo, hi, size) <==> !(lo == 0 && GapEnd(rs, hi) >= size))
  {
    hide Sorted, Tight, Within, NullMeansNone;
    if Sorted(rs) && Tight(rs) && Within(rs, lo, hi) && lo <= hi && size > 0 { NullExact(rs, lo, hi, size); }
  }
}
