/** The physical page allocator (src/memory/pmm.c): a set of free pages kept in per-block bitmaps. */
module Pmm {
  import opened Sequences
  import opened Words

  // The size constants of the source are written out where they enter arithmetic: PAGE_SIZE is 4096 bytes, a
  // block spans at most MAX_BLOCK_SIZE_PAGES = 32768 pages (0x800_0000 bytes) and at least MIN_BLOCK_SIZE_PAGES
  // = 64 pages (0x4_0000 bytes).
  const PMM_ENTRIES := 168
  const PMM_CTRL_ENTRIES := 512

  // ------------------------------------------------------------------ bitmaps

  /** A control block holds 512 words; page j of the block is free when bit j % 64 of word j / 64 is set. */
  ghost predicate BitmapBit(ws: seq<u64>, j: nat)
    requires |ws| == PMM_CTRL_ENTRIES && j < 32768
  {
    Bit(ws[j / 64], j % 64)
  }

  ghost function SetBits(ws: seq<u64>): set<nat>
    requires |ws| == PMM_CTRL_ENTRIES
  {
    set j: nat | 0 <= j < 32768 && BitmapBit(ws, j)
  }

  lemma BitmapMeans(ws: seq<u64>, j: nat)
    requires |ws| == PMM_CTRL_ENTRIES
    ensures j in SetBits(ws) <==> j < 32768 && ws[j / 64] / Pow2(j % 64) % 2 == 1
  {
    if j < 32768 { BitIs(ws[j / 64], j % 64); }
  }

  /** Count trailing zeros, `__builtin_ctzl`. */
  function Ctz(w: nat): (c: nat)
    requires w > 0
    ensures Bit(w, c)
    ensures forall k: nat :: k < c ==> !Bit(w, k)
    ensures Pow2(c) <= w
  {
    if w % 2 == 1 then 0 else 1 + Ctz(w / 2)
  }

  lemma CtzBelow64(w: u64)
    requires w > 0
    ensures Ctz(w) < 64
  {
    PowerValues();
    if Ctz(w) > 64 { PowMonotone(64, Ctz(w)); }
  }

  lemma ShiftedOne(b: nat, c: nat)
    requires b < 64 && c < 64
    ensures Shl64(1, b) == Pow2(b)
    ensures Bit(Shl64(1, b), c) == (b == c)
    ensures Bit(Not64(Shl64(1, b)), c) == (b != c)
  {
    PowerValues();
    PowMonotone(b, 64);
    BitOfPow2(b, c);
    BitOfComplement(64, Pow2(b), c);
  }

  /** `w & ~(1ULL << b)` and `w | (1ULL << b)`. */
  function ClearBit(w: u64, b: nat): (r: u64)
    requires b < 64
    ensures forall c: nat :: c < 64 ==> Bit(r, c) == (c != b && Bit(w, c))
  {
    AndBound(w, Not64(Shl64(1, b)));
    assert forall c: nat :: c < 64 ==> Bit(BitAnd(w, Not64(Shl64(1, b))), c) == (c != b && Bit(w, c)) by {
      forall c: nat | c < 64 ensures Bit(BitAnd(w, Not64(Shl64(1, b))), c) == (c != b && Bit(w, c)) {
        ShiftedOne(b, c);
        BitOfAnd(w, Not64(Shl64(1, b)), c);
      }
    }
    BitAnd(w, Not64(Shl64(1, b)))
  }

  function SetBit(w: u64, b: nat): (r: u64)
    requires b < 64
    ensures forall c: nat :: c < 64 ==> Bit(r, c) == (c == b || Bit(w, c))
  {
    PowerValues();
    OrBound(64, w, Shl64(1, b));
    assert forall c: nat :: c < 64 ==> Bit(BitOr(w, Shl64(1, b)), c) == (c == b || Bit(w, c)) by {
      forall c: nat | c < 64 ensures Bit(BitOr(w, Shl64(1, b)), c) == (c == b || Bit(w, c)) {
        ShiftedOne(b, c);
        BitOfOr(w, Shl64(1, b), c);
      }
    }
    BitOr(w, Shl64(1, b))
  }

  /** `w & (1ULL << b)` used as a condition. */
  predicate TestBit(w: u64, b: nat)
    requires b < 64
  {
    BitAnd(w, Shl64(1, b)) != 0
  }

  lemma UpdateWord(ws: seq<u64>, i: nat, w: u64, b: nat, on: bool)
    requires |ws| == PMM_CTRL_ENTRIES && i < PMM_CTRL_ENTRIES && b < 64
    requires forall c: nat :: c < 64 ==> Bit(w, c) == (if c == b then on else Bit(ws[i], c))
    ensures SetBits(ws[i := w]) == if on then SetBits(ws) + {64 * i + b} else SetBits(ws) - {64 * i + b}
  {
  }

  lemma WordOfBit(i: nat, bit: nat, j: nat)
    requires bit < 64
    ensures 64 * i <= j < 64 * i + bit ==> j / 64 == i && j % 64 < bit
  {
  }

  /** The first bit of the first word with one is the lowest. */
  lemma LowestBit(ws: seq<u64>, i: nat, bit: nat)
    requires |ws| == PMM_CTRL_ENTRIES && i < PMM_CTRL_ENTRIES && bit < 64 && Bit(ws[i], bit)
    requires forall c: nat :: c < bit ==> !Bit(ws[i], c)
    requires forall j :: j in SetBits(ws) ==> 64 * i <= j
    ensures 64 * i + bit in SetBits(ws) && forall j :: j in SetBits(ws) ==> 64 * i + bit <= j
  {
    assert BitmapBit(ws, 64 * i + bit);
    forall j | j in SetBits(ws) ensures 64 * i + bit <= j {
      WordOfBit(i, bit, j);
      assert BitmapBit(ws, j);
    }
  }

  /** Finds and clears the lowest set bit (lines 148-161); the panic at its end cannot be reached. */
  method CtrlAlloc(blk: array<u64>) returns (idx: u16)
    requires blk.Length == PMM_CTRL_ENTRIES
    requires SetBits(blk[..]) != {}
    modifies blk
    ensures idx in SetBits(old(blk[..])) && forall j :: j in SetBits(old(blk[..])) ==> idx <= j
    ensures SetBits(blk[..]) == SetBits(old(blk[..])) - {idx as nat}
  {
    ghost var was := blk[..];
    for i := 0 to PMM_CTRL_ENTRIES
      invariant blk[..] == was
      invariant forall j :: j in SetBits(was) ==> 64 * i <= j
    {
      if blk[i] == 0 {
        forall j | j in SetBits(was) ensures 64 * (i + 1) <= j {
          if j < 64 * (i + 1) { BitOfZero(j % 64); }
        }
        continue;
      }
      var bit := Ctz(blk[i]);
      CtzBelow64(blk[i]);
      LowestBit(was, i, bit);
      UpdateWord(was, i, ClearBit(blk[i], bit), bit, false);
      blk[i] := ClearBit(blk[i], bit);
      assert blk[..] == was[i := ClearBit(was[i], bit)];
      return 64 * i + bit;
    }
    assert false;
  }

  lemma OnesShifted(e: nat)
    requires 0 < e < 64
    ensures Shr64(WORD - 1, 64 - e) == Pow2(e) - 1
  {
    PowerValues();
    Product(e, 64 - e);
    hide Pow2;
    OnesSplit(Pow2(64 - e), Pow2(e));
  }

  lemma OnesSplit(p: nat, q: nat)
    requires q * p == WORD && q > 0 && p > 0
    ensures (WORD - 1) / p == q - 1
  {
    OnesAlgebra(p, q);
    QuotientIs(WORD - 1, p, q - 1, p - 1);
  }

  lemma OnesAlgebra(p: nat, q: nat)
    ensures q * p - 1 == (q - 1) * p + (p - 1)
  {
  }

  /** Marks exactly the first `pages` pages free (lines 76-90). */
  method CtrlInitialise(ctrl: array<u64>, pages: u16)
    requires ctrl.Length == PMM_CTRL_ENTRIES && pages < 32768
    modifies ctrl
    ensures SetBits(ctrl[..]) == Frames(0, pages)
  {
    for i := 0 to ctrl.Length
      invariant forall k :: 0 <= k < i ==> ctrl[k] == 0
    {
      ctrl[i] := 0;
    }
    var fullEntries := pages / 64;
    var extraBits := pages % 64;
    for i := 0 to fullEntries
      invariant forall k :: 0 <= k < i ==> ctrl[k] == WORD - 1
      invariant forall k :: i <= k < ctrl.Length ==> ctrl[k] == 0
    {
      ctrl[i] := WORD - 1;
    }
    if extraBits != 0 {
      ctrl[fullEntries] := Shr64(WORD - 1, 64 - extraBits);
    }
    forall j: nat | j < 32768 ensures BitmapBit(ctrl[..], j) == (j < pages) {
      FirstBits(ctrl[j / 64], pages, j);
    }
  }

  /** A word of the initialised bitmap: all ones, the low `pages` % 64 bits, or zero. */
  lemma FirstBits(w: u64, pages: nat, j: nat)
    requires w == if j / 64 < pages / 64 then WORD - 1
                  else if j / 64 == pages / 64 && pages % 64 != 0 then Shr64(WORD - 1, 64 - pages % 64) else 0
    ensures Bit(w, j % 64) == (j < pages)
  {
    BitOfZero(j % 64);
    OnesBit(64, j % 64);
    if pages % 64 != 0 {
      OnesShifted(pages % 64);
      OnesBit(pages % 64, j % 64);
    }
    hide Bit, Pow2;
  }

  lemma OnesBit(n: nat, k: nat)
    ensures Bit(Pow2(n) - 1, k) == (k < n)
    ensures Pow2(64) == WORD
  {
    PowerValues();
    BitOfOnes(n, k);
  }

  // ------------------------------------------------------------------ blocks

  /** A slot of `struct pmm`. */
  datatype CtrlPtr = CtrlPtr(physicalStart: u64, ctrl: array?<u64>, maxPages: u16, freePages: u16, active: bool)

  const EMPTY_SLOT := CtrlPtr(0, null, 0, 0, false)

  /** What a slot means. Pages are named by their frame number, physical address / 4096: the block owns the
      frames base .. base + max - 1, of which `own` are free, and keeps its control page just before them. */
  datatype Block = Block(active: bool, base: nat, max: nat, own: set<nat>)
  {
    ghost predicate Owns(frame: nat) {
      active && base <= frame < base + max
    }

    /** The block, control page included, has no frame in [lo, hi). */
    ghost predicate Clear(lo: int, hi: int) {
      active ==> hi <= base - 1 || base + max <= lo
    }
  }

  const NO_BLOCK := Block(false, 0, 0, {})

  ghost predicate Apart(b: Block, o: Block) {
    o.active ==> b.Clear(o.base - 1, o.base + o.max)
  }

  /** No two blocks share a page. */
  ghost predicate Layout(bs: seq<Block>) {
    forall i, k {:trigger Apart(bs[i], bs[k])} :: 0 <= i < |bs| && 0 <= k < |bs| && i != k ==> Apart(bs[i], bs[k])
  }

  ghost predicate Owned(bs: seq<Block>, f: nat) {
    exists i :: 0 <= i < |bs| && bs[i].Owns(f)
  }

  ghost predicate Agrees(b: Block, free: set<nat>, managed: set<nat>, f: nat) {
    && (b.Owns(f) ==> f in managed && (f in free <==> f in b.own))
    && (f in b.own ==> b.Owns(f))
  }

  /** `managed` and `free` are the frames all blocks own and those that are free in their block. */
  ghost predicate Meaning(bs: seq<Block>, free: set<nat>, managed: set<nat>)
  {
    && (forall f :: f in managed ==> Owned(bs, f))
    && (forall i, f {:trigger Agrees(bs[i], free, managed, f)} :: 0 <= i < |bs| ==> Agrees(bs[i], free, managed, f))
    && free <= managed
  }

  /** Updating slot i keeps every frame owned when the slot loses none of its own. */
  lemma OwnerKept(bs: seq<Block>, i: nat, b: Block, f: nat)
    requires i < |bs| && (Owned(bs, f) || b.Owns(f))
    requires bs[i].Owns(f) ==> b.Owns(f)
    ensures Owned(bs[i := b], f)
  {
    var bs' := bs[i := b];
    if b.Owns(f) {
      assert bs'[i].Owns(f);
    } else {
      var k :| 0 <= k < |bs| && bs[k].Owns(f);
      assert bs'[k].Owns(f);
    }
  }

  /** Replacing one block's free frames replaces them in the whole set, and nothing else. */
  lemma ReplaceOwn(bs: seq<Block>, free: set<nat>, managed: set<nat>, i: nat, own: set<nat>)
    requires Layout(bs) && Meaning(bs, free, managed)
    requires i < |bs| && forall f :: f in own ==> bs[i].Owns(f)
    ensures var bs' := bs[i := bs[i].(own := own)];
      Layout(bs') && Meaning(bs', free - bs[i].own + own, managed)
  {
    var b := bs[i].(own := own);
    var bs', free' := bs[i := b], free - bs[i].own + own;
    forall j, k | 0 <= j < |bs| && 0 <= k < |bs| && j != k ensures Apart(bs'[j], bs'[k]) {
      assert Apart(bs[j], bs[k]);
    }
    forall f | f in managed ensures Owned(bs', f) { OwnerKept(bs, i, b, f); }
    forall k, f | 0 <= k < |bs| ensures Agrees(bs'[k], free', managed, f) {
      assert Agrees(bs[i], free, managed, f) && Agrees(bs[k], free, managed, f);
      assert k != i ==> Apart(bs[i], bs[k]);
    }
    assert forall f :: f in own ==> Agrees(bs[i], free, managed, f);
  }

  /** Taking a free frame of block i, and giving one back. */
  lemma TakeFrame(bs: seq<Block>, free: set<nat>, managed: set<nat>, i: nat, f: nat)
    requires Layout(bs) && Meaning(bs, free, managed)
    requires i < |bs| && f in bs[i].own
    ensures f in free && |bs[i].own - {f}| == |bs[i].own| - 1
    ensures var bs' := bs[i := bs[i].(own := bs[i].own - {f})];
      Layout(bs') && Meaning(bs', free - {f}, managed)
  {
    assert forall g :: g in bs[i].own ==> Agrees(bs[i], free, managed, g);
    ReplaceOwn(bs, free, managed, i, bs[i].own - {f});
    assert free - bs[i].own + (bs[i].own - {f}) == free - {f};
  }

  lemma GiveFrame(bs: seq<Block>, free: set<nat>, managed: set<nat>, i: nat, f: nat)
    requires Layout(bs) && Meaning(bs, free, managed)
    requires i < |bs| && bs[i].Owns(f) && f !in bs[i].own
    ensures f in managed && f !in free && |bs[i].own + {f}| == |bs[i].own| + 1 <= bs[i].max
    ensures var bs' := bs[i := bs[i].(own := bs[i].own + {f})];
      Layout(bs') && Meaning(bs', free + {f}, managed)
  {
    assert forall g :: g in bs[i].own + {f} ==> Agrees(bs[i], free, managed, g);
    SubsetSize(bs[i].own + {f}, Frames(bs[i].base, bs[i].base + bs[i].max));
    ReplaceOwn(bs, free, managed, i, bs[i].own + {f});
    assert free - bs[i].own + (bs[i].own + {f}) == free + {f};
  }

  /** The frames lo, lo + 1, ... up to but not including hi. */
  ghost function Frames(lo: nat, hi: nat): (s: set<nat>)
    ensures forall f :: f in s <==> lo <= f < hi
    ensures |s| == if lo < hi then hi - lo else 0
  {
    Interval(lo, hi)
  }

  ghost function Interval(lo: nat, hi: nat): (s: set<nat>)
    ensures forall f :: f in s <==> lo <= f < hi
    ensures |s| == if lo < hi then hi - lo else 0
  {
    if lo < hi then Interval(lo, hi - 1) + {hi - 1} else {}
  }

  // ------------------------------------------------------------------ adding memory

  /** The frames an n-page range contributes when `slots` block slots are free, in closed form: page k is the
      control page of its 32768-page block when k is a multiple of 32768, the last partial block counts only
      from 64 pages on, and blocks beyond the free slots are dropped. */
  ghost function DataFrames(start: nat, n: nat, slots: nat): set<nat> {
    set f: nat | start <= f < start + n && InData(f, start, n, slots)
  }

  ghost predicate InData(f: nat, start: nat, n: nat, slots: nat)
    requires start <= f
  {
    var k := f - start;
    && k % 32768 != 0
    && k / 32768 < slots
    && (k / 32768 < n / 32768 || n % 32768 >= 64)
  }

  /** One block's worth of the range, then the rest. */
  lemma BlockIsData(start: nat, n: nat, slots: nat)
    requires slots > 0 && 64 <= n
    ensures n <= 32768 ==> DataFrames(start, n, slots) == Frames(start + 1, start + n)
    ensures n > 32768 ==>
              DataFrames(start, n, slots) ==
              Frames(start + 1, start + 32768) + DataFrames(start + 32768, n - 32768, slots - 1)
    ensures n > 32768 ==> Frames(start + 1, start + 32768) !! DataFrames(start + 32768, n - 32768, slots - 1)
  {
    if n > 32768 {
      var rest := DataFrames(start + 32768, n - 32768, slots - 1);
      forall f: nat
        ensures f in DataFrames(start, n, slots) <==> f in Frames(start + 1, start + 32768) + rest
      {
        if start + 32768 <= f { ShiftInData(f, start, n, slots); }
        if start <= f < start + 32768 { FirstBlock(f, start, n, slots); }
      }
    } else {
      forall f: nat
        ensures f in DataFrames(start, n, slots) <==> f in Frames(start + 1, start + n)
      {
        if start <= f < start + n { FirstBlock(f, start, n, slots); }
      }
    }
  }

  lemma BlockThenRest(start: nat, m: nat, r: nat, mid: nat, slots: nat)
    requires slots > 0
    ensures m == 32768 && r > 0 && mid == start + m ==>
              DataFrames(start, m + r, slots) == Frames(start + 1, start + m) + DataFrames(mid, r, slots - 1)
  {
    if m == 32768 && r > 0 { BlockIsData(start, m + r, slots); }
  }

  lemma LastBlock(start: nat, m: nat, r: nat, slots: nat)
    ensures slots > 0 && 64 <= m <= 32768 && r == 0 ==> DataFrames(start, m + r, slots) == Frames(start + 1, start + m)
  {
  }

  lemma FirstBlock(f: nat, start: nat, n: nat, slots: nat)
    requires start <= f < start + 32768 && f < start + n && slots > 0 && n >= 64
    ensures InData(f, start, n, slots) <==> f != start
  {
  }

  lemma ShiftInData(f: nat, start: nat, n: nat, slots: nat)
    requires start + 32768 <= f && n >= 32768 && slots > 0
    ensures InData(f, start, n, slots) <==> InData(f, start + 32768, n - 32768, slots - 1)
  {
  }

  /** The data pages of n pages: 32767 a full block, and one less than a remainder of at least 64. */
  function Yields(n: nat): nat {
    (n / 32768) * 32767 + if n % 32768 >= 64 then n % 32768 - 1 else 0
  }

  /** A slot for each full block, and one for a remainder of at least 64. */
  function SlotsNeeded(n: nat): nat {
    n / 32768 + if n % 32768 >= 64 then 1 else 0
  }

  lemma SlotsStep(n: nat)
    ensures n < 64 ==> SlotsNeeded(n) == 0
    ensures 64 <= n <= 32768 ==> SlotsNeeded(n) == 1
    ensures n > 32768 ==> SlotsNeeded(n) == 1 + SlotsNeeded(n - 32768)
  {
    assert n > 32768 ==> n / 32768 == (n - 32768) / 32768 + 1 && n % 32768 == (n - 32768) % 32768;
  }

  /** The same when only so many slots are left: then each takes a full block. */
  function YieldsWith(n: nat, slots: nat): nat {
    if SlotsNeeded(n) <= slots then Yields(n) else 32767 * slots
  }

  /** With enough slots an n-page range yields 32767 data pages a full block, and one less than the remainder when the
      remainder is large enough to be worth a block; with too few, each slot there is takes a full block. */
  lemma {:induction false} DataFramesCount(start: nat, n: nat, slots: nat)
    ensures |DataFrames(start, n, slots)| == YieldsWith(n, slots)
    decreases n
  {
    hide DataFrames, InData, Frames, Yields, SlotsNeeded;
    YieldsStep(n);
    SlotsStep(n);
    if n < 64 {
      TooSmall(start, n, slots);
    } else if slots == 0 {
      NoSlots(start, n);
    } else {
      BlockIsData(start, n, slots);
      if n > 32768 {
        DataFramesCount(start + 32768, n - 32768, slots - 1);
      }
    }
  }

  lemma YieldsStep(n: nat)
    ensures n < 64 ==> Yields(n) == 0
    ensures 64 <= n <= 32768 ==> Yields(n) == n - 1
    ensures n > 32768 ==> Yields(n) == 32767 + Yields(n - 32768)
  {
    assert n > 32768 ==> n / 32768 == (n - 32768) / 32768 + 1 && n % 32768 == (n - 32768) % 32768;
  }

  /** No block has a frame in [lo, hi). */
  ghost predicate Room(bs: seq<Block>, lo: int, hi: int) {
    forall k {:trigger bs[k].Clear(lo, hi)} :: 0 <= k < |bs| ==> bs[k].Clear(lo, hi)
  }

  lemma RoomPart(bs: seq<Block>, lo: int, hi: int, lo': int, hi': int)
    requires Room(bs, lo, hi) && lo <= lo' && hi' <= hi
    ensures Room(bs, lo', hi')
  {
    forall k | 0 <= k < |bs| ensures bs[k].Clear(lo', hi') { assert bs[k].Clear(lo, hi); }
  }

  lemma AddLayout(bs: seq<Block>, i: nat, b: Block)
    requires Layout(bs) && i < |bs| && Room(bs, b.base - 1, b.base + b.max)
    ensures Layout(bs[i := b])
  {
    var bs' := bs[i := b];
    forall j, k | 0 <= j < |bs| && 0 <= k < |bs| && j != k ensures Apart(bs'[j], bs'[k]) {
      assert Apart(bs[j], bs[k]) && bs[k].Clear(b.base - 1, b.base + b.max) && bs[j].Clear(b.base - 1, b.base + b.max);
    }
  }

  /** Filling slot i with a fresh block whose frames no other block has. */
  lemma AddBlock(bs: seq<Block>, free: set<nat>, managed: set<nat>, i: nat, b: Block)
    requires Layout(bs) && Meaning(bs, free, managed)
    requires i < |bs| && !bs[i].active
    requires b.active && b.own == Frames(b.base, b.base + b.max)
    requires Room(bs, b.base - 1, b.base + b.max)
    ensures Layout(bs[i := b]) && b.own !! managed && Meaning(bs[i := b], free + b.own, managed + b.own)
  {
    var bs' := bs[i := b];
    AddLayout(bs, i, b);
    forall f | f in managed ensures f !in b.own {
      var k :| 0 <= k < |bs| && bs[k].Owns(f);
      assert bs[k].Clear(b.base - 1, b.base + b.max);
    }
    forall f | f in managed + b.own ensures Owned(bs', f) { OwnerKept(bs, i, b, f); }
    forall k, f | 0 <= k < |bs| ensures Agrees(bs'[k], free + b.own, managed + b.own, f) {
      assert Agrees(bs[k], free, managed, f) && bs[k].Clear(b.base - 1, b.base + b.max);
    }
  }

  /** The first slot that is not in use, or the number of slots. */
  function FirstIdle(bs: seq<Block>): (i: nat)
    ensures i <= |bs| && (forall k :: 0 <= k < i ==> bs[k].active) && (i < |bs| ==> !bs[i].active)
  {
    if bs == [] || !bs[0].active then 0 else 1 + FirstIdle(bs[1..])
  }

  /** The slots after a range of n pages from frame lo on was added. */
  ghost function BlocksAfter(bs: seq<Block>, lo: nat, n: nat): seq<Block>
    decreases n
  {
    var i := FirstIdle(bs);
    if n < 64 || i == |bs| then bs
    else
      var m := if n <= 32768 then n else 32768;
      BlocksAfter(bs[i := Block(true, lo + 1, m - 1, Frames(lo + 1, lo + m))], lo + m, n - m)
  }

  /** Slots in use stay as they are; ranges below 64 pages are dropped; a larger one goes into the first idle
      slot i, with its first page for control and the others free, and what is beyond 32768 pages goes on from there. */
  lemma BlocksAfterIs(bs: seq<Block>, lo: nat, n: nat, i: nat)
    requires i <= |bs| && (forall k :: 0 <= k < i ==> bs[k].active) && (i < |bs| ==> !bs[i].active)
    ensures n < 64 || i == |bs| ==> BlocksAfter(bs, lo, n) == bs
    ensures 64 <= n <= 32768 && i < |bs| ==>
              BlocksAfter(bs, lo, n) == bs[i := Block(true, lo + 1, n - 1, Frames(lo + 1, lo + n))]
    ensures n > 32768 && i < |bs| ==>
              BlocksAfter(bs, lo, n) ==
              BlocksAfter(bs[i := Block(true, lo + 1, 32767, Frames(lo + 1, lo + 32768))], lo + 32768, n - 32768)
  {
    hide Frames;
    assert FirstIdle(bs) == i;
    if 64 <= n <= 32768 && i < |bs| {
      var after := bs[i := Block(true, lo + 1, n - 1, Frames(lo + 1, lo + n))];
      assert BlocksAfter(bs, lo, n) == BlocksAfter(after, lo + n, 0);
    }
  }

  // ------------------------------------------------------------------ the allocator

  datatype PmmStat = PmmStat(free: nat, total: nat, used: nat, overhead: nat)

  datatype FreeOutcome = Freed | Ignored | PanicDoubleFree | PanicBadFree

  ghost function ActiveSlots(bs: seq<Block>): set<int> {
    set i | 0 <= i < |bs| && bs[i].active
  }

  ghost function IdleSlots(bs: seq<Block>): set<int> {
    set i | 0 <= i < |bs| && !bs[i].active
  }

  lemma AllIdle(bs: seq<Block>)
    requires forall i :: 0 <= i < |bs| ==> !bs[i].active
    ensures |IdleSlots(bs)| == |bs|
  {
    assert IdleSlots(bs) == set f: int | f in Frames(0, |bs|);
    assert (set f: int | f in Frames(0, |bs|)) == Frames(0, |bs|);
  }

  /** f is the lowest free frame of block i, and no block before i has a free frame. */
  ghost predicate LowestOfFirst(bs: seq<Block>, i: int, f: nat)
    requires 0 <= i < |bs|
  {
    && (forall k :: 0 <= k < i ==> bs[k].own == {})
    && f in bs[i].own && forall g :: g in bs[i].own ==> f <= g
  }

  lemma LowestMeans(bs: seq<Block>, i: nat, f: nat, k: nat, g: nat)
    requires i < |bs| && LowestOfFirst(bs, i, f) && k < |bs| && g in bs[k].own
    ensures f in bs[i].own && i <= k && (i == k ==> f <= g)
  {
  }

  /** Bit j of the bitmap is set exactly when the block's frame base + j is free. */
  ghost predicate Shows(ws: seq<u64>, b: Block) {
    && |ws| == PMM_CTRL_ENTRIES
    && (forall f :: f in b.own ==> b.base <= f < b.base + b.max)
    && b.max < 32768
    && (forall j: nat :: j in SetBits(ws) <==> b.base + j in b.own)
  }

  lemma ShowsTake(ws: seq<u64>, ws': seq<u64>, b: Block, j: nat)
    requires Shows(ws, b) && |ws'| == |ws| && SetBits(ws') == SetBits(ws) - {j}
    requires j in SetBits(ws) && forall k :: k in SetBits(ws) ==> j <= k
    ensures j < b.max && b.base + j in b.own && forall f :: f in b.own ==> b.base + j <= f
    ensures Shows(ws', b.(own := b.own - {b.base + j}))
  {
    forall f | f in b.own ensures b.base + j <= f {
      assert b.base + (f - b.base) in b.own && f - b.base in SetBits(ws);
    }
  }

  lemma ShowsBit(ws: seq<u64>, b: Block, j: nat)
    requires Shows(ws, b)
    ensures j in SetBits(ws) <==> b.base + j in b.own
  {
  }

  lemma ShowsSome(ws: seq<u64>, b: Block)
    requires Shows(ws, b) && b.own != {}
    ensures SetBits(ws) != {}
  {
    var f :| f in b.own;
    assert b.base + (f - b.base) in b.own && f - b.base in SetBits(ws);
  }

  lemma ShowsGive(ws: seq<u64>, ws': seq<u64>, b: Block, j: nat)
    requires Shows(ws, b) && |ws'| == |ws| && SetBits(ws') == SetBits(ws) + {j} && j < b.max
    ensures Shows(ws', b.(own := b.own + {b.base + j}))
  {
  }

  lemma ShowsAll(ws: seq<u64>, b: Block)
    requires |ws| == PMM_CTRL_ENTRIES && b.max < 32768 && SetBits(ws) == Frames(0, b.max)
               && b.own == Frames(b.base, b.base + b.max)
    ensures Shows(ws, b)
  {
  }

  /** A page-aligned size or address in bytes, and the same in pages. */
  predicate Bytes(pages: nat, bytes: nat) {
    bytes == 4096 * pages
  }

  lemma NoBytes(pages: nat, bytes: nat)
    ensures Bytes(pages, bytes) ==> (bytes == 0 <==> pages == 0)
  {
  }

  lemma MoreBytes(p: nat, a: nat, q: nat, b: nat)
    ensures Bytes(p, a) && Bytes(q, b) ==> Bytes(p + q, a + b)
  {
  }

  lemma PagesOfBytes(pages: nat, bytes: nat)
    ensures Bytes(pages, bytes) ==> bytes / 4096 == pages
  {
  }

  class Allocator {
    const entry: array<CtrlPtr>
    ghost var blocks: seq<Block>
    ghost var free: set<nat>
    ghost var managed: set<nat>
    ghost var Repr: set<object>

    ghost predicate Valid()
      reads this, Repr
      ensures Valid() ==> this in Repr && entry in Repr && free <= managed && |blocks| == PMM_ENTRIES
    {
      && this in Repr && entry in Repr && entry.Length == PMM_ENTRIES == |blocks|
      && Layout(blocks) && Meaning(blocks, free, managed)
      && (forall i {:trigger Linked(i)} :: 0 <= i < PMM_ENTRIES ==> Linked(i))
      && (forall i, k ::
            0 <= i < PMM_ENTRIES && 0 <= k < PMM_ENTRIES && i != k && entry[i].active && entry[k].active ==>
            entry[i].ctrl != entry[k].ctrl)
    }

    /** Slot i and its bitmap say what block i is: page-aligned data pages, at most 32767 of them, inside the
        address space; the cached count is the number of free frames, and bit j is set when frame base + j is free. */
    ghost predicate Linked(i: int)
      requires entry in Repr && entry.Length == PMM_ENTRIES == |blocks| && 0 <= i < PMM_ENTRIES
      reads this, Repr
    {
      var e, b := entry[i], blocks[i];
      && e.active == b.active
      && (!e.active ==> b.own == {})
      && (e.active ==>
            && e.ctrl != null && e.ctrl in Repr && e.ctrl as object != entry as object
            && e.ctrl.Length == PMM_CTRL_ENTRIES
            && e.physicalStart == 4096 * b.base && b.base >= 1
            && e.maxPages == b.max && 0 < b.max < 32768
            && e.freePages == |b.own|
            && e.physicalStart + 4096 * (e.maxPages as int) <= 0x1_0000_0000_0000_0000
            && Shows(e.ctrl[..], b))
    }

    /** What a slot in use and its bitmap say about the sets: from `physicalStart` on every page is managed, the pages
        with a set bit are the free ones, and the cached count is their number. */
    lemma SlotMeans(i: nat, j: nat)
      requires Valid() && i < PMM_ENTRIES && entry[i].active && j < entry[i].maxPages
      ensures entry[i].ctrl != null && entry[i].ctrl.Length == PMM_CTRL_ENTRIES && j / 64 < PMM_CTRL_ENTRIES
      ensures entry[i].physicalStart % 4096 == 0 && entry[i].physicalStart / 4096 + j in managed
      ensures entry[i].physicalStart / 4096 + j in free <==>
              entry[i].ctrl[j / 64] / Pow2(j % 64) % 2 == 1
    {
      hide Layout, Pow2;
      assert Linked(i);
      var b := blocks[i];
      assert Agrees(blocks[i], free, managed, b.base + j);
      BitmapMeans(entry[i].ctrl[..], j);
    }

    /** Every managed page is in a slot. */
    lemma SlotOf(f: nat) returns (i: nat)
      requires Valid() && f in managed
      ensures i < PMM_ENTRIES && entry[i].active
      ensures entry[i].physicalStart <= 4096 * f < entry[i].physicalStart + 4096 * (entry[i].maxPages as int)
    {
      hide Layout, Shows;
      assert Owned(blocks, f);
      i :| 0 <= i < |blocks| && blocks[i].Owns(f);
      assert Linked(i);
    }

    /** How many block slots are left for more memory. */
    ghost function Slots(): nat
      reads this`blocks
    {
      |IdleSlots(blocks)|
    }

    /** `pmm_new`: zeroed, so no slot is active (lines 69-74). */
    constructor ()
      ensures Valid() && fresh(Repr)
      ensures free == managed == {} && Slots() == 168
      ensures entry.Length == 168 && forall i :: 0 <= i < 168 ==> entry[i] == CtrlPtr(0, null, 0, 0, false)
    {
      entry := new CtrlPtr[PMM_ENTRIES](_ => EMPTY_SLOT);
      blocks := seq(PMM_ENTRIES, _ => NO_BLOCK);
      free, managed := {}, {};
      new;
      Repr := {this, entry};
      AllIdle(blocks);
    }

    /** Takes the lowest page of block i, which has one (lines 169-171). */
    method TakeFrom(i: nat) returns (page: u64)
      requires Valid() && i < PMM_ENTRIES && entry[i].active && entry[i].freePages != 0
      modifies Repr
      ensures Valid() && Repr == old(Repr) && managed == old(managed) && Slots() == old(Slots())
      ensures page != 0 && page % 4096 == 0
      ensures page / 4096 in old(blocks)[i].own && forall f :: f in old(blocks)[i].own ==> page / 4096 <= f
      ensures page / 4096 in old(free) && free == old(free) - {page / 4096}
    {
      hide Layout, Meaning, SetBits, Shows;
      ghost var b := blocks[i];
      var p := entry[i];
      assert Linked(i);
      ghost var ws := p.ctrl[..];
      ShowsSome(ws, b);
      var idx := CtrlAlloc(p.ctrl);
      ShowsTake(ws, p.ctrl[..], b, idx);
      ghost var frame := b.base + idx;
      TakeFrame(blocks, free, managed, i, frame);
      SameSlots(blocks, i, b.own - {frame});
      entry[i] := p.(freePages := p.freePages - 1);
      page := p.physicalStart + 4096 * (idx as int);
      blocks := blocks[i := b.(own := b.own - {frame})];
      free := free - {frame};
      forall k | 0 <= k < PMM_ENTRIES ensures Linked(k) {
        assert k != i ==> old(Linked(k));
      }
    }

    /** Takes the lowest free page of the first block that has one; 0 when no page is free (lines 163-177). */
    method AllocatePage() returns (page: u64)
      requires Valid()
      modifies Repr
      ensures Valid() && Repr == old(Repr) && managed == old(managed) && Slots() == old(Slots())
      ensures page == 0 <==> old(free) == {}
      ensures page == 0 ==> free == old(free)
      ensures page != 0 ==> page % 4096 == 0 && page / 4096 in old(free) && free == old(free) - {page / 4096}
      ensures page != 0 ==> exists i :: 0 <= i < PMM_ENTRIES && LowestOfFirst(old(blocks), i, page / 4096)
    {
      ghost var bs := blocks;
      for i := 0 to PMM_ENTRIES
        invariant Valid() && blocks == bs && Repr == old(Repr) && free == old(free) && managed == old(managed)
        invariant forall k :: 0 <= k < i ==> bs[k].own == {}
      {
        var p := entry[i];
        assert Linked(i);
        if p.active && p.freePages != 0 {
          page := TakeFrom(i);
          assert LowestOfFirst(bs, i, page / 4096);
          return;
        }
      }
      NothingFree(bs, free, managed);
      return 0;
    }

    /** Sets the bit of a page of block i, unless it is set already (lines 190-201). */
    method GiveTo(i: nat, physical: u64) returns (outcome: FreeOutcome)
      requires Valid() && i < PMM_ENTRIES && blocks[i].Owns(physical / 4096)
      modifies Repr
      ensures Valid() && Repr == old(Repr) && managed == old(managed) && Slots() == old(Slots())
      ensures outcome == (if physical / 4096 in old(free) then PanicDoubleFree else Freed)
      ensures free == old(free) + {physical / 4096} && physical / 4096 in managed
    {
      hide Layout, SetBits, Shows, Bit, TestBit, SetBit, Owned, BitAnd, Meaning;
      ghost var b := blocks[i];
      var p := entry[i];
      AgreesAt(blocks, free, managed, i, physical / 4096);
      assert Linked(i);
      var pageindex := (physical - p.physicalStart) / 4096;
      assert b.base + pageindex == physical / 4096;
      ghost var ws := p.ctrl[..];
      BitTested(ws, pageindex);
      ShowsBit(ws, b, pageindex);
      if TestBit(p.ctrl[pageindex / 64], pageindex % 64) {
        return PanicDoubleFree;
      }
      MarkFree(i, pageindex);
      return Freed;
    }

    /** Sets a bit that is not set and counts it (lines 198-199). */
    method MarkFree(i: nat, pageindex: nat)
      requires Valid() && i < PMM_ENTRIES && pageindex < 32768
      requires blocks[i].Owns(blocks[i].base + pageindex) && blocks[i].base + pageindex !in blocks[i].own
      modifies Repr
      ensures Valid() && Repr == old(Repr) && managed == old(managed) && Slots() == old(Slots())
      ensures free == old(free) + {old(blocks[i].base) + pageindex} && old(blocks[i].base) + pageindex in managed
    {
      hide Layout, SetBits, Shows, Bit, SetBit, Meaning;
      ghost var b := blocks[i];
      var p := entry[i];
      assert Linked(i);
      ghost var frame, ws := b.base + pageindex, p.ctrl[..];
      var word, bit := pageindex / 64, pageindex % 64;
      GiveFrame(blocks, free, managed, i, frame);
      SameSlots(blocks, i, b.own + {frame});
      UpdateWord(ws, word, SetBit(ws[word], bit), bit, true);
      p.ctrl[word] := SetBit(p.ctrl[word], bit);
      assert p.ctrl[..] == ws[word := SetBit(ws[word], bit)];
      ShowsGive(ws, p.ctrl[..], b, pageindex);
      entry[i] := p.(freePages := p.freePages + 1);
      blocks := blocks[i := b.(own := b.own + {frame})];
      free := free + {frame};
      forall k | 0 <= k < PMM_ENTRIES ensures Linked(k) {
        assert k != i ==> old(Linked(k));
      }
    }

    /** Returns a page (lines 179-207). An address inside a page stands for its page; both panics are outcomes. */
    method FreePage(physical: u64) returns (outcome: FreeOutcome)
      requires Valid()
      modifies Repr
      ensures Valid() && Repr == old(Repr) && managed == old(managed) && Slots() == old(Slots())
      ensures outcome.Ignored? <==> physical == 0
      ensures outcome.PanicBadFree? <==> physical != 0 && physical / 4096 !in managed
      ensures outcome.PanicDoubleFree? <==> physical != 0 && physical / 4096 in old(free)
      ensures free == if outcome.Freed? then old(free) + {physical / 4096} else old(free)
    {
      if physical == 0 {
        return Ignored;
      }
      for i := 0 to PMM_ENTRIES
        invariant Valid() && blocks == old(blocks) && Repr == old(Repr) && free == old(free) && managed == old(managed)
        invariant forall k :: 0 <= k < i ==> !blocks[k].Owns(physical / 4096)
      {
        var p := entry[i];
        assert Linked(i);
        if p.active && physical >= p.physicalStart && physical < p.physicalStart + 4096 * (p.maxPages as int) {
          outcome := GiveTo(i, physical);
          return;
        }
      }
      return PanicBadFree;
    }

    /** Turns the m pages from frame lo on into a block with its first page as control block (lines 92-110). */
    method SetupEntry(i: nat, start: u64, size: u64, ghost lo: nat, ghost m: nat, ghost mid: nat, ghost end: nat)
      requires Valid() && i < PMM_ENTRIES && !entry[i].active
      requires Bytes(lo, start) && Bytes(m, size) && 64 <= m <= 32768 && start + size <= 0x1_0000_0000_0000_0000
      requires mid == lo + m <= end && Room(blocks, lo, end)
      modifies Repr
      ensures Valid() && fresh(Repr - old(Repr)) && old(Repr) <= Repr
      ensures blocks == old(blocks)[i := Block(true, lo + 1, m - 1, Frames(lo + 1, lo + m))]
      ensures Grown(old(managed), old(free), managed, free, Frames(lo + 1, lo + m))
      ensures Slots() == old(Slots()) - 1 && old(Slots()) > 0
    {
      hide Layout, Meaning, SetBits, Shows, Frames, Room, Grown, IdleSlots;
      var ctrl := new u64[PMM_CTRL_ENTRIES](_ => 0);
      var pages := (size - 4096) / 4096;
      CtrlInitialise(ctrl, pages);
      ghost var b := Block(true, lo + 1, m - 1, Frames(lo + 1, lo + m));
      ShowsAll(ctrl[..], b);
      assert Valid();
      assert Linked(i);
      RoomPart(blocks, lo, end, lo, lo + m);
      IdleFewer(blocks, i, b);
      AddBlock(blocks, free, managed, i, b);
      GrownOnce(managed, free, b.own);
      entry[i] := CtrlPtr(start + 4096, ctrl, pages, pages, true);
      blocks := blocks[i := b];
      managed := managed + b.own;
      free := free + b.own;
      Repr := Repr + {ctrl};
      forall k | 0 <= k < PMM_ENTRIES ensures Linked(k) {
        assert k != i ==> old(Linked(k));
      }
    }

    lemma ActiveAt(i: nat)
      ensures Valid() ==> entry.Length == PMM_ENTRIES && |blocks| == PMM_ENTRIES &&
                          (i < PMM_ENTRIES ==> entry[i].active == blocks[i].active)
    {
      if Valid() && i < PMM_ENTRIES { assert Linked(i); }
    }

    /** Gives a page-aligned range, apart from all memory so far, to the allocator (lines 112-146). The range has n
        whole pages, from frame lo on. */
    method Add(start: u64, size0: u64, ghost lo: nat, ghost n: nat, ghost end: nat)
      requires Valid()
      requires Bytes(lo, start) && n == size0 / 4096 && start + size0 <= 0x1_0000_0000_0000_0000
      requires end == lo + n && Untouched(managed, lo, end)
      modifies Repr
      ensures Valid() && fresh(Repr - old(Repr)) && old(Repr) <= Repr
      ensures Grown(old(managed), old(free), managed, free, DataFrames(lo, n, old(Slots())))
      ensures Slots() == SlotsLeft(n, old(Slots()))
      ensures blocks == BlocksAfter(old(blocks), lo, n)
      decreases size0, 1
    {
      hide Valid, Linked, Frames, DataFrames, Untouched, SlotsLeft, Grown, BlocksAfter;
      NothingGrown(managed, free);
      var size: u64 := size0 / 4096 * 4096;
      var remaining: u64 := 0;
      if size > 0x800_0000 {
        remaining := size - 0x800_0000;
        size := 0x800_0000;
      } else if size < 0x4_0000 {
        TooSmall(lo, n, Slots());
        BlocksAfterIs(blocks, lo, n, FirstIdle(blocks));
        return;
      }
      ActiveAt(0);
      var i := 0;
      while i < PMM_ENTRIES && entry[i].active
        invariant 0 <= i <= PMM_ENTRIES
        invariant forall k :: 0 <= k < i ==> blocks[k].active
        modifies {}
      {
        ActiveAt(i);
        i := i + 1;
      }
      if i < PMM_ENTRIES {
        ActiveAt(i);
        ghost var m, r := size / 4096, remaining / 4096;
        assert m + r == n;
        AddAt(i, start, size, remaining, lo, m, r, end);
        return;
      }
      assert IdleSlots(blocks) == {};
      NoSlots(lo, n);
      BlocksAfterIs(blocks, lo, n, i);
    }

    /** Sets up one block of m pages in slot i and goes on with the r pages that remain (lines 134-139). */
    method AddAt(i: nat, start: u64, size: u64, remaining: u64, ghost lo: nat, ghost m: nat, ghost r: nat,
        ghost end: nat)
      requires Valid() && i < PMM_ENTRIES && !entry[i].active && !blocks[i].active
      requires forall k :: 0 <= k < i ==> blocks[k].active
      requires Bytes(lo, start) && Bytes(m, size) && Bytes(r, remaining)
      requires start + size + remaining <= 0x1_0000_0000_0000_0000
      requires 64 <= m <= 32768 && (r > 0 ==> m == 32768)
      requires end == lo + m + r && Untouched(managed, lo, end)
      modifies Repr
      ensures Valid() && fresh(Repr - old(Repr)) && old(Repr) <= Repr
      ensures Grown(old(managed), old(free), managed, free, DataFrames(lo, m + r, old(Slots())))
      ensures Slots() == SlotsLeft(m + r, old(Slots()))
      ensures blocks == BlocksAfter(old(blocks), lo, m + r)
      decreases size + remaining, 0
    {
      hide *;
      ghost var slots, mid := Slots(), lo + m;
      RoomForRange(lo, end);
      BlocksNext(blocks, lo, m, r, mid, i);
      SetupEntry(i, start, size, lo, m, mid, end);
      ghost var m1, f1 := managed, free;
      NoBytes(r, remaining);
      if remaining != 0 {
        NoBytes(m, size);
        MoreBytes(lo, start, m, size);
        PagesOfBytes(r, remaining);
        UntouchedRest(old(managed), old(free), m1, f1, lo, m, mid, end);
        Add(start + size, remaining, mid, r, end);
        GrownOn(old(managed), old(free), m1, f1, managed, free, lo, m, r, mid, slots);
        SlotsLeftOn(m, r, slots);
      } else {
        GrownLast(old(managed), old(free), managed, free, lo, m, r, slots);
        SlotsLeftLast(m, r, slots);
      }
    }

    lemma BlocksNext(bs: seq<Block>, lo: nat, m: nat, r: nat, mid: nat, i: nat)
      ensures i < |bs| && (forall k :: 0 <= k < i ==> bs[k].active) && !bs[i].active && 64 <= m <= 32768
              && (r > 0 ==> m == 32768) && mid == lo + m ==>
                BlocksAfter(bs, lo, m + r) ==
                var after := bs[i := Block(true, lo + 1, m - 1, Frames(lo + 1, lo + m))];
                if r == 0 then after else BlocksAfter(after, mid, r)
    {
      hide Frames, BlocksAfter;
      if i < |bs| && (forall k :: 0 <= k < i ==> bs[k].active) && !bs[i].active {
        BlocksAfterIs(bs, lo, m + r, i);
      }
    }

    /** No block has a frame in a range that no managed frame lies in or ends at. */
    lemma RoomForRange(lo: nat, hi: nat)
      ensures Valid() && lo < hi && Untouched(managed, lo, hi) ==> Room(blocks, lo, hi)
    {
      hide SetBits, Shows, Layout, Untouched;
      forall k | Valid() && lo < hi && Untouched(managed, lo, hi) && 0 <= k < |blocks| ensures blocks[k].Clear(lo, hi) {
        assert Linked(k);
        var b := blocks[k];
        if b.active {
          AllManaged(blocks, free, managed, k);
          BlockBeside(b, managed, lo, hi);
        }
      }
    }

    /** The statistics agree with the sets (lines 209-228). */
    method CountPages() returns (stat: PmmStat)
      requires Valid()
      ensures stat.free == |free| && stat.used == |managed - free|
      ensures stat.overhead == 1 + |ActiveSlots(blocks)|
      ensures stat.total == stat.free + stat.used + stat.overhead
    {
      hide Layout, Meaning, SetBits, Shows, CountedTo, Frames, Owned;
      stat := PmmStat(0, 1, 0, 1);
      ghost var f: set<nat>, m: set<nat>, a: set<int> := {}, {}, {};
      CountedNone(blocks, free, managed);
      for i := 0 to PMM_ENTRIES
        invariant CountedTo(blocks, free, managed, i, f, m)
        invariant a == set k | 0 <= k < i && blocks[k].active
        invariant stat.free == |f| && stat.free + stat.used == |m| && stat.overhead == 1 + |a|
        invariant stat.total == stat.free + stat.used + stat.overhead
      {
        var p := entry[i];
        assert Linked(i);
        CountBlock(blocks, free, managed, i, f, m);
        if p.active {
          f := f + blocks[i].own;
          m := m + Frames(blocks[i].base, blocks[i].base + blocks[i].max);
          a := a + {i};
          stat := PmmStat(stat.free + p.freePages, stat.total + 1 + p.maxPages, stat.used + (p.maxPages - p.freePages),
            stat.overhead + 1);
        }
      }
      CountedAll(blocks, free, managed, f, m);
      assert a == ActiveSlots(blocks);
      assert managed == free + (managed - free);
    }
  }

  lemma NothingGrown(m: set<nat>, f: set<nat>)
    ensures Grown(m, f, m, f, {})
  {
  }

  /** No managed frame lies in the range [lo, hi) or at its end, where a control page would be in the range. */
  ghost predicate Untouched(managed: set<nat>, lo: nat, hi: nat) {
    lo < hi ==> forall f :: f in managed ==> f < lo || hi < f
  }

  lemma UntouchedIf(managed: set<nat>, lo: nat, hi: nat)
    requires forall f :: f in managed ==> f < lo || hi < f
    ensures Untouched(managed, lo, hi)
  {
  }

  lemma AllManaged(bs: seq<Block>, free: set<nat>, managed: set<nat>, k: nat)
    requires Meaning(bs, free, managed) && k < |bs| && bs[k].active
    ensures forall f :: bs[k].base <= f < bs[k].base + bs[k].max ==> f in managed
  {
    forall f: nat | bs[k].base <= f < bs[k].base + bs[k].max ensures f in managed {
      assert Agrees(bs[k], free, managed, f);
    }
  }

  /** A block whose frames all avoid [lo, hi] lies on one side of it, control page included. */
  lemma BlockBeside(b: Block, managed: set<nat>, lo: nat, hi: nat)
    requires b.active && b.max > 0 && lo < hi && Untouched(managed, lo, hi)
    requires forall f :: b.base <= f < b.base + b.max ==> f in managed
    ensures b.Clear(lo, hi)
  {
    assert b.base in managed && b.base + b.max - 1 in managed;
    assert b.base <= lo < b.base + b.max ==> lo in managed;
  }

  lemma UntouchedRest(m0: set<nat>, f0: set<nat>, m1: set<nat>, f1: set<nat>, lo: nat, m: nat, mid: nat, end: nat)
    ensures Untouched(m0, lo, end) && Grown(m0, f0, m1, f1, Frames(lo + 1, lo + m)) && mid == lo + m <= end ==>
              Untouched(m1, mid, end)
  {
  }

  /** How many slots are left after a range of n pages was added. */
  function SlotsLeft(n: nat, slots: nat): nat {
    if SlotsNeeded(n) <= slots then slots - SlotsNeeded(n) else 0
  }

  lemma SlotsLeftOn(m: nat, r: nat, slots: nat)
    ensures m == 32768 && slots > 0 ==> SlotsLeft(m + r, slots) == SlotsLeft(r, slots - 1)
  {
    assert m == 32768 ==> (m + r) / 32768 == r / 32768 + 1 && (m + r) % 32768 == r % 32768;
  }

  lemma SlotsLeftLast(m: nat, r: nat, slots: nat)
    ensures 64 <= m <= 32768 && r == 0 && slots > 0 ==> SlotsLeft(m + r, slots) == slots - 1
  {
  }

  lemma SameSlots(bs: seq<Block>, i: nat, own: set<nat>)
    requires i < |bs|
    ensures |IdleSlots(bs[i := bs[i].(own := own)])| == |IdleSlots(bs)|
  {
    assert IdleSlots(bs[i := bs[i].(own := own)]) == IdleSlots(bs);
  }

  /** The allocator gained the frames `added`, all of them new to it and all of them free. */
  ghost predicate Grown(m0: set<nat>, f0: set<nat>, m1: set<nat>, f1: set<nat>, added: set<nat>) {
    added !! m0 && m1 == m0 + added && f1 == f0 + added
  }

  lemma GrownOnce(m: set<nat>, f: set<nat>, d: set<nat>)
    ensures d !! m ==> Grown(m, f, m + d, f + d, d)
  {
  }

  /** A full block and then the rest of the range. */
  lemma GrownOn(m0: set<nat>, f0: set<nat>, m1: set<nat>, f1: set<nat>, m2: set<nat>, f2: set<nat>, lo: nat, m: nat,
      r: nat, mid: nat, slots: nat)
    requires slots > 0
    ensures m == 32768 && r > 0 && mid == lo + m
            && Grown(m0, f0, m1, f1, Frames(lo + 1, lo + m)) && Grown(m1, f1, m2, f2, DataFrames(mid, r, slots - 1))
            ==> Grown(m0, f0, m2, f2, DataFrames(lo, m + r, slots))
  {
    BlockThenRest(lo, m, r, mid, slots);
    hide DataFrames, Frames;
  }

  /** The last block of the range. */
  lemma GrownLast(m0: set<nat>, f0: set<nat>, m1: set<nat>, f1: set<nat>, lo: nat, m: nat, r: nat, slots: nat)
    ensures slots > 0 && 64 <= m <= 32768 && r == 0 && Grown(m0, f0, m1, f1, Frames(lo + 1, lo + m))
            ==> Grown(m0, f0, m1, f1, DataFrames(lo, m + r, slots))
  {
    LastBlock(lo, m, r, slots);
    hide DataFrames, Frames;
  }

  lemma AgreesAt(bs: seq<Block>, free: set<nat>, managed: set<nat>, i: nat, f: nat)
    ensures Meaning(bs, free, managed) && i < |bs| ==> Agrees(bs[i], free, managed, f)
  {
  }

  lemma NothingFree(bs: seq<Block>, free: set<nat>, managed: set<nat>)
    requires Meaning(bs, free, managed) && forall k :: 0 <= k < |bs| ==> bs[k].own == {}
    ensures free == {}
  {
    forall f | f in free ensures false {
      var k :| 0 <= k < |bs| && bs[k].Owns(f);
      FreeSomewhere(bs, free, managed, k, f);
    }
  }

  lemma FreeSomewhere(bs: seq<Block>, free: set<nat>, managed: set<nat>, k: int, f: nat)
    requires Meaning(bs, free, managed) && f in free && 0 <= k < |bs| && bs[k].Owns(f)
    ensures f in bs[k].own
  {
    assert Agrees(bs[k], free, managed, f);
  }

  lemma BitTested(ws: seq<u64>, j: nat)
    requires |ws| == PMM_CTRL_ENTRIES && j < 32768
    ensures TestBit(ws[j / 64], j % 64) <==> j in SetBits(ws)
  {
    ShiftedOne(j % 64, j % 64);
    TestBitReadsBit(ws[j / 64], j % 64);
  }

  lemma TooSmall(start: nat, n: nat, slots: nat)
    requires n < 64
    ensures DataFrames(start, n, slots) == {} && SlotsLeft(n, slots) == slots
  {
  }

  lemma NoSlots(start: nat, n: nat)
    ensures DataFrames(start, n, 0) == {} && SlotsLeft(n, 0) == 0
  {
  }

  lemma IdleFewer(bs: seq<Block>, i: nat, b: Block)
    requires i < |bs| && !bs[i].active && b.active
    ensures |IdleSlots(bs)| > 0 && |IdleSlots(bs[i := b])| == |IdleSlots(bs)| - 1
  {
    assert i in IdleSlots(bs);
    assert IdleSlots(bs[i := b]) == IdleSlots(bs) - {i as int};
  }

  /** f and m are the free and the owned frames of the first i blocks. */
  ghost predicate CountedTo(bs: seq<Block>, free: set<nat>, managed: set<nat>, i: nat, f: set<nat>, m: set<nat>)
    requires i <= |bs|
  {
    && (forall g :: g in f <==> g in free && Owned(bs[..i], g))
    && (forall g :: g in m <==> g in managed && Owned(bs[..i], g))
  }

  lemma CountedNone(bs: seq<Block>, free: set<nat>, managed: set<nat>)
    ensures CountedTo(bs, free, managed, 0, {}, {})
  {
  }

  lemma CountedAll(bs: seq<Block>, free: set<nat>, managed: set<nat>, f: set<nat>, m: set<nat>)
    requires CountedTo(bs, free, managed, |bs|, f, m) && Meaning(bs, free, managed)
    ensures f == free && m == managed
  {
  }

  lemma OwnedExtend(bs: seq<Block>, i: nat, g: nat)
    requires i < |bs|
    ensures Owned(bs[..i + 1], g) <==> Owned(bs[..i], g) || bs[i].Owns(g)
  {
  }

  /** Block i adds its own free frames and its own frames to the running totals. */
  lemma CountBlock(bs: seq<Block>, free: set<nat>, managed: set<nat>, i: nat, f: set<nat>, m: set<nat>)
    requires Layout(bs) && Meaning(bs, free, managed) && i < |bs| && CountedTo(bs, free, managed, i, f, m)
    ensures bs[i].active ==>
      var all := Frames(bs[i].base, bs[i].base + bs[i].max);
      && CountedTo(bs, free, managed, i + 1, f + bs[i].own, m + all)
      && |bs[i].own| <= bs[i].max
      && |f + bs[i].own| == |f| + |bs[i].own| && |m + all| == |m| + bs[i].max
    ensures !bs[i].active ==> CountedTo(bs, free, managed, i + 1, f, m)
  {
    hide Owned, Meaning, Layout;
    var b, all := bs[i], Frames(bs[i].base, bs[i].base + bs[i].max);
    forall g
      ensures Owned(bs[..i + 1], g) <==> Owned(bs[..i], g) || b.Owns(g)
      ensures g in b.own ==> b.Owns(g) && g in all
      ensures b.Owns(g) ==> g in all && !Owned(bs[..i], g) && g in managed && (g in free <==> g in b.own)
    {
      OwnedExtend(bs, i, g);
      BlockFacts(bs, free, managed, i, g);
    }
    SubsetSize(b.own, all);
    if b.active {
      forall g ensures g in f + b.own <==> g in free && Owned(bs[..i + 1], g) { assert b.Owns(g) || !b.Owns(g); }
      forall g ensures g in m + all <==> g in managed && Owned(bs[..i + 1], g) { assert b.Owns(g) || !b.Owns(g); }
      assert f !! b.own by { forall g | g in b.own ensures g !in f { assert b.Owns(g); } }
      assert m !! all by { forall g | g in all ensures g !in m { assert b.Owns(g); } }
    }
  }

  /** A frame of block i is in no block before it. */
  lemma BlockFacts(bs: seq<Block>, free: set<nat>, managed: set<nat>, i: nat, g: nat)
    requires Layout(bs) && Meaning(bs, free, managed) && i < |bs|
    ensures g in bs[i].own ==> bs[i].Owns(g)
    ensures bs[i].Owns(g) ==> !Owned(bs[..i], g) && g in managed && (g in free <==> g in bs[i].own)
  {
    assert Agrees(bs[i], free, managed, g);
    if Owned(bs[..i], g) {
      var k :| 0 <= k < i && bs[..i][k].Owns(g);
      assert Apart(bs[k], bs[i]) && bs[k].Owns(g);
    }
  }
}
