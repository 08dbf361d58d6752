/** The arena allocator (src/memory/arena_allocator.c): bump allocation inside pages taken from the page allocator,
    chained through the first word of each page. */
module Arena {
  import opened Sequences
  import opened Words
  import Pmm

  // ------------------------------------------------------------------ rounding sizes

  /** `align_p2` on a 32-bit unsigned value (lines 20-24). */
  function AlignP2(val: nat, p2: nat): nat {
    (val + Pow2(p2) - 1) % 0x1_0000_0000 / Pow2(p2) * Pow2(p2)
  }

  /** Without wrap-around the result is the least multiple of 2^p2 that is at least val; with it, the result is 0. */
  lemma AlignRoundsUp(val: nat, p2: nat)
    requires val < 0x1_0000_0000 && p2 < 32
    ensures AlignP2(val, p2) % Pow2(p2) == 0 && AlignP2(val, p2) < 0x1_0000_0000
    ensures val + Pow2(p2) - 1 < 0x1_0000_0000 ==> val <= AlignP2(val, p2) < val + Pow2(p2)
    ensures val + Pow2(p2) - 1 >= 0x1_0000_0000 ==> AlignP2(val, p2) == 0
  {
    hide Pow2;
    PowerBelow32(p2);
    RoundsUp(val, Pow2(p2), (val + Pow2(p2) - 1) % 0x1_0000_0000);
  }

  lemma RoundsUp(val: nat, p: nat, w: nat)
    requires 0 < p <= 0x8000_0000 && val < 0x1_0000_0000 && w == (val + p - 1) % 0x1_0000_0000
    ensures w / p * p % p == 0 && w / p * p < 0x1_0000_0000
    ensures val + p - 1 < 0x1_0000_0000 ==> val <= w / p * p < val + p
    ensures val + p - 1 >= 0x1_0000_0000 ==> w / p * p == 0
  {
    Wrap(val + p - 1, w);
    Quotient(w, p);
    QuotientIs(w / p * p, p, w / p, 0);
    if val + p - 1 >= 0x1_0000_0000 { QuotientIs(w, p, 0, w); }
  }

  lemma Wrap(x: nat, w: nat)
    requires x < 0x2_0000_0000 && w == x % 0x1_0000_0000
    ensures w == if x < 0x1_0000_0000 then x else x - 0x1_0000_0000
  {
  }

  lemma PowerBelow32(p2: nat)
    requires p2 < 32
    ensures Pow2(p2) <= 0x8000_0000
  {
    PowerValues();
    if p2 < 31 { PowMonotone(p2, 31); }
  }

  /** The rounded size of a request of any size_t: it is truncated to 32 bits first. */
  function Rounded(size: nat, p2: nat): nat {
    AlignP2(size % 0x1_0000_0000, p2)
  }

  /** The rounded size is the least multiple that covers the low 32 bits of the request, or 0 when that wraps. */
  lemma RoundedIs(size: nat, p2: nat)
    requires p2 < 32
    ensures Rounded(size, p2) % Pow2(p2) == 0
    ensures size % 0x1_0000_0000 + Pow2(p2) - 1 < 0x1_0000_0000 ==>
              size % 0x1_0000_0000 <= Rounded(size, p2) < size % 0x1_0000_0000 + Pow2(p2)
    ensures size % 0x1_0000_0000 + Pow2(p2) - 1 >= 0x1_0000_0000 ==> Rounded(size, p2) == 0
  {
    AlignRoundsUp(size % 0x1_0000_0000, p2);
  }

  /** The rounded size covers the request if and only if rounding does not wrap. */
  lemma RoundedCovers(size: nat, p2: nat)
    requires p2 < 32
    ensures Rounded(size, p2) >= size <==> size + Pow2(p2) - 1 < 0x1_0000_0000
  {
    hide Pow2, AlignP2;
    PowerBelow32(p2);
    AlignRoundsUp(size % 0x1_0000_0000, p2);
    Truncation(size);
  }

  lemma Truncation(size: nat)
    ensures size < 0x1_0000_0000 ==> size % 0x1_0000_0000 == size
  {
  }

  lemma MultipleSum(a: nat, b: nat, p: nat)
    requires p > 0 && a % p == 0 && b % p == 0
    ensures (a + b) % p == 0
  {
    Quotient(a, p);
    Quotient(b, p);
    assert (a / p + b / p) * p == a + b;
    QuotientIs(a + b, p, a / p + b / p, 0);
  }

  /** Between two multiples there is room for one more step. */
  lemma MultipleStep(a: nat, b: nat, p: nat)
    requires p > 0 && a % p == 0 && b % p == 0 && a < b
    ensures a + p <= b
  {
    Quotient(a, p);
    Quotient(b, p);
    Multiples(a / p, b / p, p);
    Multiples(b / p, a / p, p);
  }

  lemma MultiplePages(page: nat, p2: nat)
    requires p2 <= 12
    ensures 4096 * page % Pow2(p2) == 0 && Pow2(p2) <= 4096
  {
    Product(12 - p2, p2);
    PowerValues();
    hide Pow2;
    MultipleOf(page, Pow2(p2), Pow2(12 - p2));
  }

  lemma MultipleOf(page: nat, p: nat, q: nat)
    requires p > 0 && q > 0 && q * p == 4096
    ensures 4096 * page % p == 0 && p <= 4096
  {
    Shuffle(q, p, page);
    QuotientIs(4096 * page, p, q * page, 0);
    ScaleGrows(p, q);
  }

  lemma Shuffle(q: nat, p: nat, page: nat)
    ensures q * p * page == q * page * p
  {
  }

  /** The offset behind the header of a fresh page, and behind the structure in the first page. */
  lemma HeaderOffsets(p2: nat)
    requires p2 <= 12
    ensures 8 <= AlignP2(8, p2) <= 4096 && 32 <= AlignP2(32, p2) <= 4096
    ensures AlignP2(8, p2) % Pow2(p2) == 0 && AlignP2(32, p2) % Pow2(p2) == 0
    ensures AlignP2(8, p2) == if p2 >= 3 then Pow2(p2) else 8
  {
    MultiplePages(1, p2);
    Powers(p2);
    AlignRoundsUp(8, p2);
    AlignRoundsUp(32, p2);
    hide Pow2, AlignP2;
    NextMultiple(8, AlignP2(8, p2), Pow2(p2), 4096);
    NextMultiple(32, AlignP2(32, p2), Pow2(p2), 4096);
    NextMultiple(8, AlignP2(8, p2), Pow2(p2), if p2 >= 3 then Pow2(p2) else 8);
  }

  /** Rounded up, a value does not pass a multiple above it. */
  lemma NextMultiple(val: nat, up: nat, p: nat, m: nat)
    requires p > 0 && up % p == 0 && m % p == 0 && val <= up < val + p && val <= m
    ensures up <= m && (m < val + p ==> up == m)
  {
    if m < up { MultipleStep(m, up, p); }
    if up < m { MultipleStep(up, m, p); }
  }

  lemma Powers(p2: nat)
    ensures p2 >= 3 ==> Pow2(p2) >= 8
    ensures p2 <= 3 ==> 8 % Pow2(p2) == 0 && Pow2(p2) <= 8
  {
  }

  /** The alignments for which a page has room for aligned blocks. */
  predicate Usable(p2: nat) {
    3 <= p2 <= 12
  }

  /** Every size that passes the check against PAGE_SIZE fits behind the header of a fresh page, which is not checked
      again, if and only if the alignment is from 2^3 to 2^12. */
  lemma FreshPageFits(p2: nat)
    requires p2 < 32
    ensures (forall s: nat {:trigger s % Pow2(p2)} :: s % Pow2(p2) == 0 && s < 4096 ==>
              AlignP2(8, p2) + s <= 4096) <==> 3 <= p2 <= 12
  {
    hide Pow2, AlignP2;
    if p2 <= 12 {
      SmallAlignmentFits(p2);
    } else {
      LargeAlignment(p2);
      ZeroSize(p2);
    }
  }

  lemma SmallAlignmentFits(p2: nat)
    requires p2 <= 12
    ensures (forall s: nat {:trigger s % Pow2(p2)} :: s % Pow2(p2) == 0 && s < 4096 ==>
              AlignP2(8, p2) + s <= 4096) <==> p2 >= 3
  {
    HeaderOffsets(p2);
    MultiplePages(1, p2);
    Powers(p2);
    hide Pow2, AlignP2;
    var p := Pow2(p2);
    assert p2 < 3 ==> p < 8 && (4096 - p) % p == 0 by { SmallPowers(p2); }
    forall s: nat | p2 >= 3 && s % p == 0 && s < 4096 ensures p + s <= 4096 {
      MultipleStep(s, 4096, p);
    }
  }

  lemma ZeroSize(p2: nat)
    ensures exists s: nat {:trigger s % Pow2(p2)} :: s == 0 && s % Pow2(p2) == 0
  {
    hide Pow2;
    var s: nat := 0;
    QuotientIs(s, Pow2(p2), 0, 0);
  }

  /** Above 2^12 the first aligned offset is behind the page. */
  lemma LargeAlignment(p2: nat)
    requires 12 < p2 < 32
    ensures AlignP2(8, p2) > 4096
  {
    hide Pow2, AlignP2;
    PowerValues();
    PowerBelow32(p2);
    PowMonotone(12, p2);
    AlignRoundsUp(8, p2);
    PositiveMultiple(AlignP2(8, p2), Pow2(p2));
  }

  lemma PositiveMultiple(x: nat, p: nat)
    requires x > 0 && p > 0 && x % p == 0
    ensures p <= x
  {
    Quotient(x, p);
    ScaleGrows(p, x / p);
  }

  /** A block of 0 bytes that is not null, the first block of `test_arena`, and a block that ends 4 bytes
      behind its page. */
  lemma AlignExamples()
    ensures Rounded(0xffff_ffff, 4) == 0
    ensures AlignP2(32, 4) == 32 && Rounded(50, 4) == 64 && AlignP2(8, 4) == 16
    ensures Rounded(4092, 2) == 4092 && AlignP2(8, 2) + Rounded(4092, 2) == 4100
  {
    assert Pow2(4) == 16 && Pow2(2) == 4;
  }

  lemma SmallPowers(p2: nat)
    ensures p2 < 3 ==> Pow2(p2) < 8 && (4096 - Pow2(p2)) % Pow2(p2) == 0
  {
  }

  // ------------------------------------------------------------------ the arena

  /** `struct blk`; a null block is (0, 0). */
  datatype Blk = Blk(ptr: nat, size: nat)

  /** Where a block lies: in the index-th page of the arena, at an offset. */
  datatype Place = Place(index: nat, offset: nat, size: nat)

  /** The second block comes after the first one. */
  ghost predicate Before(a: Place, b: Place) {
    a.index < b.index || (a.index == b.index && a.offset + a.size <= b.offset)
  }

  /** sizeof (struct arena_pmm) in the first page, sizeof (struct arena_pmm_page_header) in the others. */
  function HeaderSize(index: nat): nat {
    if index == 0 then 32 else 8
  }

  /** Aligned and behind the header; for a usable alignment also inside its page. */
  ghost predicate InPage(b: Place, p2: nat) {
    b.offset >= HeaderSize(b.index) && b.offset % Pow2(p2) == 0 && (Usable(p2) ==> b.offset + b.size <= 4096)
  }

  /** The blocks of an arena of n pages whose last page is used up to `top`. */
  ghost predicate Packed(bs: seq<Place>, p2: nat, n: nat, top: nat) {
    && (forall i :: 0 <= i < |bs| ==> InPage(bs[i], p2) && bs[i].index < n)
    && (forall i, k :: 0 <= i < k < |bs| ==> Before(bs[i], bs[k]))
    && (forall i :: 0 <= i < |bs| && bs[i].index == n - 1 ==> bs[i].offset + bs[i].size <= top)
  }

  /** The first page starts with the 32 bytes of the arena itself, every other with a header of 8. */
  lemma BehindHeader(b: Place, p2: nat)
    requires InPage(b, p2)
    ensures b.offset >= if b.index == 0 then 32 else 8
  {
  }

  lemma PackedMore(bs: seq<Place>, p2: nat, n: nat, top: nat, size: nat)
    ensures Packed(bs, p2, n, top) && n > 0 && InPage(Place(n - 1, top, size), p2) ==>
              Packed(bs + [Place(n - 1, top, size)], p2, n, top + size)
  {
  }

  lemma PackedPage(bs: seq<Place>, p2: nat, n: nat, top: nat, start: nat)
    ensures Packed(bs, p2, n, top) ==> Packed(bs, p2, n + 1, start)
  {
  }

  function Address(chain: seq<nat>, b: Place): nat
    requires b.index < |chain|
  {
    4096 * chain[b.index] + b.offset
  }

  /** Blocks of an arena are 2^p2-aligned, and no two share an address. */
  lemma BlocksApart(chain: seq<nat>, bs: seq<Place>, p2: nat, top: nat, i: nat, k: nat)
    requires Distinct(chain) && Packed(bs, p2, |chain|, top) && i < k < |bs| && Usable(p2)
    ensures Address(chain, bs[i]) % Pow2(p2) == 0
    ensures Address(chain, bs[i]) + bs[i].size <= Address(chain, bs[k])
              || Address(chain, bs[k]) + bs[k].size <= Address(chain, bs[i])
  {
    hide Pow2;
    var a, b := bs[i], bs[k];
    assert InPage(a, p2) && InPage(b, p2) && Before(a, b) && (a.index != b.index ==> chain[a.index] != chain[b.index]);
    hide Packed, Distinct;
    PagesApart(chain[a.index], a, chain[b.index], b);
    MultiplePages(chain[a.index], p2);
    MultipleSum(4096 * chain[a.index], a.offset, Pow2(p2));
  }

  lemma PagesApart(p: nat, a: Place, q: nat, b: Place)
    requires a.offset + a.size <= 4096 && b.offset + b.size <= 4096 && (p != q || a.offset + a.size <= b.offset)
    ensures 4096 * p + a.offset + a.size <= 4096 * q + b.offset || 4096 * q + b.offset + b.size <= 4096 * p + a.offset
  {
  }

  /** The header pointers lead from page to page; where the last one leads is left open. */
  ghost predicate Chained(next: map<nat, nat>, chain: seq<nat>) {
    && Distinct(chain)
    && (forall i :: 0 <= i < |chain| ==> chain[i] != 0 && chain[i] in next)
    && (forall i {:trigger chain[i]} :: 0 <= i < |chain| - 1 ==> next[chain[i]] == chain[i + 1])
  }

  lemma ChainedMore(next: map<nat, nat>, chain: seq<nat>, page: nat)
    requires chain != []
    ensures Chained(next, chain) && page !in chain && page != 0 && page in next ==>
              Chained(next[chain[|chain| - 1] := page], chain + [page])
  {
  }

  /** Where following the header pointers k times leads. */
  function Follow(next: map<nat, nat>, page: nat, k: nat): nat {
    if k == 0 then page else
      var p := Follow(next, page, k - 1);
      if p in next then next[p] else 0
  }

  lemma {:induction false} FollowChain(next: map<nat, nat>, chain: seq<nat>, k: nat)
    requires Chained(next, chain) && k <= |chain| && chain != []
    ensures Follow(next, chain[0], k) == if k < |chain| then chain[k] else next[chain[|chain| - 1]]
  {
    if k > 0 { FollowChain(next, chain, k - 1); }
  }

  /** Deleting walks over exactly the pages of the arena if and only if the last page's first word is null: a fresh
      page's header is never cleared (line 63). */
  lemma WalkEndsWithChain(next: map<nat, nat>, chain: seq<nat>)
    requires Chained(next, chain) && chain != []
    ensures (Follow(next, chain[0], |chain|) == 0 &&
             forall k: nat :: k < |chain| ==> Follow(next, chain[0], k) == chain[k])
            <==> next[chain[|chain| - 1]] == 0
  {
    FollowChain(next, chain, |chain|);
    forall k: nat | k < |chain| ensures Follow(next, chain[0], k) == chain[k] { FollowChain(next, chain, k); }
  }

  /** The state of an arena: its chained pages, the blocks given out, and how far the last page is used. */
  ghost predicate Shape(next: map<nat, nat>, chain: seq<nat>, bs: seq<Place>, p2: nat, page: nat, top: nat)
    ensures Shape(next, chain, bs, p2, page, top) ==> chain != [] && Distinct(chain) && p2 <= 30
    ensures Shape(next, chain, bs, p2, page, top) ==> chain[|chain| - 1] == page != 0
  {
    && p2 <= 30 && Chained(next, chain) && chain != [] && chain[|chain| - 1] == page
    && Packed(bs, p2, |chain|, top) && top % Pow2(p2) == 0 && HeaderSize(|chain| - 1) <= top
    && (Usable(p2) ==> top <= 4096)
    && (|chain| == 1 ==> next[chain[0]] == 0)
  }

  /** A block is cut off the last page. */
  lemma ShapeBump(next: map<nat, nat>, chain: seq<nat>, bs: seq<Place>, p2: nat, page: nat, top: nat, size: nat)
    ensures Shape(next, chain, bs, p2, page, top) && size % Pow2(p2) == 0 && (Usable(p2) ==> top + size <= 4096)
            ==> Shape(next, chain, bs + [Place(|chain| - 1, top, size)], p2, page, top + size)
  {
    if Shape(next, chain, bs, p2, page, top) && size % Pow2(p2) == 0 && (Usable(p2) ==> top + size <= 4096) {
      hide Pow2;
      PackedMore(bs, p2, |chain|, top, size);
      MultipleSum(top, size, Pow2(p2));
    }
    hide Chained, Packed;
  }

  /** A fresh page is chained behind the last one. */
  lemma ShapePage(next: map<nat, nat>, chain: seq<nat>, bs: seq<Place>, p2: nat, page: nat, top: nat, more: nat)
    ensures Shape(next, chain, bs, p2, page, top) && more !in chain && more != 0 && more in next
            ==> Shape(next[page := more], chain + [more], bs, p2, more, AlignP2(8, p2))
  {
    if Shape(next, chain, bs, p2, page, top) && more !in chain && more != 0 && more in next {
      ChainedMore(next, chain, more);
      PackedPage(bs, p2, |chain|, top, AlignP2(8, p2));
      StartOffsets(p2);
    }
    hide *;
  }

  lemma ShapeStart(next: map<nat, nat>, p2: nat, page: nat)
    requires p2 <= 30 && page != 0
    ensures Shape(next[page := 0], [page], [], p2, page, AlignP2(32, p2))
  {
    StartOffsets(p2);
    hide AlignP2, Pow2;
  }

  /** Where blocks may start, in the first page and in a fresh one; a 32-bit int holds it up to 2^30. */
  lemma StartOffsets(p2: nat)
    requires p2 <= 30
    ensures AlignP2(8, p2) >= 8 && AlignP2(32, p2) >= 32
    ensures AlignP2(8, p2) % Pow2(p2) == 0 && AlignP2(32, p2) % Pow2(p2) == 0
    ensures AlignP2(8, p2) < 0x8000_0000 && AlignP2(32, p2) < 0x8000_0000
    ensures Usable(p2) ==> AlignP2(8, p2) <= 4096 && AlignP2(32, p2) <= 4096
  {
    PowerBelow31(p2);
    AlignRoundsUp(8, p2);
    AlignRoundsUp(32, p2);
    if Usable(p2) { HeaderOffsets(p2); }
    hide AlignP2, Pow2;
  }

  lemma PowerBelow31(p2: nat)
    requires p2 <= 30
    ensures Pow2(p2) <= 0x4000_0000
  {
    PowerValues();
    if p2 < 30 { PowMonotone(p2, 30); }
  }

  /** Step i of the walk: page i is not among those before it, and its header leads to the next one. */
  lemma ChainStep(next: map<nat, nat>, chain: seq<nat>, bs: seq<Place>, p2: nat, page: nat, top: nat, i: nat)
    ensures Shape(next, chain, bs, p2, page, top) && i < |chain| ==>
              && chain[i] in chain && chain[i] != 0 && chain[i] in next && chain[i] !in Elems(chain[..i])
              && next[chain[i]] == (if i + 1 < |chain| then chain[i + 1] else next[page])
              && Elems(chain[..i + 1]) == Elems(chain[..i]) + {chain[i]}
    ensures Elems(chain[..0]) == {} && Elems(chain[..|chain|]) == Elems(chain)
  {
  }

  /** A size that passes the check is a multiple of the alignment, and fits a fresh page. */
  lemma SizeFits(size: nat, p2: nat)
    requires p2 <= 30
    ensures Rounded(size, p2) % Pow2(p2) == 0
    ensures Usable(p2) && Rounded(size, p2) < 4096 ==> AlignP2(8, p2) + Rounded(size, p2) <= 4096
  {
    AlignRoundsUp(size % 0x1_0000_0000, p2);
    if Usable(p2) { FreshPageFits(p2); }
    hide *;
  }

  /** `struct arena_pmm` in the page `first`, with the first word of every page: `next[page]` is the page the header
      points to, 0 for null, and whatever the page held before if it was never written. */
  class Arena {
    const pmm: Pmm.Allocator
    const first: nat
    const p2align: nat
    var next: map<nat, nat>
    var currentPage: nat
    var currentOffset: nat
    ghost var chain: seq<nat>
    ghost var blocks: seq<Place>

    /** Each page of the arena is managed by the page allocator, and not free there. */
    ghost predicate Held()
      reads this`chain, this`next, pmm, pmm.Repr
      ensures Held() ==> pmm.Valid() && this !in pmm.Repr
    {
      && pmm.Valid() && this !in pmm.Repr
      && (forall p :: p in chain ==> p in pmm.managed && p !in pmm.free && 4096 * p < 0x1_0000_0000_0000_0000)
      && pmm.managed <= next.Keys
    }

    ghost predicate Valid()
      reads this, pmm, pmm.Repr
      ensures Valid() <==>
              Held() && Shape(next, chain, blocks, p2align, currentPage, currentOffset) && chain[0] == first
    {
      Held() && Shape(next, chain, blocks, p2align, currentPage, currentOffset) && chain[0] == first
    }

    /** The initialisation of `make_arena_pmm_allocator` (lines 34-40) in the page it took. */
    constructor (pmm: Pmm.Allocator, p2align: nat, page: u64, next: map<nat, nat>)
      requires p2align <= 30 && pmm.Valid() && page != 0 && page % 4096 == 0
      requires page / 4096 in pmm.managed && page / 4096 !in pmm.free && pmm.managed <= next.Keys
      ensures Valid() && this.pmm == pmm && this.p2align == p2align && chain == [page / 4096] && blocks == []
      ensures this.next == next[page / 4096 := 0]
      ensures currentPage == page / 4096 && currentOffset == AlignP2(32, p2align)
    {
      hide AlignP2, Shape, Pmm.Allocator.Valid;
      ShapeStart(next, p2align, page / 4096);
      this.pmm, this.p2align, first := pmm, p2align, page / 4096;
      currentPage, currentOffset := page / 4096, AlignP2(32, p2align);
      this.next := next[page / 4096 := 0];
      chain, blocks := [page / 4096], [];
    }

    /** The pages of the arena are not free. */
    lemma Outside()
      ensures Valid() ==> pmm.free !! Elems(chain) && Distinct(chain)
    {
    }

    /** At the end the blocks given out do not overlap, and the last header is null if the memory is clean. */
    lemma Ending(blks: seq<Blk>, at: seq<nat>)
      ensures Valid() && Given(blks, at, chain, blocks) && Usable(p2align) ==>
                forall i, k :: 0 <= i < k < |blks| && blks[i] != Blk(0, 0) && blks[k] != Blk(0, 0) ==>
                  Apart(blks[i], blks[k])
      ensures Valid() && Clean(next, pmm.free, chain) ==> currentPage in next && next[currentPage] == 0
    {
      if Valid() && Given(blks, at, chain, blocks) && Usable(p2align) {
        GivenApart(blks, at, chain, blocks, p2align, currentOffset);
      }
      hide Given, Packed;
    }

    /** `arena_pmm_alloc` (lines 48-75). */
    method Alloc(size: u64) returns (blk: Blk)
      requires Valid()
      modifies this, pmm.Repr
      ensures Valid()
      ensures blk == Blk(0, 0) <==>
              Rounded(size, p2align) >= 4096
                || (old(currentOffset) + Rounded(size, p2align) > 4096 && old(pmm.free) == {})
      ensures blk == Blk(0, 0) ==> blocks == old(blocks) && chain == old(chain)
      ensures blk != Blk(0, 0) ==>
                && |blocks| == |old(blocks)| + 1 && blocks[..|blocks| - 1] == old(blocks)
                && blk.size == blocks[|blocks| - 1].size == Rounded(size, p2align)
                && blocks[|blocks| - 1].index < |chain| && blk.ptr == Address(chain, blocks[|blocks| - 1])
      ensures old(chain) <= chain && |chain| <= |old(chain)| + 1
      ensures pmm.managed == old(pmm.managed) && pmm.free + Elems(chain) == old(pmm.free + Elems(chain))
      ensures pmm.Repr == old(pmm.Repr)
      ensures forall p :: p in old(next) && p !in old(chain) ==> p in next && next[p] == old(next[p])
      ensures chain == old(chain) ==> next == old(next)
      ensures Rounded(size, p2align) < 4096 && old(currentOffset) + Rounded(size, p2align) <= 4096 ==>
                && chain == old(chain) && pmm.free == old(pmm.free) && currentPage == old(currentPage)
                && blk == Blk(4096 * old(currentPage) + old(currentOffset), Rounded(size, p2align))
                && currentOffset == old(currentOffset) + Rounded(size, p2align)
      ensures Rounded(size, p2align) < 4096 < old(currentOffset) + Rounded(size, p2align) && old(pmm.free) != {} ==>
                && chain == old(chain) + [currentPage] && currentPage in old(pmm.free)
                && pmm.free == old(pmm.free) - {currentPage} && next == old(next)[old(currentPage) := currentPage]
                && blk == Blk(4096 * currentPage + AlignP2(8, p2align), Rounded(size, p2align))
                && currentOffset == AlignP2(8, p2align) + Rounded(size, p2align)
      ensures blk == Blk(0, 0) ==>
                next == old(next) && pmm.free == old(pmm.free) && currentPage == old(currentPage)
                && currentOffset == old(currentOffset)
    {
      hide Rounded, AlignP2, Pow2, Shape, Held, Elems, Pmm.Allocator.Valid;
      var rounded := Rounded(size, p2align);
      if rounded >= 4096 {
        return Blk(0, 0);
      }
      SizeFits(size, p2align);
      if currentOffset + rounded > 4096 {
        var taken := NextPage();
        if !taken {
          return Blk(0, 0);
        }
      }
      blk := Blk(4096 * currentPage + currentOffset, rounded);
      ShapeBump(next, chain, blocks, p2align, currentPage, currentOffset, rounded);
      blocks := blocks + [Place(|chain| - 1, currentOffset, rounded)];
      currentOffset := currentOffset + rounded;
    }

    /** Takes another page and chains it, leaving the first word of the new page as it was (lines 57-67). */
    method NextPage() returns (taken: bool)
      requires Valid()
      modifies this`next, this`currentPage, this`currentOffset, this`chain, pmm.Repr
      ensures Valid() && taken == (old(pmm.free) != {})
      ensures !taken ==> chain == old(chain) && currentOffset == old(currentOffset)
      ensures taken ==> old(chain) <= chain && |chain| == |old(chain)| + 1 && currentOffset == AlignP2(8, p2align)
      ensures pmm.managed == old(pmm.managed) && pmm.free + Elems(chain) == old(pmm.free + Elems(chain))
      ensures pmm.Repr == old(pmm.Repr)
      ensures forall p :: p in old(next) && p !in old(chain) ==> p in next && next[p] == old(next[p])
      ensures !taken ==> next == old(next) && currentPage == old(currentPage) && pmm.free == old(pmm.free)
      ensures taken ==>
                && chain == old(chain) + [currentPage] && currentPage in old(pmm.free)
                && pmm.free == old(pmm.free) - {currentPage} && next == old(next)[old(currentPage) := currentPage]
    {
      hide AlignP2, Shape, Pmm.Allocator.Valid;
      var page := pmm.AllocatePage();
      if page == 0 {
        return false;
      }
      var hdr := page / 4096;
      ShapePage(next, chain, blocks, p2align, currentPage, currentOffset, hdr);
      next := next[currentPage := hdr];
      chain := chain + [hdr];
      currentPage := hdr;
      currentOffset := AlignP2(8, p2align);
      return true;
    }

    /** `arena_pmm_del` (lines 77-90): every page goes back once, without a panic, if the last header is null. */
    method Del()
      requires Valid() && currentPage in next && next[currentPage] == 0
      modifies pmm.Repr
      ensures pmm.Valid() && pmm.managed == old(pmm.managed) && pmm.free == old(pmm.free) + Elems(chain)
      ensures pmm.Repr == old(pmm.Repr)
    {
      hide Pmm.Allocator.Valid, Shape, Elems;
      ChainStep(next, chain, blocks, p2align, currentPage, currentOffset, 0);
      var page := first;
      ghost var i := 0;
      while page != 0
        invariant pmm.Valid() && pmm.Repr == old(pmm.Repr) && pmm.managed == old(pmm.managed)
        invariant 0 <= i <= |chain| && page == (if i < |chain| then chain[i] else 0)
        invariant pmm.free == old(pmm.free) + Elems(chain[..i])
        invariant forall p :: p in chain ==>
                    p in pmm.managed && p !in old(pmm.free) && 4096 * p < 0x1_0000_0000_0000_0000
        decreases |chain| - i
      {
        ChainStep(next, chain, blocks, p2align, currentPage, currentOffset, i);
        var physical: u64 := 4096 * page;
        page := next[page];
        var outcome := pmm.FreePage(physical);
        assert outcome.Freed?;
        i := i + 1;
      }
      ChainStep(next, chain, blocks, p2align, currentPage, currentOffset, i);
    }
  }

  /** `make_arena_pmm_allocator` (lines 26-46); null when no page is free. */
  method MakeArena(pmm: Pmm.Allocator, p2align: nat, next: map<nat, nat>) returns (arena: Arena?)
    requires pmm.Valid() && p2align <= 30 && pmm.managed <= next.Keys
    modifies pmm.Repr
    ensures pmm.Valid() && pmm.Repr == old(pmm.Repr) && pmm.managed == old(pmm.managed)
    ensures arena == null <==> old(pmm.free) == {}
    ensures arena == null ==> pmm.free == old(pmm.free)
    ensures arena != null ==>
              && fresh(arena) && arena.Valid() && arena.pmm == pmm && arena.p2align == p2align && arena.blocks == []
              && |arena.chain| == 1 && arena.next == next[arena.chain[0] := 0]
              && pmm.free + Elems(arena.chain) == old(pmm.free)
              && arena.currentPage == arena.chain[0] && arena.currentOffset == AlignP2(32, p2align)
  {
    var page := pmm.AllocatePage();
    if page == 0 {
      return null;
    }
    hide Pmm.Allocator.Valid, Shape;
    arena := new Arena(pmm, p2align, page, next);
  }

  /** Unused pages are zeroed, and the last page of the arena has no successor. */
  ghost predicate Clean(next: map<nat, nat>, free: set<nat>, chain: seq<nat>) {
    && (forall p :: p in free ==> p in next && next[p] == 0)
    && chain != [] && chain[|chain| - 1] in next && next[chain[|chain| - 1]] == 0
  }

  /** A page that joins the chain was an unused one. */
  lemma CleanKept(next: map<nat, nat>, free: set<nat>, chain: seq<nat>, next': map<nat, nat>, free': set<nat>,
      chain': seq<nat>)
    requires Clean(next, free, chain) && Distinct(chain') && free' + Elems(chain') == free + Elems(chain)
               && free' !! Elems(chain')
    requires forall p :: p in next && p !in chain ==> p in next' && next'[p] == next[p]
    requires chain <= chain' && |chain'| <= |chain| + 1 && (chain' == chain ==> next' == next)
    ensures Clean(next', free', chain')
  {
    var last := chain'[|chain'| - 1];
    assert last in Elems(chain');
    forall p | p in free' ensures p in next' && next'[p] == 0 {
      assert p !in Elems(chain') && (p in chain ==> p in chain');
    }
    if chain' != chain {
      assert chain == chain'[..|chain|];
      assert last !in chain;
      assert last in free;
    }
  }

  /** Each block returned is null or the place at[i] of the arena, in order. */
  ghost predicate Given(blks: seq<Blk>, at: seq<nat>, chain: seq<nat>, bs: seq<Place>) {
    && |at| == |blks|
    && (forall i :: 0 <= i < |blks| && blks[i] != Blk(0, 0) ==>
          at[i] < |bs| && bs[at[i]].index < |chain| && blks[i] == Blk(Address(chain, bs[at[i]]), bs[at[i]].size))
    && (forall i, k :: 0 <= i < k < |blks| && blks[i] != Blk(0, 0) && blks[k] != Blk(0, 0) ==> at[i] < at[k])
  }

  lemma GivenMore(blks: seq<Blk>, at: seq<nat>, chain: seq<nat>, bs: seq<Place>, chain': seq<nat>, bs': seq<Place>,
      blk: Blk)
    requires Given(blks, at, chain, bs) && chain <= chain'
    requires blk == Blk(0, 0) ==> bs' == bs
    requires blk != Blk(0, 0) ==>
               && |bs'| == |bs| + 1 && bs'[..|bs|] == bs && bs'[|bs|].index < |chain'|
               && blk == Blk(Address(chain', bs'[|bs|]), bs'[|bs|].size)
    ensures Given(blks + [blk], at + [|bs|], chain', bs')
  {
    forall i | 0 <= i < |blks| && blks[i] != Blk(0, 0)
      ensures at[i] < |bs| && bs[at[i]].index < |chain| && bs'[at[i]] == bs[at[i]]
                && Address(chain', bs[at[i]]) == Address(chain, bs[at[i]])
    {
      assert bs[at[i]] == if blk == Blk(0, 0) then bs'[at[i]] else bs'[..|bs|][at[i]];
      assert chain == chain'[..|chain|];
    }
  }

  /** Blocks of one arena do not overlap. */
  ghost predicate Apart(a: Blk, b: Blk) {
    a.ptr + a.size <= b.ptr || b.ptr + b.size <= a.ptr
  }

  lemma GivenApart(blks: seq<Blk>, at: seq<nat>, chain: seq<nat>, bs: seq<Place>, p2: nat, top: nat)
    requires Given(blks, at, chain, bs) && Distinct(chain) && Packed(bs, p2, |chain|, top) && Usable(p2)
    ensures forall i, k :: 0 <= i < k < |blks| && blks[i] != Blk(0, 0) && blks[k] != Blk(0, 0) ==>
              Apart(blks[i], blks[k])
  {
    forall i, k | 0 <= i < k < |blks| && blks[i] != Blk(0, 0) && blks[k] != Blk(0, 0) ensures Apart(blks[i], blks[k]) {
      BlocksApart(chain, bs, p2, top, at[i], at[k]);
    }
  }

  /** The life of an arena, as in `test_arena` (src/kernel.c lines 334-346) for any sizes: made, used and deleted. When
      unused pages are zeroed, the allocator has every page back in the end. */
  method Lifetime(pmm: Pmm.Allocator, p2align: nat, sizes: seq<u64>, next: map<nat, nat>) returns (blks: seq<Blk>)
    requires pmm.Valid() && p2align <= 30 && pmm.managed <= next.Keys
    requires forall p :: p in pmm.free ==> next[p] == 0
    modifies pmm.Repr
    ensures pmm.Valid() && pmm.Repr == old(pmm.Repr) && pmm.managed == old(pmm.managed) && pmm.free == old(pmm.free)
    ensures |blks| == if old(pmm.free) == {} then 0 else |sizes|
    ensures forall i :: 0 <= i < |blks| && blks[i] != Blk(0, 0) ==> blks[i].size == Rounded(sizes[i], p2align)
    ensures 3 <= p2align <= 12 ==>
              forall i, k :: 0 <= i < k < |blks| && blks[i] != Blk(0, 0) && blks[k] != Blk(0, 0) ==>
                blks[i].ptr + blks[i].size <= blks[k].ptr || blks[k].ptr + blks[k].size <= blks[i].ptr
  {
    hide Pmm.Allocator.Valid, Shape, Clean, Given, Rounded, Elems;
    blks := [];
    var arena := MakeArena(pmm, p2align, next);
    if arena == null {
      return;
    }
    ghost var at: seq<nat> := [];
    LifeBegins(next, pmm.free, arena.chain, arena.next, old(pmm.free));
    for i := 0 to |sizes|
      invariant fresh(arena) && arena.Valid() && arena.pmm == pmm && arena.p2align == p2align
      invariant pmm.Repr == old(pmm.Repr) && pmm.managed == old(pmm.managed)
                  && pmm.free + Elems(arena.chain) == old(pmm.free)
      invariant Clean(arena.next, pmm.free, arena.chain) && Given(blks, at, arena.chain, arena.blocks) && |blks| == i
      invariant forall k :: 0 <= k < i && blks[k] != Blk(0, 0) ==> blks[k].size == Rounded(sizes[k], p2align)
    {
      ghost var next0, free0, chain0, bs0 := arena.next, pmm.free, arena.chain, arena.blocks;
      var blk := arena.Alloc(sizes[i]);
      arena.Outside();
      CleanKept(next0, free0, chain0, arena.next, pmm.free, arena.chain);
      GivenMore(blks, at, chain0, bs0, arena.chain, arena.blocks, blk);
      at := at + [|bs0|];
      blks := blks + [blk];
    }
    arena.Ending(blks, at);
    arena.Del();
  }

  lemma LifeBegins(next: map<nat, nat>, free: set<nat>, chain: seq<nat>, next': map<nat, nat>, all: set<nat>)
    requires |chain| == 1 && next' == next[chain[0] := 0] && free + Elems(chain) == all
    requires forall p :: p in all ==> p in next && next[p] == 0
    ensures Clean(next', free, chain) && Given([], [], chain, [])
  {
  }
}
