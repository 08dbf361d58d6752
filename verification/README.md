# Ukulele's memory stack in Dafny

Ukulele is a small x86_64 kernel. This project models its memory stack, and three smaller pieces of arithmetic and
loops, and proves what they keep over every run.

| file | models |
|---|---|
| `words.dfy` | 64-bit words as numbers: masks, shifts, wrap-around, `ROUND_UP_P2` and `ROUND_DOWN_P2` |
| `sequences.dfy` | distinct sequences and their element sets; their sizes |
| `pmm.dfy` | the physical page allocator: a class over bitmaps, refining a set of free pages |
| `memmap.dfy` | the kernel's loop that adds every usable memory range to it |
| `entries.dfy`, `paging.dfy`, `walk.dfy` | page map entries; prefixes, slots and blocks; the walker's index arithmetic |
| `tables.dfy`, `effects.dfy` | the tree of tables in physical memory, its invariant, and the effects of walks |
| `spaces.dfy`, `runs.dfy` | `mmu_assign` and `mmu_remove` as map updates; shape, lookups, rights, runs |
| `reach.dfy` | which entries and pages the walker's 64-bit arithmetic leads to, whatever the tables hold |
| `mmu.dfy` | the page-table driver: a class whose methods are the walker and its callbacks |
| `stray.dfy` | `mmu_remove` where tables of the range are missing |
| `clients.dfy` | kernel code that takes a page, maps it at two places and gives everything back |
| `regions.dfy`, `nodes.dfy`, `vaddress.dfy` | the virtual address-space allocator: spans, linked nodes in memory, the class |
| `line.dfy` | `framebuffer_draw_line` |
| `arena.dfy` | the arena allocator |
| `digits.dfy`, `printf.dfy` | numerals and `vfprintf` |

How the pieces fit together:

- **Words.** Bit operations are defined on natural numbers, bit by bit, and linked to division and remainder by
  lemmas. Pages are named by frame numbers (address / 4096).
- **Page allocator.** The class keeps the 168 slots and their bitmaps as the source does. Ghost fields give the free
  and the managed frames; the control pages are neither. The source's panics on a double and on a bad free are outcomes
  of `FreePage`, and its callers prove that they do not occur. Bitmaps and control pages are kept apart from the memory
  in which page tables lie.
- **Page tables.** Memory is a map from frames to 512 entries. A ghost map names the tables by depth and prefix;
  `Tables.Inv` says that memory is exactly the tree of that map, that every table has a frame of its own which is not
  free, and that leaf entries are zero or present. `Effects.Effect` says what a walk does; effects of consecutive
  ranges and of consecutive levels add up, which is what the recursion of `apply_nodes` is proved by. The node
  callbacks, function pointers in the source, are the cases of `Effects.Visit`. Helper methods (`Descend`,
  `ReserveEntry`, `CollectEntry`, `EditEntry`) are parts of the callbacks with contracts of their own. `Spaces` and
  `Runs` then forget the walk: an assign or a remove is a relation between two states, and `PageTables.Assign` and
  `PageTables.Remove` are proved to establish it. Runs mix these calls with pages taken from the allocator and given back
  by others.
- **Address spaces.** A node is addressed by its storage page and slot, and `region` is the memory of the nodes; the
  list is edited through `next` fields and a cursor (`prev`, null for the list head), as the source's pointer to a
  pointer does. The field `allocated` of the source is called `inUse`, because `allocated` is a Dafny keyword. Line 164
  of `vaddress.c` stands under the comment "Shift block start" but assigns `end`. Both readings are modelled:
  `AsCommented` is `begin = address_end`, for which freeing is exact; `AsWritten` is the literal code, for which
  `Regions.LiteralFreeExact` gives the exact condition.
- **Arena.** `next` is the first word of every page, whatever an unused page may hold there.
- **Line.** What is drawn is defined without the loop, as the points of the exact line at parameters 0/n, 1/n, ..., n/n
  rounded to the nearest pixel.
- **Format.** `Printf.Rendered` says what a format prints; `Digits.ReadNumber` and `Printf.ReadSigned` read it back.

`mmu.h` names 2^44 as the end of the lower half; no code uses that constant, and the canonical check, which the model
follows, accepts the lower half up to 2^47.

Results that say the source does not do what one would expect, each with its exact condition:

- The walker wraps in the last slot of the root: it leaves its tables or its range exactly for the accepted ranges that
  reach that slot (`Reach.WalkExact`, `Reach.LastPageReached`, `Reach.WalkExample`; the cut at the root alone is
  `Spaces.RootBlocksExact`). The kernel's own mappings in `memory_map.md` lie there.
- `mmu_remove` follows absent tables into physical page 0 (`Stray.TablesExistExactly`). While that page holds no
  addresses, it still unmaps exactly its range, and besides it clears entries of page 0 (`Stray.RemoveAnyway`,
  `Stray.LeafPassEffect`, `Stray.FreshFallsOff`).
- `vaddress_free` as written (`Regions.LiteralFreeExact`, `Regions.LiteralFreeExample`, `Regions.AllocateThenFree`,
  `Regions.LiteralTightExact`; over whole runs `Regions.RunCoversExact`).
- `vaddress_allocate` returns NULL for a block at address 0 (`Regions.NullExact`, `Regions.NullExample`).
- `align_p2` wraps for sizes near 2^32 and truncates larger ones (`Arena.RoundedCovers`); the fresh-page path needs
  alignments from 2^3 to 2^12 (`Arena.FreshPageFits`, `Arena.AlignExamples`); deletion needs the last header to be null
  (`Arena.WalkEndsWithChain`).
- `%s` with a width and a precision (`Printf.StringPadding`, `Printf.StringPaddingExample`).

## Model

| member | source | states |
|---|---|---|
| Words.RoundDown | src/include/macros.h:15-15 | rounding down by a power of two subtracts the remainder, for every word |
| Words.RoundUp | src/include/macros.h:14-14 | rounding up gives the next multiple, and 0 exactly when that does not fit 64 bits |
| Pmm.CtrlAlloc | src/memory/pmm.c:148-161 | takes the least set bit of the bitmap and clears only that one; the panic at the end is unreachable |
| Pmm.CtrlInitialise | src/memory/pmm.c:76-90 | after initialisation exactly the first `pages` bits are set, so none at or above the page count |
| Pmm.DataFramesCount | src/memory/pmm.c:112-146 | a range contributes 32767 pages a full block and r - 1 for a remainder r of at least 64 when there are slots for these, and 32767 a slot otherwise |
| Pmm.BlocksAfterIs | src/memory/pmm.c:112-146 | a range of 64 to 32768 pages goes into the first idle slot, first page for control and the others free; a larger one goes on with what is left; smaller ones and ranges without a slot change nothing |
| Pmm.Allocator.RoomForRange | src/memory/pmm.c:112-146 | a range that meets no managed page, its end included, keeps clear of every block and control page, so it can be added whatever was added before |
| Pmm.Allocator.constructor | src/memory/pmm.c:69-74 | a new allocator manages no page and has 168 idle slots |
| Pmm.Allocator.SlotMeans | src/memory/pmm.c:44-58 | page j of a slot in use is managed, and free exactly when bit j % 64 of word j / 64 of its bitmap is set |
| Pmm.Allocator.SlotOf | src/memory/pmm.c:179-190 | every managed page lies in a slot in use |
| Pmm.Allocator.AllocatePage | src/memory/pmm.c:163-177 | 0 exactly when nothing is free; otherwise a non-zero aligned page that was free, the lowest of the first block that has one, and only it leaves the free set |
| Pmm.LowestMeans | src/memory/pmm.c:163-171 | the page allocated lies in the first block with a free page, and is its lowest |
| Pmm.Allocator.TakeFrom | src/memory/pmm.c:169-171 | takes the lowest free page of one block |
| Pmm.Allocator.FreePage | src/memory/pmm.c:179-207 | the free set gains exactly the page; both panics are characterised exactly: not managed, already free |
| Pmm.Allocator.GiveTo | src/memory/pmm.c:190-201 | the page of an owning block becomes free, or was free, which is the double-free panic |
| Pmm.Allocator.MarkFree | src/memory/pmm.c:198-199 | setting the bit and counting it adds one page to the free set |
| Pmm.Allocator.SetupEntry | src/memory/pmm.c:92-110 | the range becomes one block: a control page and all other pages free |
| Pmm.Allocator.Add | src/memory/pmm.c:112-146 | the splitting recursion ends and adds exactly the closed form of the range's data pages, new and free, for the slots there are; which slot gets which pages is exact, so calls chain |
| Pmm.Allocator.AddAt | src/memory/pmm.c:134-139 | one block and the recursion on the rest together give the closed form, in pages and in slots |
| MemoryMap.AddAll | src/kernel.c:143-161 | adding the usable entries of any memory map without overlaps gives exactly the union of what each contributes with the slots left to it |
| MemoryMap.ApartInBytes | src/kernel.c:143-161 | page-aligned entries without common bytes meet the conditions of the loop |
| MemoryMap.MapYields | src/kernel.c:143-161 | no page is counted twice: the map yields the sum of what its entries yield with the slots left to each |
| Pmm.Allocator.CountPages | src/memory/pmm.c:209-228 | the statistics are the sizes of the sets, and total = free + used + overhead |
| Entries.ConvertedFlags | src/drivers/mmu.c:54-67 | each flag bit is set exactly when asked for, present always, and no address bit ever |
| Entries.ConvertedValue | src/drivers/mmu.c:54-67 | the converted word as a number: 1, plus 4 for bit 0 of the flags, 8 for bit 3, 2 for bit 2, and 2^63 without bit 1 |
| Entries.EntryBits | src/drivers/mmu_reg.h:8-19 | which bits of a word are address, present, writable, user, write-through, large and no-execute |
| Entries.Fields | src/drivers/mmu.c:220-229 | address and flags packed into an entry come back unchanged |
| Entries.TableEntryFields | src/drivers/mmu.c:69-71 | a table entry leads to its frame, is present, and allows user, write and execute |
| Entries.TableEntryValue | src/drivers/mmu.c:155-155 | a table entry is its frame's address plus 7 |
| Walk.IndicesAre | src/drivers/mmu.c:112-124 | the base-relative 64-bit arithmetic gives exactly the slots on the paths of the range's pages |
| Walk.BlocksAre | src/drivers/mmu.c:128-131 | the bounds passed to a child are its own non-empty part of the range |
| Walk.BlockBounds | src/drivers/mmu.c:124-143 | the child ranges partition the range in order, each inside its slot |
| Spaces.CanonicalHalves | src/drivers/mmu.c:30-35 | canonical means in one of the two halves |
| Spaces.AcceptedExactly | src/drivers/mmu.c:252-265 | the checks on a range: page aligned, not empty, and both ends below 2^47 or its start at or above 2^64 - 2^47 |
| Spaces.AcceptedPages | src/drivers/mmu.c:252-265 | every address of an accepted range is canonical and in the half of its start |
| Spaces.RootBlocksExact | src/drivers/mmu.c:129-131 | the cut of an accepted range at the root's slots is right if and only if the range ends by the start of slot 511 of the higher half |
| Spaces.LastSlotExample | src/drivers/mmu.c:129-131 | an accepted one-page range in slot 511 whose child range ends at 0; `Reach.WalkExample` goes on from there |
| Reach.WalkExact | src/drivers/mmu.c:106-145 | over all four levels: every index of an accepted range's walk lies in its table and the pages reached are exactly those of the range, if and only if the range ends by the start of slot 511 of the higher half |
| Reach.InnerWalk | src/drivers/mmu.c:106-145 | from any depth, a walk below that slot stays in its tables and reaches exactly its pages |
| Reach.LastPageReached | src/drivers/mmu.c:129-131 | every accepted range that reaches slot 511 also reaches the last page of the address space, outside the range |
| Reach.WalkExample | src/drivers/mmu.c:112-131 | one page in slot 511: the last-level loop over 512 entries has the bound 0x40000 |
| Runs.IndexIsExtracted | src/drivers/mmu.c:336-342 | shift and mask give the same index as the walker's base-relative one |
| Runs.LookupStepReads | src/drivers/mmu.c:344-367 | one lookup step as numbers, for any table: index, present and large bits, address field and the depth returned |
| Runs.LeafInMemory | src/drivers/mmu_reg.h:21-32 | the leaf entry of a page is what four indexed reads of memory find from the root on (Intel SDM volume 3A, section 4.5) |
| Tables.AddInv | src/drivers/mmu.c:153-157 | linking a zeroed page from outside the tree keeps the tree well formed and translates every page as before |
| Tables.DropInv | src/drivers/mmu.c:175-185 | unlinking an empty table keeps the tree well formed and translates every page as before |
| Tables.WriteInv | src/drivers/mmu.c:220-238 | a leaf callback changes the entry of one page and nothing else |
| Tables.TotalKept | src/drivers/mmu.c:77-84 | tables plus free pages are constant whenever frames only move between the tree and the allocator |
| Mmu.PageTables.constructor | src/drivers/mmu.c:22-28 | a zeroed root maps no page |
| Mmu.PageTables.Allocate | src/drivers/mmu.c:77-84 | a zeroed page that leaves the free set |
| Mmu.PageTables.ApplyNodes | src/drivers/mmu.c:106-145 | a walk with any callback has the callback's effect on exactly the pages of the range, at every depth, and runs a leaf callback once for each page |
| Mmu.PageTables.VisitNode | src/drivers/mmu.c:142-142 | the callback's effect on the pages below one entry |
| Mmu.PageTables.Descend | src/drivers/mmu.c:159-160 | the recursion below a callback, or nothing below the last tables |
| Mmu.PageTables.NodeReserve | src/drivers/mmu.c:147-161 | afterwards every table on the paths of the child's range exists; no translation changes |
| Mmu.PageTables.ReserveEntry | src/drivers/mmu.c:153-157 | the child's table exists afterwards, and is the only one that may be new |
| Mmu.PageTables.NodeGc | src/drivers/mmu.c:163-186 | afterwards no table at or below the entry on the range's paths is empty; no translation changes |
| Mmu.PageTables.CollectEntry | src/drivers/mmu.c:175-185 | the table is freed, once and without a panic, exactly when none of its 512 entries is present |
| Mmu.PageTables.NodeLeaf | src/drivers/mmu.c:199-212 | the leaf callback reaches each page of the range once and no other page |
| Mmu.PageTables.EditEntry | src/drivers/mmu.c:211-211 | one entry of the last level takes the callback's word |
| Mmu.PageTables.Assign | src/drivers/mmu.c:243-297 | the call is an assign step: the word of every leaf entry afterwards is stated as a number, all other pages translate as before, exactly the missing tables are taken, one leaf callback a page |
| Mmu.PageTables.Remove | src/drivers/mmu.c:310-328 | the call is a remove step: its range is unmapped, all else translates as before, exactly the emptied tables are given back |
| Mmu.MappedHasTables | src/drivers/mmu.c:199-212 | a range whose pages are all mapped has the tables that removing it needs |
| Mmu.PageTables.TakePage | src/kernel.c:359-359 | a page taken by someone else leaves tree and page map as they are: a take step |
| Mmu.PageTables.GivePage | src/kernel.c:377-377 | a page that is neither free nor a table can be given back without a panic: a give step |
| Stray.TablesExistExactly | src/drivers/mmu.c:199-212 | the tables of a range's paths all exist if and only if the leaf walk is led to physical page 0 for no page of the range |
| Stray.ClearedFrame | src/drivers/mmu.c:199-212 | at each depth the leaf walk is in the page's table where there is one, and else in physical page 0 (when that holds no addresses) |
| Stray.LeafPassEffect | src/drivers/mmu.c:199-240 | the memory after the leaf pass, tables there or not: the range is unmapped, entry v % 512 of page 0 is 0 for every page v without a table, no other word changes |
| Stray.ClearPages | src/drivers/mmu.c:106-145 | the recursive walker, following address fields only, does exactly that pass |
| Stray.RemoveAnyway | src/drivers/mmu.c:310-328 | removing any range, its tables there or not: the range is unmapped, its emptied tables are given back, and besides only entries of page 0 are cleared |
| Stray.NothingAstray | src/drivers/mmu.c:310-328 | with all tables there that is the removal of `Mmu.PageTables.Remove` |
| Stray.FreshFallsOff | src/drivers/mmu.c:310-328 | in a space with only a root every removal goes to physical page 0 |
| Spaces.AssignPasses | src/drivers/mmu.c:295-296 | the reserve pass and the leaf pass together are one assign step |
| Spaces.RemovePasses | src/drivers/mmu.c:326-327 | the leaf pass and the collecting pass together are one remove step; the second changes no translation |
| Spaces.ShapeFollowsPages | src/drivers/mmu.c:147-186 | in a canonical tree a table below the root exists exactly when a page under its prefix is mapped |
| Spaces.SamePagesSameShape | src/drivers/mmu.c:147-186 | two canonical trees that map the same pages have the same tables |
| Spaces.AssignCanonical | src/drivers/mmu.c:270-297 | an assign keeps the tree canonical |
| Spaces.RemoveCanonical | src/drivers/mmu.c:310-328 | a remove keeps the tree canonical |
| Runs.AssignedWord | src/drivers/mmu.c:220-229 | page v of the range gets the word p + 4096 (v - a) plus a bit for each flag, all 64 bits of it |
| Mmu.AssignedLeaves | src/drivers/mmu.c:284-296 | the same of every leaf entry after an assign, and no other leaf changes |
| Runs.LookupFindsLeaf | src/drivers/mmu.c:344-367 | repeated lookup steps from the root read the leaf entry of the address's page, or fail when it is absent |
| Runs.LookupAfterAssign | src/drivers/mmu.c:270-297 | after an assign, lookups take every address of the range to its place and every other canonical address where they did before |
| Runs.LookupAfterRemove | src/drivers/mmu.c:310-328 | after a remove, lookups fail in the range and are unchanged elsewhere |
| Runs.EffectiveRights | src/drivers/mmu.c:69-71 | user, write and no-execute combined over a walk are those of the leaf (Intel SDM volume 3A, section 4.6) |
| Runs.RightsCombine | src/drivers/mmu.c:69-71 | user and write access need their bit at all four levels, one execute-disable bit forbids fetches |
| Runs.RightsAfterAssign | src/drivers/mmu.c:54-67 | the effective rights of an assigned page are the ones requested |
| Runs.RunTranslates | src/drivers/mmu.c:270-328 | over every run the tables hold what the calls make of the first page map |
| Runs.RunKeeps | src/drivers/mmu.c:147-186 | over every run of driver calls and of pages taken and given back: well formed, canonical, the root stays, tables and free pages have exactly the frames that taking and giving leave, other memory is untouched |
| Runs.FreeChanged | src/kernel.c:359-377 | the tree does not depend on which other pages are free |
| Runs.RunRestores | src/kernel.c:356-407 | any run that leaves the page map as it was, never unmaps what was mapped at first and gives back what it took restores the tables with their frames and the free set |
| Clients.TestMmu | src/kernel.c:356-378 | at any two unmapped pages and with 7 free pages: no panic, and page map, tables and free set are restored |
| Runs.RunsShareShape | src/drivers/mmu.c:147-186 | two runs that stand for the same page map end with the same tables |
| Runs.AssignThenRemove | src/drivers/mmu.c:270-328 | assigning an unmapped range and removing it restores translation, tables with their frames, and the free set |
| Regions.FreedCovers | src/memory/vaddress.c:136-188 | with line 164 as commented, freeing removes exactly [a, e) from the covered addresses, for every list and range |
| Regions.FreedPieces | src/memory/vaddress.c:136-188 | with line 164 as commented the regions left are exactly the parts of the old ones before a and from e on |
| Regions.LiteralFreeCovers | src/memory/vaddress.c:136-188 | what the literal code covers after any free: a region that starts in [a, e] and ends beyond e keeps only what lies before e, any other loses [a, e) |
| Regions.FreedSorted | src/memory/vaddress.c:136-188 | under either reading the list stays ordered, disjoint and within its bounds |
| Regions.FreedTight | src/memory/vaddress.c:136-188 | with line 164 as commented no empty region appears |
| Regions.FreedLength | src/memory/vaddress.c:174-184 | at most one region is split |
| Regions.LiteralFreeExact | src/memory/vaddress.c:162-166 | the literal code frees exactly [a, e) if and only if no region has a <= begin <= e < end |
| Regions.LiteralFreeExample | src/memory/vaddress.c:162-166 | a region freed at its front: the literal code keeps the front and loses the back |
| Regions.AllocatedIsFirstFit | src/memory/vaddress.c:99-134 | for size > 0, the lowest address whose block is in the space and meets no covered address, and none exactly when there is no such block |
| Regions.NullExact | src/memory/vaddress.c:99-134 | the returned pointer is NULL exactly when no block fits, if and only if the space does not begin at address 0 with a large enough first gap |
| Regions.PointerMeans | src/memory/vaddress.c:99-134 | a pointer other than NULL is the lowest block that fits, and exactly its addresses become covered |
| Regions.HandsOutMeans | src/memory/vaddress.c:99-134 | the same spelled out address by address |
| Regions.NullExample | src/memory/vaddress.c:108-116 | an empty space from address 0 on: a block is taken and NULL returned |
| Regions.AllocatedCovers | src/memory/vaddress.c:99-134 | exactly the returned block becomes covered |
| Regions.AllocatedSorted | src/memory/vaddress.c:99-134 | the list stays ordered, disjoint and in the space |
| Regions.AllocatedTight | src/memory/vaddress.c:99-134 | for size > 0 no empty region appears |
| Regions.AllocateThenFree | src/memory/vaddress.c:99-188 | freeing a block just allocated gives the same list back; as written, if and only if no region starts where the block ends |
| Regions.RunsStaySorted | src/memory/vaddress.c:99-188 | over every run, under either reading of line 164 and with any sizes, the list is ordered, disjoint and in the space |
| Regions.RunCovers | src/memory/vaddress.c:99-188 | over every run the list covers exactly the addresses given out and not freed since, if line 164 is as commented or its branch is not taken |
| Regions.RunCoversExact | src/memory/vaddress.c:162-166 | the list is right after every call if and only if no call takes that branch as written |
| Regions.KernelSession | src/kernel.c:308-332 | the kernel's own calls: the three pointers and the lists after every call |
| Regions.RunsGiveUnused | src/memory/vaddress.c:99-134 | over every run with sizes above 0 and line 164 as commented, a block given out lies in the space and holds no address in use |
| Regions.RunsStayTight | src/memory/vaddress.c:99-188 | over every run with sizes above 0 and line 164 as commented no region is empty |
| Regions.LiteralTightExact | src/memory/vaddress.c:162-166 | the literal code leaves no empty region if and only if no region starts at the end of the freed range |
| Nodes.NodesBalance | src/memory/vaddress.c:204-222 | the entry counters add up to the lengths of both lists |
| Nodes.AllInUse | src/memory/vaddress.c:66-97 | without a free node and without room in a block, every block has 100 nodes in the list |
| Vaddress.AddressSpace.constructor | src/memory/vaddress.c:51-64 | an empty space without nodes and blocks, that holds one page |
| Vaddress.AddressSpace.FindFreeNode | src/memory/vaddress.c:66-97 | a blank node of neither list: the first idle one, else the next entry of the first block with room, else the first entry of a new page, which only then is taken |
| Vaddress.AddressSpace.TakeEntry | src/memory/vaddress.c:78-85 | the next entry of a block was handed out to nobody |
| Vaddress.AddressSpace.NewBlock | src/memory/vaddress.c:87-94 | a page from the allocator becomes the first block |
| Vaddress.AddressSpace.Allocate | src/memory/vaddress.c:99-134 | the list edited in place is the specified list; the pointer is the lowest block that fits, whose addresses alone become covered, and 0 means that none fits except for a block at address 0; pages are conserved |
| Vaddress.AddressSpace.PushHead | src/memory/vaddress.c:108-116 | a region in front of the list, the others unchanged |
| Vaddress.AddressSpace.Edit | src/memory/vaddress.c:162-172 | one region changes, the others and all links stay |
| Vaddress.AddressSpace.Unlink | src/memory/vaddress.c:155-160 | one region leaves the list through the cursor and its node joins the free list |
| Vaddress.AddressSpace.Split | src/memory/vaddress.c:174-184 | one region becomes two, the second in a node of its own |
| Vaddress.AddressSpace.CutRegion | src/memory/vaddress.c:151-184 | one region becomes what freeing leaves of it, and the cursor stands behind that |
| Vaddress.AddressSpace.Free | src/memory/vaddress.c:136-188 | the list edited through the cursor is the specified list, under either reading of line 164; no node is lost or shared; a page is needed only for a split |
| Vaddress.AddressSpace.CountNodes | src/memory/vaddress.c:204-222 | the counts of `vaddress_print` always agree, so its assertion cannot fail |
| Vaddress.AddressSpace.PagesGiveNodes | src/memory/vaddress.c:66-97 | a node can be had while the space's and the free pages are more than 1 + regions / 100 |
| Vaddress.AddressSpace.Serve | src/memory/vaddress.c:99-188 | a whole run of calls: the list is that of the specified run, every pointer is the lowest fit at its time, pages are conserved, and more than 1 + calls / 100 pages suffice |
| Vaddress.UseSpace | src/kernel.c:308-332 | the same for a new space |
| Line.LineStaysInBox | src/drivers/fb32.c:21-44 | the points start and end on the end points and stay in their bounding box |
| Line.CellIs | src/drivers/fb32.c:21-44 | the points without rounding: max(dx, dy) steps, and after k of them the nearest point of the box on either axis, the farther one of two |
| Line.PixelDecodes | src/drivers/fb32.c:9-13 | byte i belongs to pixel (x, y) exactly when i / pitch is y and i % pitch / 4 is x |
| Line.WithinHalfPixel | src/drivers/fb32.c:34-43 | every point is within half a pixel of the exact line along the shorter axis |
| Line.TraceIsLine | src/drivers/fb32.c:34-43 | for any two points the loop stands on the k-th point of the line after k passes, and on the target after max(dx, dy) passes and not before |
| Line.TraceFits | src/drivers/fb32.c:29-43 | for any two points with three times the longer side below 2^31 no value of the loop overflows an int |
| Line.Framebuffer.Foreground | src/drivers/fb32.c:9-13 | exactly the bytes whose row and place in it are those of the pixel are set |
| Line.Framebuffer.DrawLine | src/drivers/fb32.c:21-44 | for all end points in the frame buffer: it stops after max(dx, dy) steps, sets byte i exactly when the pixel (i % pitch / 4, i / pitch) is a point of the line, inside memory, without int overflow |
| Arena.AlignRoundsUp | src/memory/arena_allocator.c:20-24 | the least multiple of 2^p2 that is large enough, or 0 when the sum wraps |
| Arena.RoundedIs | src/memory/arena_allocator.c:53-53 | the rounded size is the least multiple that covers the low 32 bits of the request, or 0 when that wraps |
| Arena.RoundedCovers | src/memory/arena_allocator.c:53-53 | the rounded size covers the request if and only if size + 2^p2 - 1 < 2^32 |
| Arena.FreshPageFits | src/memory/arena_allocator.c:53-67 | every accepted size fits a fresh page, where it is not checked again, if and only if the alignment is from 2^3 to 2^12 |
| Arena.AlignExamples | src/memory/arena_allocator.c:53-67 | a size of 0xffffffff rounds to 0; the first block of the kernel's demonstration; at alignment 4 a block of 4092 bytes ends 4 bytes behind its page |
| Arena.BlocksApart | src/memory/arena_allocator.c:69-74 | blocks are aligned and no two share an address |
| Arena.Arena.constructor | src/memory/arena_allocator.c:34-40 | the arena holds one page, with its header null, for alignments up to 2^30 |
| Arena.MakeArena | src/memory/arena_allocator.c:26-46 | no arena exactly when no page is free; otherwise one page moved from the free set to the arena |
| Arena.Arena.Alloc | src/memory/arena_allocator.c:48-75 | fails exactly when the size is too large or no page is left, and then changes nothing; a block that fits the page starts where the last one ended and takes no page; any other starts behind the header of one new page; blocks are clear of the headers and, for alignments from 2^3 to 2^12, inside their page |
| Arena.Arena.NextPage | src/memory/arena_allocator.c:57-67 | another page is chained, or none is free |
| Arena.WalkEndsWithChain | src/memory/arena_allocator.c:85-89 | following the headers visits exactly the arena's pages if and only if the last header is null |
| Arena.Arena.Del | src/memory/arena_allocator.c:77-90 | with the last header null, every page is freed once, without a panic, which restores the free set |
| Arena.Lifetime | src/kernel.c:334-346 | making an arena, allocating any list of sizes and deleting it: the blocks do not overlap, and when unused pages are zeroed the free set is as before |
| Digits.NumeralReadsBack | src/libk/vfprintf.c:64-96 | the digits of a value read back as the value |
| Digits.DigitIs | src/libk/vfprintf.c:84-96 | the digit characters are 0 to 9 and a to f |
| Digits.NumeralDigit | src/libk/vfprintf.c:64-96 | the character with k behind it is the digit of base^k |
| Digits.NumeralIsMinimal | src/libk/vfprintf.c:19-45 | no leading zero, except for zero |
| Digits.NumeralLength | src/libk/vfprintf.c:19-45 | at most n digits if and only if the value is below base^n |
| Digits.NumeralFits | src/libk/vfprintf.c:67-82 | a 64-bit value fits the 32-byte buffer |
| Digits.FieldReadsBack | src/libk/vfprintf.c:118-128 | a padded field reads back as the value, for blanks and zeros |
| Printf.DigitCount | src/libk/vfprintf.c:19-45 | the loop counts the digits of the numeral |
| Printf.PrintNum | src/libk/vfprintf.c:64-96 | the buffer filled from its end holds the numeral, which is written |
| Printf.Pad | src/libk/vfprintf.c:121-125 | writes exactly the missing padding characters |
| Printf.PrintField | src/libk/vfprintf.c:118-128 | writes the padded numeral and returns its length |
| Printf.PrintUnsigned | src/libk/vfprintf.c:98-129 | writes the padded numeral of the argument cut to its length; an error for unknown lengths |
| Printf.PrintSigned | src/libk/vfprintf.c:131-171 | writes sign, padding and digits of every two's complement value, the least one included |
| Printf.PrintString | src/libk/vfprintf.c:173-194 | writes what the code's width and precision arithmetic leaves of the string |
| Printf.StringPadding | src/libk/vfprintf.c:180-192 | that is the padded and cut string if and only if there is no precision, no padding, or a precision of at least the width |
| Printf.StringPaddingExample | src/libk/vfprintf.c:180-192 | width 5 and precision 3 print one character of "abcdef" instead of three |
| Printf.FieldLength | src/libk/vfprintf.c:152-170 | a signed field is as long as the larger of the width and its digits with the sign |
| Printf.SignedReadsBack | src/libk/vfprintf.c:131-171 | a signed field reads back as its value |
| Printf.SignedRange | src/libk/vfprintf.c:136-150 | the argument is the two's complement value of the requested length, 32 bits without l, z, j and t |
| Printf.DirectiveMeans | src/libk/vfprintf.c:238-321 | every directive with width 0 to 127, zero flag and length modifier parses to what it says |
| Printf.PrecisionMeans | src/libk/vfprintf.c:276-307 | a dot and a number below 2^31 set the precision to that number |
| Printf.PrintedThenRead | src/libk/vfprintf.c:238-345 | %d and %i with any flag, width and length modifier print a text that reads back as the signed argument, of 32 or 64 bits as the modifier says |
| Printf.PrintedThenReadUnsigned | src/libk/vfprintf.c:238-345 | the same for %u and %x: all 64 bits with l, ll, z, j and t, the low 32 bits otherwise |
| Printf.PrintedSigned | src/libk/vfprintf.c:131-171 | the exact text of %d and %i: sign, zeros or blanks as the flag says, digits |
| Printf.PrintedUnsigned | src/libk/vfprintf.c:98-129 | the exact text of %u and %x: zeros or blanks as the flag says, digits |
| Printf.PrintedOthers | src/libk/vfprintf.c:247-318 | the exact texts of %c, %p, %% and the floating-point conversions |
| Printf.PrintedString | src/libk/vfprintf.c:173-194 | the exact text of %s without a precision |
| Printf.PrintedPrecise | src/libk/vfprintf.c:173-194 | the exact text of %s with a width and a precision |
| Printf.MalformedDirective | src/libk/vfprintf.c:317-318 | any other conversion character, and the end of the format, is an error |
| Printf.UnknownLengths | src/libk/vfprintf.c:104-116 | three h or three l are an error |
| Printf.FieldsWrap | src/libk/vfprintf.c:11-17 | widths and lengths wrap as signed chars, precisions as ints |
| Printf.RenderedOn | src/libk/vfprintf.c:323-345 | a directive prints its text, and the rest of the format its own with the arguments that are left |
| Printf.RenderedPlain | src/libk/vfprintf.c:323-345 | text without directives is printed as it stands |
| Printf.Convert | src/libk/vfprintf.c:247-318 | a conversion writes its text and returns its length |
| Printf.ParseFormat | src/libk/vfprintf.c:238-321 | the parser's loop does what the specification of a directive says |
| Printf.VFPrintf | src/libk/vfprintf.c:323-345 | the whole format's text is written, and the result is exactly its length, or EOF on an error |

## Left out

- Mmu.PageTables.Assign: states the map update for ranges that end by the start of slot 511 of the higher half; beyond,
  the walk leaves its range or its tables (`Reach.WalkExact` is exact). Needs free pages for the missing tables, which the
  source panics without, and page-aligned physical memory below 2^52.
- Mmu.PageTables.Remove: needs every table of the range's paths, because the leaf walker does not test for presence
  (`Stray.TablesExistExactly` is exact); `Stray.RemoveAnyway` states the call without that. The same bound on slot 511.
- Stray.RemoveAnyway: when physical page 0 holds addresses, or is the root, the walk goes on to wherever they lead.
- Mmu.PageTables.ApplyNodes: models walks from the root and below it, but the public calls only start at the root; the
  root is passed explicitly, CR3 and the `top == 0` default are not modelled.
- Pmm.Allocator.Add: takes a page-aligned range without managed pages, and no managed page right behind it (usable
  entries of the memory map give that, `MemoryMap.AddAll`); the misalignment panic and the warnings are not modelled.
- Of `kernel.c` only the memory-map loop and the demonstrations of arena, address space and `test_mmu` are modelled; sums,
  prints and what the demonstrations store in their pages are not.
- Large pages, PAT, accessed and dirty bits: the driver does not set them; lookups treat large entries as the source does.
- Vaddress.AddressSpace.Free: needs address + size below 2^64; under the literal reading of line 164 the list it leaves
  is the specified one, but covers [a, e) exactly only under the condition of `Regions.LiteralFreeExact`.
- Regions.RunsStayTight: needs line 164 as commented and sizes above 0; a size of 0 leaves an empty region, and the
  literal code may (`Regions.LiteralTightExact`).
- Node and entry counters of the address space are unbounded here; the source counts in `int`.
- Storage blocks hand out nodes by page and slot; the bytes of a block are not laid out.
- Arena.Arena.constructor: models alignments from 2^0 to 2^30; with 2^31 the first offset overflows the `int` it is stored
  in, and `1U << p2` is undefined from 32 on. That blocks lie in their page is stated for 2^3 to 2^12
  (`Arena.FreshPageFits` says why only there).
- Arena.MakeArena: the same alignments.
- Arena.Arena.Del: needs a null last header, because a fresh page's first word is never cleared.
- The allocator interface and its wrappers for zero sizes (`allocator.c`): thin dispatch.
- Printf.VFPrintf: writes to a stream that never fails, so of the error exits only malformed formats are modelled; what
  C leaves undefined (a missing argument, a negative length) ends with the status `Undefined` and no claim on the count;
  the total is unbounded, where the source adds in `int`.
- Printf.PrintSigned: takes the negation of the least 64-bit value to wrap around, which C leaves undefined, and so does
  the reading of precisions beyond 2^31; string arguments hold no null character.
- The functions of base 10 and base 16 in `vfprintf.c` differ only in the base and are one member each here.
- Line.Framebuffer.DrawLine: end points lie in the frame buffer and its byte offsets fit an `int`, as the source assumes
  without a check; for all other points `Line.TraceIsLine` and `Line.TraceFits` state the loop without its writes.
- Inline assembly, TLB behaviour, serial and port drivers, fonts and the fractal loop, boot code, `vmm.c`, `tar.c`, string
  functions: hardware effects, straight-line code or easy loops.
