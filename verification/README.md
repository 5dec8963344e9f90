# Verified model of the kernel's memory manager, formatter, input ring and terminal

This project models, in Dafny, the parts of the kernel whose behaviour is hardest to see from the
code: the three layers of memory management, the bounded formatter and its number printers, the
locked input ring, the terminal on its VGA text buffer, and the PCI bus scan. `dafny verify
dfyconfig.toml` checks all of it. Lemmas carry `{:induction false}`, so that no proof rests on the
verifier's automatic induction.

**Heap** (`HeapBlocks`, `HeapCoalesce`, `HeapOps`, `HeapTheorems`, `HeapRuns`, `HeapTotals`,
`HeapLocks`, `HeapPages`, `HeapMemory`, `Heap`). `Heap.Heap` works on one flat array of 16-byte
granules in which the block headers sit among the payloads they describe, and rewrites them in place
as `heap.c` does. A ghost block list says what the headers denote. Every method is proved to take
exactly one transition of `HeapOps`, where blocks are values, and to leave every other live payload
alone; `HeapTheorems` proves what the transitions mean call by call, `HeapRuns` and `HeapTotals`
over whole runs. The methods record what they do with the heap lock, and `HeapLocks` says which
calls come back from it. Pages come from a page source that hands over the next page or nothing;
`HeapPages` puts `vmm_alloc_page` in its place and proves, from `vmm_init` on and over every run,
that each page is where the heap takes it to be. The `used` byte of a new page is whatever memory
held.

**Frames and paging** (`Bits`, `Frames`, `Pmm`, `Paging`, `PagingRuns`, `Vmm`). `Pmm.Pmm` keeps the
packed bitmap in an array of 32-bit words and refines the set of used frames of `Frames`.
`Vmm.Vmm` keeps directory and tables in an array that stands for physical memory; `Walk` is the
table entry the processor ends at, and `Grants` the rights it finds on both levels (section 4.3 of
volume 3A of the Intel SDM). `PagingRuns` follows frames
over every run of allocations and frees.

**Strings and formatter** (`Arithmetic`, `Numerals`, `Strings`, `Format`). The loops of `string.c` against
positional numerals, and `vsnprintf` against a pure rendering of its format.

**Input ring** (`InputRing`, `Spinlock`, `InputSystem`). The ring's operations one at a time, and
then one consumer and any number of producers interleaved at single exchanges, reads and writes.

**Terminal** (`Canvas`, `LineEditor`, `Commands`, `Vga`, `Tty`, with `Memory` for `memcpy`). The canvas is text
on an endless roll; the screen is proved to be its last rows after every character. `LineEditor`
is the keyboard side, over whole key sequences.

**PCI** (`Pci`). The mutually recursive scan, with the exact condition under which it returns.

Where the code departs from what it seems to intend, the model follows the code and a lemma says
exactly how far the intent holds:

- `kmalloc` and `krealloc` round sizes above 2^32 - 16 to zero. Such a call can hand out a payload
  of no bytes (`WrappedMalloc`); a block is long enough for its request exactly when the size does
  not wrap (`MallocFirstFit`, `ReallocOutcome`), and blocks keep a positive size exactly as
  `MallocPositive` and `ReallocPositive` say, hence in every run without such a request
  (`RunPositive`).
- Growing the heap never helps a request that does not fit one page, because new pages are not
  merged (`MallocSucceeds`). A page whose `used` byte does not arrive as zero is lost for good
  (`RunUsedAreLive`, `FreeingAllRestoresOneBlock`).
- `krealloc` takes the heap lock twice when the block has to move; every call comes back from its
  locking but those, and a run of calls does exactly when none of them moves a block (`CallReturns`,
  `RunReturns`).
- `pmm_init` counts only the blocks it marks for the bitmap as used, so the free count is too high
  by the number of holes in the memory map (`HolesReportedFree`); the start of an entry that is not
  page-aligned is rounded down into what lies before it (`FreedInsideEntry`); and the marked blocks
  hold the whole bitmap exactly under the condition of `StorageMarked`, failing which its last page
  can be handed out (`BitmapHandedOut`).
- The allocator's failure value is also the address of frame 0 (`NullMeansFull`,
  `AllocFreeRoundTrip`).
- A page gets the rights asked for only as far as the first page mapped in its region had them
  (`MapPageRights`).
- `vmm_free_page` looks neither at the present bit of the entry it clears nor at what its frame is
  for; `FreePageExactly` says for which pages the paging structures survive it. The identity page
  of the directory is one for which they do not (`DirectoryPageFreed`).
- `memcpy` is a move exactly when every cell arrives unspoilt (`MoveExactly`).
- A `krealloc` that shrinks can leave two free neighbours, until the next `kfree`
  (`ShrinkCoalesced`).
- A backspace undoes a printed character only if that did not fill the row, and overwrote nothing
  (`BackspaceUndoes`).
- `itoa` prints `-(` for the smallest integer (`ItoaAtoi`).
- `vsnprintf` runs past the end of a format that ends in a lone percent sign, exactly when there is
  room left on reaching it, and writes its terminator even for size 0 (`Vsnprintf`). It returns the
  length written, where section 7.21.6.12 of C11 asks for the length of the whole output. For the
  size that `vsprintf` and `sprintf` pass, the end pointer wraps around, and they print nothing
  (`Sprintf`).
- The line buffer takes a 128th character, leaving no room for the terminator. That goes into the
  low byte of `buf_pos`, so a newline runs its line exactly when the line is shorter
  (`NewlineRunsLine`), and all lines are run exactly when all are (`LinesRun`, `FullLineLost`).
- `pci_scan_bus` never returns when a chain of bridges leads back to a bus it has passed
  (`TerminatesExactly`).

## Model

| member | source | states |
|---|---|---|
| HeapCoalesce.CanonicalForm | kernel/mm/heap.c:71-86 | a heap without free neighbours is determined by its used blocks alone |
| HeapCoalesce.CoalesceProperties | kernel/mm/heap.c:71-86 | coalescing keeps the tiling and every used block where it is, and leaves no two free neighbours |
| HeapCoalesce.CoalesceIdempotent | kernel/mm/heap.c:71-86 | coalescing changes nothing exactly on lists without free neighbours, hence not a second time |
| HeapCoalesce.CoalesceRun | kernel/mm/heap.c:75-77 | a maximal run of k free blocks becomes one block of the summed payload plus k - 1 headers, and both sides coalesce on their own |
| HeapOps.FirstFit | kernel/mm/heap.c:45-53 | the block found fits and no earlier one does; none fits when none is found |
| HeapOps.MallocInv | kernel/mm/heap.c:113-139 | kmalloc keeps the tiling and all live blocks with their lengths, and hands out a position that was not live |
| HeapOps.FreeInv | kernel/mm/heap.c:141-157 | kfree keeps the invariant, and right after it no two neighbours are free |
| HeapOps.ReallocInv | kernel/mm/heap.c:159-198 | krealloc keeps the invariant |
| HeapOps.RunInv | kernel/mm/heap.c:113-198 | in every state reached by any run the blocks tile the heap and every live position is a used block of its length, whatever fresh pages hold; sizes are HeapRuns.RunPositive's |
| HeapTheorems.LiveSeparate | kernel/mm/heap.c:113-198 | a live payload is inside the heap, contains no header, and meets no other live payload |
| HeapTheorems.Accounting | kernel/mm/heap.c:200-232 | used bytes, free bytes and 16 for each block add up to the size of the heap |
| HeapTheorems.HeaderCost | kernel/mm/heap.c:55-86 | a split costs 16 usable bytes and each merge wins 16 back |
| HeapTheorems.RoundUpExact | kernel/mm/heap.c:118 | the rounded size is the next multiple of 16 exactly up to 2^32 - 16, and zero above |
| HeapTheorems.PagesWantedExact | kernel/mm/heap.c:26-28 | heap_expand asks for the least number of 64 KiB units that hold the rounded size and two headers, exactly when that sum stays clear of 2^32 |
| HeapTheorems.MallocFirstFit | kernel/mm/heap.c:113-139 | for every positive size kmalloc succeeds exactly when a block fits and takes the fitting block of lowest address; it is long enough exactly when the size does not wrap, and then at most 16 bytes longer than n rounded up |
| HeapTheorems.WrappedMalloc | kernel/mm/heap.c:118-138 | a request for 2^32 - 1 bytes on the first heap gets a pointer to a payload of no bytes |
| HeapTheorems.MallocSucceeds | kernel/mm/heap.c:121-128 | exactly when kmalloc succeeds: a block fits already, or the request fits one page and a page granted in this call reads zero at its used byte |
| HeapTheorems.SmallMallocProgress | kernel/mm/heap.c:113-139 | up to 4080 bytes, kmalloc fails exactly when nothing fits and the page source failed or its next page does not read zero at its used byte |
| HeapTheorems.MallocFreeRoundTrip | kernel/mm/heap.c:113-157 | kfree after a successful kmalloc restores the identical block list exactly when the heap was coalesced and did not grow |
| HeapTheorems.MallocCoalesced | kernel/mm/heap.c:113-139 | a kmalloc that need not grow leaves no two free neighbours where there were none |
| HeapTheorems.ReallocOutcome | kernel/mm/heap.c:159-198 | for every positive size krealloc keeps all other live blocks; it stays in place exactly when the block is long enough for the rounded size, and fails exactly when it has to move and kmalloc fails, leaving all live blocks as they were; the result is long enough exactly when the size does not wrap, and 16 bytes at most when it does; after a move no two neighbours are free |
| HeapTheorems.ShrinkCoalesced | kernel/mm/heap.c:177-183 | after shrinking there are no two free neighbours exactly when there were none before, and it does not split, or the block behind is used or missing |
| HeapTheorems.FreeTwice | kernel/mm/heap.c:141-157 | a second kfree of the same pointer right away changes nothing, whether its header still starts a block or was left behind by the merge |
| HeapRuns.MallocPositive | kernel/mm/heap.c:113-139 | where every block holds at least 16 bytes, kmalloc keeps it so exactly when the size does not wrap, it fails, or the block it takes is too short to split |
| HeapRuns.ReallocPositive | kernel/mm/heap.c:159-198 | so does krealloc exactly when the size does not wrap or the block is too short to split |
| HeapRuns.RunPositive | kernel/mm/heap.c:113-198 | in every run without a wrapped size every block has a positive multiple of 16 bytes |
| HeapRuns.RunUsedAreLive | kernel/mm/heap.c:26-198 | each used block in a reachable state is one a client holds, exactly when every page linked on the way read zero at its used byte |
| HeapRuns.FreeingAllRestoresOneBlock | kernel/mm/heap.c:141-157 | after any run, in whatever order blocks were freed, freeing the last live block leaves one free block of all but 16 bytes, exactly when every linked page read zero |
| HeapRuns.ReachableHeap | kernel/mm/heap.c:26-232 | tiling, accounting, separation of any two live payloads, and positive sizes when no request wrapped, in every reachable state |
| HeapTotals.MallocSum | kernel/mm/heap.c:113-139 | kmalloc raises the allocated total by the length of the block it hands out, and of every linked page that does not read zero at its used byte |
| HeapTotals.FreeSum | kernel/mm/heap.c:141-157 | kfree lowers it by the length of the block it takes back |
| HeapTotals.ReallocSum | kernel/mm/heap.c:159-198 | krealloc changes it by the difference of the two lengths |
| HeapTotals.SumOfUsed | kernel/mm/heap.c:200-232 | used blocks count as allocated and never as free |
| HeapTotals.ReachableTotals | kernel/mm/heap.c:200-232 | in every reachable state the allocated total is the live lengths and the pages lost on arrival, just the live lengths if and only if every linked page read zero; all else but the headers is free |
| HeapLocks.CallReturns | kernel/mm/heap.c:113-198 | every call of kmalloc and kfree comes back from its locking, krealloc exactly when it need not move the block: null, size zero, missing magic and a failing inner kmalloc included; what a call does to the heap is between an acquire and a release |
| HeapLocks.RunReturns | kernel/mm/heap.c:113-198 | a thread gets through a whole run of calls exactly when none of them moves a block |
| HeapPages.TakenContiguous | kernel/mm/heap.c:30-32 | the pages of one expansion follow one another from next_virt on, and so will those of the next, or there are none any more |
| HeapPages.StepAdjacent | kernel/mm/heap.c:30-41 | the pages an operation links are at the addresses behind the heap, one after the other, and the next one will be |
| HeapPages.FirstPage | kernel/mm/heap.c:93-105 | the page heap_init gets after vmm_init starts the dynamic region, and the next one follows it |
| HeapPages.EveryPageInPlace | kernel/mm/heap.c:26-198 | from vmm_init on, in every run of heap operations with pages from the page tables, each linked page is at the address where the block list has it |
| HeapMemory.ReadHeader | kernel/mm/heap.c:14-19 | following next pointers through memory visits the blocks in address order |
| HeapMemory.KeptWrite | kernel/mm/heap.c:55-86 | writing a header, or inside a free block, changes no byte of a used payload |
| HeapMemory.SplitRepresents | kernel/mm/heap.c:55-69 | the six header writes of split_block turn the represented list into the split one and keep every used payload |
| HeapMemory.MergeRepresents | kernel/mm/heap.c:76-77 | the two header writes of a merge join exactly the two free neighbours, keep used payloads, and keep the coalesced part coalesced |
| HeapMemory.ExpandRepresents | kernel/mm/heap.c:34-41 | the header writes of one new page append one block whose flag is whatever the page held, and keep used payloads |
| HeapMemory.PayloadWrites | kernel/mm/heap.c:134-138 | a client that writes only inside its payload changes neither the block list nor any other payload |
| HeapMemory.CopiedPayload | kernel/mm/heap.c:191 | copying to the new block carries over the old payload and disturbs no other |
| Heap.Heap.constructor | kernel/mm/heap.c:88-111 | the first page becomes a heap of one free block |
| Heap.Heap.FindFreeBlock | kernel/mm/heap.c:45-53 | the walk over headers in memory returns the address of the first fitting block, or null |
| Heap.Heap.SplitBlock | kernel/mm/heap.c:55-69 | in memory, exactly the split transition, heap_end stays the last block, used payloads stand |
| Heap.Heap.MergeBlocks | kernel/mm/heap.c:71-86 | the in-place loop terminates and computes the reference coalescing; used payloads stand |
| Heap.Heap.HeapExpand | kernel/mm/heap.c:26-43 | as many one-page blocks as the source hands over of the 64 KiB units asked for, each with the used byte it arrived with |
| Heap.Heap.TakeBlock | kernel/mm/heap.c:130-134 | splits when header and 16 more bytes fit, then marks the block used; others stand |
| Heap.Heap.Kmalloc | kernel/mm/heap.c:113-139 | the pointer and new state are those of the transition; every live payload keeps its bytes; the lock is taken and released once, or not at all for size zero |
| Heap.Heap.Kfree | kernel/mm/heap.c:141-157 | the state is that of the transition; null and a pointer without magic change nothing, a header left behind by a merge only brings on another merge; every other live payload keeps its bytes |
| Heap.Heap.Release | kernel/mm/heap.c:153-154 | clearing the flag and merging is the free transition on the block list, or a merge alone inside a free block |
| Heap.Heap.Krealloc | kernel/mm/heap.c:159-198 | the transition taken, the first bytes common to both lengths preserved, on failure the old block live with its bytes, every other payload intact; the lock operations are those HeapLocks is about |
| Heap.Heap.ShrinkInPlace | kernel/mm/heap.c:177-183 | a block that is long enough is kept, cut when roomy, and not merged behind |
| Heap.Heap.Move | kernel/mm/heap.c:185-197 | allocate, copy, free: the old payload is a prefix of the new one, or nothing was lost |
| Heap.Heap.ClientStore | kernel/mm/heap.c:134-138 | a store into one payload shows there and in no other payload |
| Heap.Heap.GetAllocatedMemory | kernel/mm/heap.c:200-215 | the walk adds up the payload of the used blocks; what that is in terms of live payloads is HeapTotals.ReachableTotals' |
| Heap.Heap.GetFreeMemory | kernel/mm/heap.c:217-232 | free and used bytes and one header for each block make up heap_size |
| Memory.CopyAscendingAt | lib/string.c:14-21 | what each cell holds after the ascending loop, overlap included: it repeats the cells between source and destination |
| Memory.MoveExactly | lib/string.c:14-21 | the loop equals a move if and only if every cell arrives unspoilt |
| Memory.MovesWhenNotInside | lib/string.c:14-21 | it is a move whenever the destination is not inside the source, as in vga_scroll and krealloc |
| Memory.Memcpy | lib/string.c:14-21 | the in-place loop leaves what the step-by-step copy leaves |
| Bits.SetBit | kernel/mm/pmm.c:12-14 | the mask operation turns on that one bit of the word |
| Bits.ClearBit | kernel/mm/pmm.c:16-18 | the mask operation turns off that one bit of the word |
| Frames.LowestFrom | kernel/mm/pmm.c:110-111 | the result is the first free frame; all before it are used |
| Frames.AllocInv | kernel/mm/pmm.c:107-127 | allocation keeps the set below the block count, and the address of the frame does not wrap |
| Frames.AllocFreeRoundTrip | kernel/mm/pmm.c:107-145 | freeing what was allocated restores the allocator exactly when a frame was free, or there are none |
| Frames.NullMeansFull | kernel/mm/pmm.c:107-127 | a null result means that no frame is free exactly when frame 0 is used, or there are none |
| Frames.RunCounter | kernel/mm/pmm.c:118-143 | over every run the counter stays off from the number of used frames by one fixed amount, modulo 2^32 |
| Frames.ReportedFreeError | kernel/mm/pmm.c:147-149 | the reported free count is the number of free frames less that amount |
| Pmm.Pmm.constructor | kernel/mm/pmm.c:28-105 | over any memory map ending below 4 GiB, a block is free exactly when an available entry covers it and it is not marked for the bitmap; the counter holds the marked blocks only |
| Pmm.Pmm.PlaceBitmap | kernel/mm/pmm.c:66-74 | the bitmap goes to the start of the first available entry in the map that is long enough, and to address 0 exactly when none is |
| Pmm.StorageMarked | kernel/mm/pmm.c:93-101 | every byte of the bitmap lies in a block marked for it, if and only if the end of the bitmap does not cross one page more than its length, counted from inside its first page; always for an aligned start |
| Pmm.BitmapHandedOut | kernel/mm/pmm.c:66-101 | a map whose only entry starts inside a page, after which the first page allocated is the one with the end of the bitmap |
| Pmm.Pmm.SetBit | kernel/mm/pmm.c:12-14 | over the whole bitmap, that bit alone is set |
| Pmm.Pmm.ClearBit | kernel/mm/pmm.c:16-18 | over the whole bitmap, that bit alone is cleared |
| Pmm.Pmm.ClearAvailable | kernel/mm/pmm.c:79-91 | exactly the blocks covered by some available entry are cleared |
| Pmm.Pmm.MarkBitmap | kernel/mm/pmm.c:98-101 | exactly the given range is set, and counted |
| Pmm.Pmm.AllocPage | kernel/mm/pmm.c:107-135 | both allocators take the lowest free frame and set only its bit; the alignment flag makes no difference |
| Pmm.Pmm.FreePage | kernel/mm/pmm.c:137-145 | the frame leaves the used set if it was in it; anything else changes nothing |
| Pmm.Pmm.IsPageFree | kernel/mm/pmm.c:151-162 | true exactly for the aligned address of a frame in range that is not used |
| Pmm.FreedInsideEntry | kernel/mm/pmm.c:82-88 | blocks freed for an entry end inside it, and start inside it exactly when it is page-aligned |
| Pmm.CoversExactly | kernel/mm/pmm.c:82-88 | the blocks freed for an entry are exactly those that end inside it, so every block that lies in it |
| Pmm.StartFreeExactly | kernel/mm/pmm.c:79-101 | after pmm_init a block is free exactly when it ends inside some available entry and is not marked for the bitmap |
| Pmm.SizesExact | kernel/mm/pmm.c:39-56 | the block count is that of the highest end of an available entry, and the bitmap has a bit for each block with less than a word to spare |
| Pmm.HolesReportedFree | kernel/mm/pmm.c:98-149 | after any run from pmm_init the reported free count exceeds the free frames by the number of holes, less the marked blocks beyond the block count |
| Paging.EntryFields | kernel/mm/vmm.c:44-48 | an entry is present, names its frame and carries the flags |
| Paging.NewTableInv | kernel/mm/vmm.c:39-45 | a new table is distinct from directory and other tables, and changes no other directory entry |
| Paging.NewTableWalk | kernel/mm/vmm.c:39-45 | making a table changes the translation of no page |
| Paging.MapPageWalk | kernel/mm/vmm.c:35-53 | mapping fails exactly when a table is needed and no frame is left; else the walk of that page ends at the frame with the flags, and every other walk as before |
| Paging.MapPageRights | kernel/mm/vmm.c:43-48 | the page is writable, or open to user mode, exactly when the flags say so and the directory entry already did or is made by this call; the rights of all other pages stand |
| Paging.MapPageTables | kernel/mm/vmm.c:35-53 | at most one directory entry is added, for a frame that was free, with the flags given, and no used frame outside the paging structures changes |
| Paging.AllocPageOutcome | kernel/mm/vmm.c:55-69 | the three outcomes: nothing changes, only next_virt moves, or the next page is mapped to a frame that was free |
| Paging.FreePageOutcome | kernel/mm/vmm.c:71-83 | freeing a live page unmaps it, frees its frame, and leaves every other translation |
| Paging.FreePageExactly | kernel/mm/vmm.c:71-83 | for any page, freeing keeps directory and tables in used frames exactly when its region has no table, or the frame its entry names, present or not, is unused, or is not frame 0, a table or the directory |
| Paging.FreeMappedPage | kernel/mm/vmm.c:71-83 | so for a page mapped to a used data frame it does, and for one mapped to the directory it does not |
| PagingRuns.AllocConserved | kernel/mm/vmm.c:55-69 | an allocation, failing or not, keeps used frames = initial + tables + live pages, pairwise apart |
| PagingRuns.FreeConserved | kernel/mm/vmm.c:71-83 | so does freeing a live page |
| PagingRuns.RunConserved | kernel/mm/vmm.c:55-83 | in every run live pages map injectively to frames that are neither tables nor the directory nor in use before, and no used frame is unaccounted for |
| PagingRuns.AllocKeepsData | kernel/mm/vmm.c:35-69 | allocating a page, and the table for it, changes no word of a live page's frame |
| PagingRuns.FreeKeepsData | kernel/mm/vmm.c:71-83 | nor does freeing one |
| PagingRuns.UsedCount | kernel/mm/vmm.c:55-83 | number of used frames = used before + tables added + live pages |
| PagingRuns.InitWalk | kernel/mm/vmm.c:9-33 | after vmm_init the first 4 MiB translate to themselves and no other page translates |
| PagingRuns.InitRights | kernel/mm/vmm.c:21-24 | those pages are writable and closed to user mode |
| PagingRuns.InitConserved | kernel/mm/vmm.c:9-33 | vmm_init's state is one the run theorems start from |
| PagingRuns.DirectoryPageFreed | kernel/mm/vmm.c:21-22 | right after vmm_init, freeing the identity page of the directory gives its frame away |
| PagingRuns.PagesContiguous | kernel/mm/vmm.c:55-69 | while nothing is freed, the addresses handed out follow one another without a gap, failing calls between them included |
| Vmm.Vmm.constructor | kernel/mm/vmm.c:9-33 | the loops leave a zeroed directory and the identity table in frames from the bitmap, all else as it was |
| Vmm.Vmm.ZeroFrame | lib/string.c:23-29 | one frame of memory becomes zero and no other word changes |
| Vmm.Vmm.FillIdentity | kernel/mm/vmm.c:21-22 | one frame becomes the identity table and no other word changes |
| Vmm.Vmm.EnsureTable | kernel/mm/vmm.c:39-45 | the in-place step and its bitmap allocation are the table-making transition |
| Vmm.Vmm.MapPage | kernel/mm/vmm.c:35-53 | in physical memory and bitmap, exactly the mapping transition; a failing call changes nothing |
| Vmm.Vmm.AllocPage | kernel/mm/vmm.c:55-69 | exactly the allocation transition, giving the frame back when the mapping failed |
| Vmm.Vmm.FreePage | kernel/mm/vmm.c:71-83 | exactly the freeing transition for any address, and the state is valid afterwards exactly as FreePageExactly says |
| Numerals.DigitsCanonical | lib/string.c:67-105 | numerals have no leading zero and denote their number |
| Numerals.DigitsUnique | lib/string.c:67-105 | they are the only strings that do |
| Numerals.ItoaAtoi | lib/string.c:67-121 | atoi undoes itoa on every 32-bit integer but the smallest, and only there it fails |
| Numerals.ItoaCanonical | lib/string.c:67-84 | at most eleven characters, a minus exactly for negative numbers, then a canonical numeral |
| Numerals.AtoiReads | lib/string.c:107-121 | digits with any leading zeros, after an optional minus and before anything that is no digit, read as their value |
| Numerals.DigitTable | lib/string.c:87 | the digits are those of the table, in its order |
| Numerals.HexLength | lib/string.c:86-105 | a word takes one to eight hexadecimal digits |
| Strings.Strlen | lib/string.c:39-45 | the position of the first zero character |
| Strings.Strcmp | lib/string.c:47-54 | zero exactly for equal strings, else the difference of the characters where they first differ |
| Strings.Strncmp | lib/string.c:56-65 | zero exactly when the first n characters agree, as far as the strings go, else the difference where they first differ |
| Strings.Reverse | lib/string.c:123-132 | in place, the characters before the terminator reversed and nothing else changed |
| Strings.Itoa | lib/string.c:67-84 | for every 32-bit integer the digit loop and the reversal leave its text and a terminator |
| Strings.Itoh | lib/string.c:86-105 | the two loops leave the leading-zero-free upper-case hexadecimal numeral of n modulo 2^32 |
| Strings.Atoi | lib/string.c:107-121 | the value of the leading digits after an optional minus |
| Format.RenderConcat | lib/sprintf.c:24-79 | rendering is compositional: parts of a format print one after the other, each with its own arguments |
| Format.RenderEscape | lib/sprintf.c:63-68 | doubling percent signs gives a format that prints the given string |
| Format.Put | lib/sprintf.c:38-39 | the copying loops write as much of a string as fits before the end, and nothing behind it |
| Format.PrintsDecimal | lib/sprintf.c:34-41 | what %d prints reads back as the argument, for every integer but the smallest, and is canonical |
| Format.PrintsHexadecimal | lib/sprintf.c:42-50 | %x prints the canonical upper-case hexadecimal numeral of the argument modulo 2^32 |
| Format.PrintsCharacter | lib/sprintf.c:51-54 | %c prints the one character of the argument's low byte |
| Format.PrintsString | lib/sprintf.c:55-62 | %s prints the string, and a stand-in for a null pointer |
| Format.PrintsUnknown | lib/sprintf.c:69-77 | any other letter prints with its percent sign and takes no argument |
| Format.Convert | lib/sprintf.c:33-78 | each conversion writes as much of its text as fits and takes its argument if it has one |
| Format.Vsnprintf | lib/sprintf.c:20-83 | for any size: the first characters of the rendering up to size - 1, none if size is 0 or the end pointer wraps, then a zero, that length as result, and nothing else touched; output cut short fills the buffer; nothing at or past size unless size is 0; past the format's end exactly for a lone percent sign met with room left |
| Format.Sprintf | lib/sprintf.c:5-18 | with the unbounded size nothing but the terminator is written, and 0 returned |
| InputRing.FullAt255 | drivers/input/input.c:38-39 | the full test succeeds exactly with 255 events queued, the empty test exactly with none |
| InputRing.InputBuffer.constructor | drivers/input/input.c:36-59 | the ring starts empty |
| InputRing.InputBuffer.Push | drivers/input/input.c:36-44 | the event joins the end of the queue unless 255 are queued |
| InputRing.InputBuffer.Pop | drivers/input/input.c:46-55 | the oldest event leaves the queue; the zero event when there is none |
| InputRing.InputBuffer.HasEvents | drivers/input/input.c:57-59 | true exactly when something is queued |
| Spinlock.CompletesExactly | kernel/cpu/spinlock.c:8-20 | undisturbed, a thread gets through its lock operations exactly when it never acquires while holding |
| InputSystem.StepInv | drivers/input/input.c:36-59 | every single step of any thread keeps exclusion, the lock word, the queue and what the holder knows |
| InputSystem.PushOutcome | drivers/input/input.c:39-42 | with the lock held a push is given up exactly when 255 events are queued, else its own event is appended |
| InputSystem.EveryInterleaving | drivers/input/input.c:36-59 | for any number of producers and any interleaving: one holder, lock word 1 exactly when held, at most 255 queued, popped then queued events are the accepted ones in order, and a pop after a true has_events gets an event |
| InputSystem.StepPending | drivers/input/input.c:36-44 | no step loses an event: a push ends without its event in the ring only at its check of a full one |
| InputSystem.AcceptedWereSubmitted | drivers/input/input.c:36-44 | the events each producer submitted are, in its order, those put into the ring, those given up at a check with 255 queued, and at most one under way; and the accepted events are exactly those put into the ring |
| InputSystem.PopOutcome | drivers/input/input.c:46-55 | with the lock held a pop finds nothing exactly when nothing is queued, else takes the oldest event, and leaves its record |
| InputSystem.PopsRecorded | drivers/input/input.c:46-55 | in every interleaving each started pop has left its record, but for one under way |
| InputSystem.PushAlone | drivers/input/input.c:36-44 | with the lock free the steps of one push, undisturbed, queue its event behind the others unless 255 are, and free the lock |
| InputSystem.PopAlone | drivers/input/input.c:46-55 | with the lock free the steps of one pop, undisturbed, take the oldest event if there is one, and free the lock |
| InputSystem.HasEventsAlone | kernel/main.c:95-100 | the main loop, undisturbed, goes on to a pop exactly when something is queued |
| InputSystem.SpinEnds | kernel/cpu/spinlock.c:8-12 | a thread that spins takes the lock once it is free and nobody is faster |
| InputSystem.InterruptedPopBlocks | drivers/input/input.c:46-55 | while the consumer is stopped inside its critical section no producer ever gets in |
| Canvas.PutAllOk | kernel/tty/tty.c:75-124 | whatever is printed, the cursor stays inside the last 25 rows and 80 columns and nothing is below its row |
| Canvas.PutAllConcat | kernel/tty/tty.c:120-124 | printing two strings is printing their concatenation |
| Canvas.WindowMoves | kernel/tty/tty.c:112-115 | going below the last row scrolls the window by one blank row, else it stands |
| Canvas.WindowWrite | kernel/tty/tty.c:95-103 | a cell written at the cursor is the same cell of the window |
| Canvas.Newline | kernel/tty/tty.c:83-85 | a newline goes to the start of the next row, changing no cell; below the last row there is then a blank one |
| Canvas.ReturnAndTab | kernel/tty/tty.c:98-110 | a carriage return goes to column 0, a tab to the next multiple of four or the next row; neither changes a cell |
| Canvas.BackspaceAndNul | kernel/tty/tty.c:78-97 | a backspace blanks the cell left of the cursor and goes there, in column 0 nothing; a terminator is not printed |
| Canvas.TextLayout | kernel/tty/tty.c:102-110 | printable text fills consecutive cells from the cursor on, across rows and screens |
| Canvas.BackspaceUndoes | kernel/tty/tty.c:86-105 | backspace undoes a printed character exactly when that did not fill the row and the cell was blank before |
| Canvas.Earlier | kernel/tty/tty.c:102-110 | printable text changes no cell before the cursor |
| LineEditor.LineIsTyped | kernel/tty/tty.c:51-73 | from an empty line on, after any keys the line is the fold of those since the last newline, backspaces applied |
| LineEditor.ExecuteFresh | kernel/tty/tty.c:35-48 | whatever command ran, the cursor is at the start of a blank row with nothing below |
| Commands.ClearShows | kernel/tty/tty.c:39-41 | clear leaves a blank screen with the cursor in its first cell |
| Commands.HelpShows | kernel/tty/tty.c:152-157 | help prints its four lines, with the columns its tabs give, and changes nothing above |
| Commands.EchoShows | kernel/tty/tty.c:163-166 | echo prints its argument in the cells from the cursor on, across rows, and starts a new row |
| Commands.UnknownShows | kernel/tty/tty.c:45-47 | so does any other command its message, the command in quotes |
| Commands.EnteredShows | kernel/tty/tty.c:55-63 | a newline prints what the typed command prints from a fresh row on, and the prompt on the next fresh row; the prompt alone if no command was typed |
| LineEditor.StartShows | kernel/tty/tty.c:17-33 | tty_init leaves the prompt with an empty line and blank rows below, the state from which the next rows follow the keys |
| LineEditor.KeysOk | kernel/tty/tty.c:51-73 | the cursor invariant, and blank rows below the cursor, outlast any keys |
| LineEditor.RowShowsLine | kernel/tty/tty.c:51-150 | while the line fits beside the prompt, the current row is the prompt, the line typed so far, then blanks |
| LineEditor.LineFills | kernel/tty/tty.c:69-71 | keys that are stored, tabs and carriage returns among them, make the line their first 128 |
| LineEditor.BackspaceTakesBack | kernel/tty/tty.c:64-72 | a backspace takes back the last character typed, from an empty line nothing; a key without a character types nothing |
| LineEditor.NewlineRunsLine | kernel/tty/tty.c:55-63 | a newline runs the typed line exactly when it is shorter than 128 characters |
| LineEditor.LinesRun | kernel/tty/tty.c:51-73 | in any key sequence every newline runs its line, if and only if the keys since the one before leave fewer than 128 characters typed |
| LineEditor.FullLineLost | kernel/tty/tty.c:55-71 | after 128 stored keys a newline runs nothing and shows a new prompt |
| Vga.TextBuffer.Write | drivers/video/vga.c:17-22 | one character cell changes, its colour byte being the caller's or, for characters of 128 and more, all ones; outside the screen nothing does |
| Vga.TextBuffer.Fill | lib/string.c:31-37 | exactly the given cells hold the character |
| Vga.TextBuffer.Clear | drivers/video/vga.c:24-27 | every cell is blank |
| Vga.TextBuffer.Scroll | drivers/video/vga.c:29-33 | the overlapping copy moves all rows up by one and the last row is blank |
| Tty.UnknownRendered | kernel/tty/tty.c:46 | the message for an unknown command is rendered whole and fits the 4096-byte buffer |
| Tty.Terminal.constructor | kernel/tty/tty.c:17-33 | the terminal starts on a blank screen with a prompt, in step with the canvas |
| Tty.Terminal.Putchar | kernel/tty/tty.c:75-118 | after any character the screen is the last 25 rows of the canvas and the cursor is where the canvas has it |
| Tty.Terminal.Write | kernel/tty/tty.c:120-124 | the same for any string |
| Tty.Terminal.Clear | kernel/tty/tty.c:137-141 | back to a cleared canvas |
| Tty.Terminal.PrintUnknown | kernel/tty/tty.c:126-135 | formatting into the buffer and writing it prints the whole message |
| Tty.Terminal.ExecuteCommand | kernel/tty/tty.c:35-48 | the command chosen by the string comparisons does to the screen what Commands says in cells |
| Tty.Terminal.HandleKeypress | kernel/tty/tty.c:51-73 | buffer and screen follow the key on the canvas and the line |
| Tty.Terminal.HandleKeys | kernel/main.c:95-101 | so they do for any sequence of keys, overlong lines included |
| Tty.Terminal.ResetLine | kernel/tty/tty.c:143-146 | the line is empty and the buffer zero; the screen stands |
| Pci.OnDevicesMember | drivers/pci/pci.c:89-112 | which functions a bus scan looks at: present ones of devices whose function 0 is present, function 0 alone unless the header says more |
| Pci.RegisterBytes | drivers/pci/pci.c:80-97 | which bytes of which registers say that a function is there, has siblings, is a bridge, and to which bus |
| Pci.ScansAllPresent | drivers/pci/pci.c:89-106 | the scan looks at exactly the functions present if and only if each device has a function 0 whose header admits to the others |
| Pci.Depth | drivers/pci/pci.c:83-86 | a scan limited to depth k gets through exactly when no chain of bridges is longer |
| Pci.TerminatesExactly | drivers/pci/pci.c:71-112 | the scan terminates exactly when no chain of bridges comes back to a bus it has passed, and then within depth 256 |
| Pci.AscendingTerminates | drivers/pci/pci.c:83-86 | it terminates when every bridge leads to a bus of a higher number |
| Pci.VisitsReachable | drivers/pci/pci.c:71-112 | a terminating scan visits exactly the functions on buses reachable from its bus |
| Pci.FirstAbsent | drivers/pci/pci.c:150-156 | the first function of the host bridge that is missing; all before it are present |
| Pci.RootsExactly | drivers/pci/pci.c:140-158 | the scan starts on bus 0 alone, or on the bus of each host bridge function that is there with all before it |
| Pci.Scan.ScanFunction | drivers/pci/pci.c:71-87 | the function is logged, then all that lies behind it if it is a bridge |
| Pci.Scan.ScanDevice | drivers/pci/pci.c:89-106 | the loops and the recursion log the visits of a device in order |
| Pci.Scan.ScanBus | drivers/pci/pci.c:108-112 | the same for a bus, whenever the scan of it terminates |
| Pci.Scan.Init | drivers/pci/pci.c:140-159 | exactly the functions reachable from the buses pci_init starts on are found |

## Left out

- Heap.Heap.Krealloc: the inner `kmalloc` goes on although the lock is held, so that the path behind it can be modelled; its lock operations are recorded, and in the code a call with them spins for good, as `HeapLocks.CallReturns` says. Of pointers with the magic before them only live ones are modelled.
- Heap.Heap.Move: the same inner `kmalloc`.
- Heap.Heap.constructor: a failing first page, after which `heap_start` stays null, is not modelled.
- Heap.Heap.HeapExpand: the page source is a number of pages it can still hand over, contiguous behind the heap; `HeapPages.EveryPageInPlace` is why, as long as nothing else takes or frees pages, which no code does, and `next_virt` does not wrap around.
- Heap.Heap.Kfree: a pointer that starts no block and has the magic before it is covered only inside a free block. Inside a used one, as when freed memory has been handed out again, the code clears a byte of that payload.
- Heap.Heap.GetAllocatedMemory: the heap lock around the two walks over the list is left out, and the operations of the heap are modelled one at a time.
- Pmm.Pmm.constructor: the bitmap is an array of its own, not part of physical memory; what the marked blocks cover of it is `Pmm.StorageMarked`'s. Available entries end below 4 GiB, as the 32-bit end would otherwise be cut, and the marked blocks lie in the bitmap's range.
- Pmm.Pmm.FreePage: `pmm_free_page` takes no lock; frees and allocations are modelled one after the other.
- Vmm.Vmm.constructor: two frames must be free, since the code does not check these allocations, and frame 0 must be used, since it reads as a null pointer.
- Vmm.Vmm.MapPage: physical address page-aligned and flags in the low twelve bits, so that entries are sums of their fields; the translation buffer and the reachability of tables above the identity map are not modelled.
- Vmm.Vmm.AllocPage: `next_virt` has not wrapped around below the dynamic region.
- Strings.Atoi: the digits must denote a value below 2^31, since signed overflow is undefined in C.
- Format.Vsnprintf: a size larger than the buffer, but for those whose end pointer wraps around; and what is read past the end of the format.
- Tty.Terminal.Putchar: the terminal's lock is left out, and so are the colour bytes, but for what `Vga.TextBuffer.Write` says of them.
- Tty.Terminal.HandleKeypress: the store one past the buffer follows the layout of `tty_t` (include/kernel/tty/tty.h:14-24) on a little-endian machine; C leaves it undefined.
- InputSystem.EveryInterleaving: safety only; on one processor a pop interrupted inside its critical section blocks for good, as `InputSystem.InterruptedPopBlocks` says.
- Pci.Scan.ScanBus: `pci_get_device_info`, class names, log text and the packing of configuration addresses.
- `spinlock_trylock`, which nothing calls, `memcmp`, and `snprintf`'s variadic wrapper.
- Driver registration and selection, keymaps, GDT and IDT, interrupts, port I/O, boot code: hardware effects or tables without a property that spans functions.
- The VESA display driver, and any screen size other than 80 by 25.
