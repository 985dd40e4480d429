# ErrorOS and gnu-efi, verified

A Dafny model of two parts of the repository, with proofs of what they are for.

**The kernel's memory stack.** Three layers rest on each other, and each is proved against a value
model of its own and then used by the next:

- *Page frames.* `Bitmaps.dfy` is the packed bitmap, `FramePool.dfy` the allocator as a value (bits,
  cursor, three counters), `MemoryMap.dfy` what start-up makes of an EFI memory map, and
  `PageFrameAllocator.dfy` the allocator itself, which refines them.
- *Page tables.* `Paging.dfy` has entries and indices, `PageTree.dfy` the four-level walk over physical
  memory and the invariant that tables form a tree, and `PageTableManager.dfy` proves that
  `MapMemory` is an update of the map from virtual to physical pages.
- *Heap.* `Segments.dfy` and `HeapLaws.dfy` are the heap as a list of segments and its laws over whole
  runs. `HeapImage.dfy` says how such a list lies in memory as doubly linked headers.
  `KernelMemory.dfy` is the memory the heap sees through the page tables, with every frame owned by
  exactly one of tables, heap, clients and the boot reservation. `KernelHeap.dfy` runs `malloc`,
  `free` and `ExpandHeap` store by store in that memory and proves that they refine the list.
- `KernelBoot.dfy` is the memory part of `_start`, from the memory map to a working heap.

**gnu-efi.** `Crc.dfy` (CRC-32 and table headers), `MetaMatch.dfy` (wildcards), `DevicePath.dfy` (device
paths), `Division.dfy` (64-bit by 32-bit division), `Numbers.dfy` (numbers as text) and `PrintEngine.dfy`
(buffered printing). `WideStrings.dfy` has the strings they share, `Words.dfy` the machine words.

Where code and intent differ, the model follows the code and a lemma says exactly when the intent
holds:

- The bitmap guards compare with `>`, so index Size*8 reaches the bit behind the bitmap
  (kernel/src/Bitmap.c:4). After a run of calls the counters are right iff the last call on that index,
  if any, gives the bit its first value (`RunAccounted`). After boot they are right iff the memory map
  leaves it alone (`BootKeeps`); on ordinary machines it need not (`BootMiscounts`).
- The page-range loops compute `i * 4096` in a 32-bit `int` (kernel/src/paging/PageFrameAllocator.c:80),
  taken here to wrap. They cover their range iff it is at most 2 GiB (`RangeComplete`), and a longer
  loop comes by the 2 GiB before its range instead (`VisitsIsReaches`). So reserved memory above 2 GiB
  stays allocatable (`ReservedPageIsFree`), and some below 2 GiB becomes so when an ordinary region is
  longer than that (`ReservedGigabyteIsFree`). `BootFreesTheRightFrames` has the exact condition.
- The mapping loops step by 4096 from an address that need not be on a page (kernel/src/kernel.c:86), so the
  extra page behind the framebuffer may be left out (`StepsExact`); the framebuffer itself never is
  (`BootMemory`).
- `Split` stores through `next` without a test (kernel/src/memory/heap.c:69). For the last header the
  store goes to address 0x10. Page 0 is mapped to frame 0, which is never handed out, so the heap is
  not affected; this is proved, not excluded.
- `DevicePathInstance` gives up after 513 nodes (gnu-efi/lib/dpath.c:77; `LongInstanceIsCut`), and the
  16-bit length of an unpacked node overflows above 65532 bytes (`LongNodeIsLost`).
- `MetaMatch` reads past a pattern if the match comes to an unclosed set and its scan runs on to the NUL
  (gnu-efi/lib/str.c:368; `UnclosedSet`). `MetaMatch` is proved right exactly where that does not happen,
  and `HarmlessExactly` says for which patterns it never happens.
- `AppendDevicePathInstance` writes past its buffer iff the end node of the first path is longer than its
  header (gnu-efi/lib/dpath.c:430-431).
- The division is documented for 31-bit divisors; 2^31 itself works too and nothing above it does.

Functions that say what the code computes are pinned by laws in plain numbers: `TranslateReads` for the
page walk, `AllocBlock` and `HeapDetermined` for the heap, `ApplyChanges` for the counters, `Residue` for the
checksum, `UnpackedNodeAt` for device paths, and the like for text.

Member names below are qualified by module and class.

## Model

| member | source | states |
|---|---|---|
| `Bitmaps.FlagLaws` | kernel/src/Bitmap.c:15-26 | Writing bit `i` of a byte gives that bit the new value and leaves the other seven. |
| `Bitmaps.Masks` | kernel/src/Bitmap.c:6-8 | The masks of the eight flags, most significant bit first, as numbers. |
| `Bitmaps.ByteUpdate` | kernel/src/Bitmap.c:15-26 | Writing one byte updates exactly one bit of the whole bit sequence, most significant bit first. |
| `Bitmaps.Bitmap.GetBitmap` | kernel/src/Bitmap.c:3-13 | The bit at the index, or false past the guard; with the `>` of the guard, index Size*8 reads the bit after the bitmap. |
| `Bitmaps.Bitmap.SetBitmap` | kernel/src/Bitmap.c:15-26 | True iff the guard passes, and then exactly the bit at the index changes in the buffer. |
| `FramePool.RequestIsLowest` | kernel/src/paging/PageFrameAllocator.c:52-62 | In every valid state (all bits below the cursor set) a request returns the lowest clear page and sets its bit, or nothing iff no bit is clear. |
| `FramePool.RequestAt` | kernel/src/paging/PageFrameAllocator.c:52-62 | A scan from the cursor that passed only set bits has found what the full scan finds. |
| `FramePool.ApplyChanges` | kernel/src/paging/PageFrameAllocator.c:68-130 | What each of the four operations does to the bit, each of the three counters and the cursor, in numbers; nothing if the bit has that value already or the index is past the guard. |
| `FramePool.ApplyKeepsValid` | kernel/src/paging/PageFrameAllocator.c:68-136 | Every page operation, on any index, keeps all bits below the cursor set. |
| `FramePool.ApplyConserves` | kernel/src/paging/PageFrameAllocator.c:68-130 | Every single-page operation on any index conserves, modulo 2^64, used + reserved - 4096 * (set bits) and free + 4096 * (set bits). |
| `FramePool.RunKeeps` | kernel/src/paging/PageFrameAllocator.c:52-136 | Both balances and the cursor invariant hold over any run of page operations and requests. |
| `FramePool.RunStray` | kernel/src/paging/PageFrameAllocator.c:64-136 | The bit behind the bitmap, which the `>` guard lets through, holds after any run what the last page operation on its index gives it, or its first value if there is none. |
| `FramePool.RunAccounted` | kernel/src/paging/PageFrameAllocator.c:64-136 | From counters that agree with the bitmap, after any run they agree again iff the last operation on the index behind the bitmap, if there is one, gives the bit there its first value: the calls alone decide. |
| `FramePool.LockBehindBitmap` | kernel/src/Bitmap.c:3-26 | An input on which it fails: one `LockPage` on the index behind a clear bit there makes right counters wrong. |
| `FramePool.HeldIsExact` | kernel/src/paging/PageFrameAllocator.c:53-76 | Over any interleaving of requests and frees of outstanding pages, a bit is set iff it was set at the start or its page is outstanding, never both. |
| `FramePool.RequestUsesOne` | kernel/src/paging/PageFrameAllocator.c:53-62 | A request succeeds iff a frame is free, and then uses up exactly one. |
| `FramePool.FreeUsesOne` | kernel/src/paging/PageFrameAllocator.c:68-76 | Freeing a taken frame makes exactly one more available. |
| `FramePool.RangeComplete` | kernel/src/paging/PageFrameAllocator.c:78-82 | A page-range loop reaches every frame of its range iff the range is at most 2^19 frames, and then no other: the offset `i * 4096` is a 32-bit `int` and wraps. A longer loop never reaches frame 2^19 of its range. |
| `FramePool.VisitsIsReaches` | kernel/src/paging/PageFrameAllocator.c:78-82 | Which frames a range loop operates on, in closed form for every address and length: the first 2^19 frames from the address on, and for a longer loop those from 2^19 frames before the address on, modulo 2^52. |
| `FramePool.RangeBits` | kernel/src/paging/PageFrameAllocator.c:78-136 | A range loop of any length sets exactly the bits of the frames in that closed form, and keeps the others. |
| `FramePool.RangeKeeps` | kernel/src/paging/PageFrameAllocator.c:78-136 | A range loop of any length keeps the cursor invariant and both balances. |
| `FramePool.RangeCounter` | kernel/src/paging/PageFrameAllocator.c:78-136 | Loops that lock or free leave the reserved bytes alone, loops that reserve or unreserve the used ones. |
| `FramePool.LockTakes` | kernel/src/paging/PageFrameAllocator.c:93-97 | `LockPages` takes every frame of its range, up to 2 GiB from its start. |
| `MemoryMap.LargestIsMaximum` | kernel/src/paging/PageFrameAllocator.c:16-27 | The size found is at least that of every type-7 region and, when positive, belongs to the first of that size, at the address found. |
| `MemoryMap.MemorySizeIs` | kernel/src/memory.c:3-13 | The memory size is 4096 times the pages of all regions, modulo 2^64. |
| `MemoryMap.BitmapFits` | kernel/src/paging/PageFrameAllocator.c:31 | The bitmap has a bit for every frame and at most eight more; the pages locked for it hold its bytes and at most one page more. |
| `MemoryMap.BootCounters` | kernel/src/paging/PageFrameAllocator.c:29-48 | Which counter boot puts a frame in: reserved if it is set before the bitmap is locked, used if locking the bitmap sets it. |
| `MemoryMap.BootStray` | kernel/src/paging/PageFrameAllocator.c:29-48 | The bit behind the bitmap after boot, from its first value and the memory map: a conventional region that reaches its index clears it, the reservation of the first 0x100 pages and the bitmap's own pages set it. |
| `MemoryMap.BootKeeps` | kernel/src/paging/PageFrameAllocator.c:9-49 | After boot the cursor invariant holds, and the counters agree with the bitmap iff that value is the first one. |
| `MemoryMap.BootMiscounts` | kernel/src/paging/PageFrameAllocator.c:9-49 | An input on which they do not: 16 MiB of memory from 1 MiB on, with the bit behind the bitmap set. |
| `MemoryMap.BootExact` | kernel/src/paging/PageFrameAllocator.c:9-49 | For every memory map, with every wrap of the loops and in closed form: exactly which frames boot leaves free. |
| `MemoryMap.BootFrame` | kernel/src/paging/PageFrameAllocator.c:29-48 | Frame by frame and for every memory map, exactly when boot leaves the frame free iff k >= 0x100, in a type-7 region and outside the bitmap. |
| `MemoryMap.BootRightFrames` | kernel/src/paging/PageFrameAllocator.c:9-49 | The same over all of memory, for every memory map and wherever the bitmap is placed. |
| `MemoryMap.BootFreesTheRightFrames` | kernel/src/paging/PageFrameAllocator.c:9-49 | With the bitmap inside the address space: every frame up to memorySize/4096 is free iff k >= 0x100, in a type-7 region and outside the bitmap - iff no frame escapes, that is, none outside those is past 2 GiB or reached by the loop over a region longer than 2 GiB. |
| `MemoryMap.ReachesBelow2GiB` | kernel/src/paging/PageFrameAllocator.c:37-42 | The frames below 2 GiB that the loop over one region reaches, in terms of its address and length. |
| `MemoryMap.ShortRegionsBelow2GiB` | kernel/src/paging/PageFrameAllocator.c:37-42 | Below 2 GiB no frame escapes if every type-7 region has at most 2 GiB and lies in the address space. |
| `MemoryMap.BootTail` | kernel/src/paging/PageFrameAllocator.c:31-35 | For every memory map: the frames past the end of memory that share the last bitmap byte are left free, unless low or reached by the bitmap's loop. |
| `MemoryMap.ReservedPageIsFree` | kernel/src/paging/PageFrameAllocator.c:35 | A machine where the boot property fails: a reserved page at 2 GiB is handed out. |
| `MemoryMap.ReservedGigabyteIsFree` | kernel/src/paging/PageFrameAllocator.c:37-42 | Another: 3 GiB of ordinary memory above 2 GiB of reserved memory, and the reserved page at 1 GiB is handed out. |
| `MemoryMap.ReservedBelow2GiB` | kernel/src/paging/PageFrameAllocator.c:35 | The loop that reserves all of memory reaches exactly the frames below 2 GiB. |
| `PageFrameAllocators.PageFrameAllocator.SkipTaken` | kernel/src/paging/PageFrameAllocator.c:54-55 | The search loop: moves the cursor to the first clear bit or the end, past set bits only. |
| `PageFrameAllocators.PageFrameAllocator.RequestPage` | kernel/src/paging/PageFrameAllocator.c:53-62 | Takes the lowest clear frame, returns its address and moves 4096 bytes from free to used; with none clear, returns 0 and changes no bit. The whole new state is that of the value model. |
| `PageFrameAllocators.PageFrameAllocator.FreePage` | kernel/src/paging/PageFrameAllocator.c:68-76 | Clears a set bit, moves 4096 bytes from used to free and the cursor down to the frame; any other index changes nothing. The state stays valid. |
| `PageFrameAllocators.PageFrameAllocator.LockPage` | kernel/src/paging/PageFrameAllocator.c:84-91 | Sets a clear bit and moves 4096 bytes from free to used; else changes nothing. |
| `PageFrameAllocators.PageFrameAllocator.UnreservePage` | kernel/src/paging/PageFrameAllocator.c:107-115 | Clears a set bit, moves 4096 bytes from reserved to free and the cursor down to the frame; else changes nothing. |
| `PageFrameAllocators.PageFrameAllocator.ReservePage` | kernel/src/paging/PageFrameAllocator.c:123-130 | Sets a clear bit and moves 4096 bytes from free to reserved; else changes nothing. |
| `PageFrameAllocators.PageFrameAllocator.FreePages` | kernel/src/paging/PageFrameAllocator.c:78-82 | The new state is the range operation, `int` wrap included. |
| `PageFrameAllocators.PageFrameAllocator.LockPages` | kernel/src/paging/PageFrameAllocator.c:93-97 | The same for Lock. |
| `PageFrameAllocators.PageFrameAllocator.UnreservePages` | kernel/src/paging/PageFrameAllocator.c:117-121 | The same for Unreserve. |
| `PageFrameAllocators.PageFrameAllocator.ReservePages` | kernel/src/paging/PageFrameAllocator.c:132-136 | The same for Reserve. |
| `PageFrameAllocators.PageFrameAllocator.GetMemorySize` | kernel/src/memory.c:3-13 | The sum of all regions modulo 2^64, memoised in its static once it is positive. |
| `PageFrameAllocators.PageFrameAllocator.InitBitmap` | kernel/src/paging/PageFrameAllocator.c:99-105 | Clears exactly the bytes of the bitmap and leaves the byte behind it. |
| `PageFrameAllocators.PageFrameAllocator.FindLargest` | kernel/src/paging/PageFrameAllocator.c:16-27 | Returns the address of the largest type-7 region. |
| `PageFrameAllocators.PageFrameAllocator.ReadEFIMemoryMap` | kernel/src/paging/PageFrameAllocator.c:9-49 | Ends in the boot pool of the memory map, with the bitmap in the largest type-7 region. |
| `Paging.PageDirectoryEntry.SetFlag` | kernel/src/paging/paging.c:3-14 | Sets exactly one bit of the entry: `GetFlag` reads it back, and every other flag as before. |
| `Paging.PageDirectoryEntry.SetAddress` | kernel/src/paging/paging.c:16-20 | Replaces exactly bits 12 to 51 by the low 40 bits of the address, which `GetAddress` reads back. |
| `Paging.EntryForReads` | kernel/src/paging/PageTableManager.c:23-25 | An entry written with address, Present and ReadWrite reads back present, writable and with that frame. |
| `Paging.EntryForBits` | kernel/src/paging/PageTableManager.c:57-60 | The same in numbers: bits 0 and 1 set, bits 12 to 51 the frame, bits 2 to 11 and 52 to 63 as before. |
| `Paging.FillEntry` | kernel/src/paging/PageTableManager.c:57-60 | The three calls build that entry. |
| `Paging.PageMapIndexer.constructor` | kernel/src/paging/PageMapIndexer.c:3-13 | The four fields are the nine bits of the address from 39, 30, 21 and 12 on. |
| `Paging.IndicesAre` | kernel/src/paging/PageMapIndexer.c:3-13 | They are the indices that the walk uses at the four levels. |
| `Paging.FourIndices` | kernel/src/paging/PageMapIndexer.c:3-13 | The four indices determine the page: equal indices mean equal pages below 2^48. |
| `PageTree.TranslateReads` | kernel/src/paging/PageTableManager.c:13-62 | The four-level walk of sections 4.5 and 4.6 of the Intel SDM, Volume 3A, with every index, bit and shift written out: the frame, and write access iff bit 1 is set in all four entries. |
| `PageTree.TranslateIsLeaf` | kernel/src/paging/PageTableManager.c:13-62 | In a tree of non-shared tables the walk ends in the leaf entry that the tree assigns to the page, and every entry before it allows writing. |
| `PageTree.LinkKeepsTree` | kernel/src/paging/PageTableManager.c:21-26 | Linking a cleared frame into an absent entry keeps the tables a tree. |
| `PageTree.LinkKeepsTranslation` | kernel/src/paging/PageTableManager.c:21-26 | It changes the translation of no page. |
| `PageTree.LeafWrite` | kernel/src/paging/PageTableManager.c:57-61 | Writing one leaf entry changes the translation of its page and of no other. |
| `PageTree.OtherWrites` | kernel/src/memory/heap.c:18-23 | Writes to frames that are not page tables change no translation. |
| `PageTree.EmptyTree` | kernel/src/kernel.c:75-77 | A zeroed root is a tree that translates nothing. |
| `PageTableManagers.PageTableManager.ClearFrame` | kernel/src/memory.c:15-19 | `memset(table, 0, 0x1000)`: zeroes the words of that frame and no others. |
| `PageTableManagers.PageTableManager.CreateRoot` | kernel/src/kernel.c:75-77 | An empty PML4 in a frame of its own. |
| `PageTableManagers.PageTableManager.LinkFrame` | kernel/src/paging/PageTableManager.c:22-26 | The frame zeroed and the entry written, present and writable; every other word stays. |
| `PageTableManagers.PageTableManager.NewTable` | kernel/src/paging/PageTableManager.c:20-26 | A missing table takes one allocator frame, is linked, and keeps the tree valid. |
| `PageTableManagers.PageTableManager.AddTable` | kernel/src/paging/PageTableManager.c:20-26 | The same with what it leaves alone: no translation changes, and no frame but the tables. |
| `PageTableManagers.PageTableManager.NextTable` | kernel/src/paging/PageTableManager.c:18-29 | One level of the walk: existing or new table, no translation changed. |
| `PageTableManagers.PageTableManager.WriteLeaf` | kernel/src/paging/PageTableManager.c:57-61 | The page translates to the frame and may be written; the other bits of its entry are as before, and all other pages too. |
| `PageTableManagers.PageTableManager.MapMemory` | kernel/src/paging/PageTableManager.c:13-62 | A map update: afterwards the page translates to the physical page and may be written, with bits 2 to 11 and 52 to 63 of its entry as before; every other page below 2^48 as before; only missing tables took frames, and frames that are no tables keep their contents. |
| `KernelMemory.AddressSpace.constructor` | kernel/src/kernel.c:90-92 | After boot every taken frame belongs to a table or is set aside. |
| `KernelMemory.AddressSpace.Load` | kernel/src/memory/heap.c:42-57 | A read through the page tables returns the word last stored at that address. |
| `KernelMemory.AddressSpace.Store` | kernel/src/memory/heap.c:68-75 | A write through the page tables changes that word of the heap and no other, no translation and no owner; into page 0 it leaves the heap as it is. |
| `KernelMemory.AddressSpace.MapHeapPage` | kernel/src/memory/heap.c:10-11 | One more heap page, which may be written, on a frame nobody else uses; old heap words keep their values and no frame is given back. |
| `KernelMemory.AddressSpace.MapHeapPages` | kernel/src/memory/heap.c:90-93 | The page loop, with the exact number of frames it uses. |
| `KernelMemory.AddressSpace.RequestFrame` | kernel/src/paging/PageFrameAllocator.c:53-62 | A client gets a frame that no table, heap page or other client has, and never page 0; 0 iff none is free. |
| `KernelMemory.AddressSpace.ReleaseFrame` | kernel/src/paging/PageFrameAllocator.c:68-76 | Giving back a held frame keeps all ownership. |
| `KernelMemory.AddressSpace.MapElsewhere` | kernel/src/paging/PageTableManager.c:13-62 | A mapping outside heap and identity pages keeps heap contents, mappings and ownership. |
| `KernelMemory.HeapPagesPrivate` | kernel/src/memory/heap.c:90-93 | Every heap page is mapped, to a taken frame that no other heap page, page table or client has and that was not set aside at boot. |
| `Segments.PageRoundCovers` | kernel/src/memory/heap.c:81-87 | `ExpandHeap` rounds to the least number of whole pages that holds the length. |
| `Segments.TakenLength` | kernel/src/memory/heap.c:44-79 | Of the segment it takes, `malloc` keeps the size asked for if at least 48 bytes are left, which become a free segment; otherwise all of it. |
| `Segments.TakeKeepsValid` | kernel/src/memory/heap.c:44-54 | Taking a fitting segment, split or whole, keeps the invariant: tiling of the heap, positive multiples of 16, no two free neighbours. |
| `Segments.FreeMelts` | kernel/src/memory/heap.c:26-31 | `free` turns the block and its free neighbours into one free segment and keeps all others. |
| `Segments.MeltedSpans` | kernel/src/memory/heap.c:104-120 | That segment covers exactly the bytes of its parts. |
| `Segments.FreeKeepsValid` | kernel/src/memory/heap.c:26-31 | `free` keeps the invariant and the ends of the heap. |
| `Segments.ExpandKeepsValid` | kernel/src/memory/heap.c:81-102 | `ExpandHeap` keeps the invariant and leaves a free last segment. |
| `Segments.ExpandHelps` | kernel/src/memory/heap.c:59-60 | Each expansion brings `malloc` closer to success; it terminates after at most two. |
| `Segments.Ordered` | kernel/src/memory/heap.c:63-79 | Segments lie in address order without overlap. |
| `Segments.Aligned` | kernel/src/memory/heap.c:35-38 | Headers are 16-byte aligned and inside the heap. |
| `HeapLaws.AllocIsLowestFit` | kernel/src/memory/heap.c:34-61 | `malloc` expands at most twice, and only while no free segment is large enough, then returns the lowest-addressed one that fits the rounded size. |
| `HeapLaws.ExpansionsExact` | kernel/src/memory/heap.c:59-60 | While the scan fails, every expansion reduces the number still needed by exactly one. |
| `HeapLaws.FreeUndoesTake` | kernel/src/memory/heap.c:26-54 | Freeing what was just taken restores the segment list exactly. |
| `HeapLaws.FreeUndoesAlloc` | kernel/src/memory/heap.c:26-61 | `free(malloc(n))` restores the list when no expansion took place, and otherwise leaves it as the expansions did. |
| `HeapLaws.FreeLive` | kernel/src/memory/heap.c:26-31 | `free` ends the life of that block only. |
| `HeapLaws.AllocLive` | kernel/src/memory/heap.c:34-61 | `malloc` adds one new block, longer than the size by less than 48 bytes, and keeps all others. |
| `HeapLaws.AllocBlock` | kernel/src/memory/heap.c:34-61 | The same for the size before rounding: `size <= len < size + 48`, at a payload 32 bytes behind the header and 16-byte aligned. |
| `HeapLaws.HeapDetermined` | kernel/src/memory/heap.c:26-120 | A heap is determined by its bounds and its live blocks: there is only one right list of free segments. |
| `HeapLaws.FreeExactly` | kernel/src/memory/heap.c:26-31 | `free` leaves the one valid heap with the same bounds and that block gone. |
| `HeapLaws.RoundSizeCovers` | kernel/src/memory/heap.c:35-38 | The rounded size is the next multiple of 16, except that the last 15 sizes wrap to zero, and `malloc` returns NULL. |
| `HeapLaws.RunSound` | kernel/src/memory/heap.c:26-120 | Over any run of `malloc`, `free` and `ExpandHeap` the invariant holds and the blocks owed to callers are exactly the live ones. |
| `HeapLaws.SoundSeparates` | kernel/src/memory/heap.c:26-120 | In such a state live payloads are 16-byte aligned, inside the heap, pairwise disjoint, apart from every header, and as large as requested. |
| `HeapLaws.FreeAllLeavesOne` | kernel/src/memory/heap.c:26-31 | Freeing every live block, in any order, leaves one free segment spanning the heap. |
| `HeapImage.CombineImage` | kernel/src/memory/heap.c:104-116 | The stores of `CombineForward` take the next header out of the doubly linked list and leave it well linked. |
| `HeapImage.SplitImage` | kernel/src/memory/heap.c:68-75 | The stores of `Split` put a new header after the old one; `last` stays the inverse of `next`. |
| `HeapImage.AppendImage` | kernel/src/memory/heap.c:95-100 | The stores of `ExpandHeap` link a new last header. |
| `HeapImage.FreeImage` | kernel/src/memory/heap.c:28 | Setting the `free` byte changes that member of that header alone. |
| `HeapImage.InitImage` | kernel/src/memory/heap.c:18-22 | The first header is a list of one. |
| `KernelHeap.HeaderAt` | kernel/src/memory/heap.h:8-13 | A header in memory: length, next, last and free at offsets 0, 8, 16 and 24 say what the list says. |
| `KernelHeap.KernelHeap.CombineForward` | kernel/src/memory/heap.c:104-116 | Memory, `LastHdr` and list change as combining with a free next segment, whether or not the header itself is free, and no payload in use changes. |
| `KernelHeap.KernelHeap.CombineBackward` | kernel/src/memory/heap.c:118-120 | The same for a free segment before. |
| `KernelHeap.KernelHeap.SplitLinks` | kernel/src/memory/heap.c:69-72 | The four link stores in order; for the last header the first of them, which is unguarded, goes to address 0x10 in page 0 and leaves the heap alone. |
| `KernelHeap.KernelHeap.SplitStores` | kernel/src/memory/heap.c:68-75 | All stores of `Split` as one change of the heap memory. |
| `KernelHeap.KernelHeap.Split` | kernel/src/memory/heap.c:63-79 | Splits iff the size is at least 16 and leaves at least 48 bytes: then the segment has exactly the size, and the rest but 32 bytes is a free one after it. List, `LastHdr` and memory agree and no payload in use changes. |
| `KernelHeap.KernelHeap.SplitOff` | kernel/src/memory/heap.c:68-78 | The part of `Split` that makes the new header. |
| `KernelHeap.KernelHeap.Free` | kernel/src/memory/heap.c:26-31 | Refines `free` on the segment list; every other block keeps its contents. |
| `KernelHeap.KernelHeap.ExpandHeap` | kernel/src/memory/heap.c:81-102 | Refines expansion on the segment list over freshly mapped pages: the heap grows by the length rounded up to a page and ends in a free segment; every block keeps its contents; the frames used are counted exactly. |
| `KernelHeap.KernelHeap.Visit` | kernel/src/memory/heap.c:43-55 | One step of the loop: takes the segment iff it fits, or leaves everything as it is. |
| `KernelHeap.KernelHeap.Scan` | kernel/src/memory/heap.c:42-57 | The loop takes the first segment that fits, or leaves everything as it is and returns NULL. |
| `KernelHeap.KernelHeap.Malloc` | kernel/src/memory/heap.c:34-61 | NULL iff the size is 0 or one of the last 15; otherwise the 16-byte aligned payload of a block in use with `size <= len < size + 48`. Refines `malloc` on the segment list, returned pointer included, and keeps the contents of every block in use. |
| `KernelHeap.KernelHeap.InitializeHeap` | kernel/src/memory/heap.c:6-24 | Ends with one free segment over freshly mapped pages, 32 bytes shorter than they are. |
| `KernelHeap.KernelHeap.StorePayload` | kernel/src/memory/heap.c:48 | A program writing inside its own block keeps the heap valid and changes that word only. |
| `KernelHeap.GrowthServes` | kernel/src/memory/heap.c:59-60 | Frames and addresses enough for `malloc` before an expansion are enough for the rest after it. |
| `KernelBoot.MapIdentity` | kernel/src/kernel.c:79-81 | The mapping loop maps exactly its pages onto themselves, with the exact number of frames used. |
| `KernelBoot.StepsExact` | kernel/src/kernel.c:86-88 | Which ranges the mapping loop covers: it steps from the start of the range, and misses the last page iff the first and last bytes spill over one more page. |
| `KernelBoot.MapMachine` | kernel/src/kernel.c:75-88 | Every address of memory and of the framebuffer translates to itself and may be written, with the extra page when the framebuffer starts on one; its frames below the limit, up to 2 GiB from its start, are taken. |
| `KernelBoot.PageZeroTaken` | kernel/src/paging/PageFrameAllocator.c:46 | Page 0 is taken after boot, so a NULL from the allocator is unambiguous. |
| `KernelBoot.StartAllocator` | kernel/src/kernel.c:65-73 | The allocator after boot, with the frames of the kernel taken and nothing given back. |
| `KernelBoot.BootMemory` | kernel/src/kernel.c:65-92 | The whole memory sequence of `_start`: memory and framebuffer mapped onto themselves for good, kernel and framebuffer frames taken, nothing taken at boot given back, and a heap of one free segment of 0xFFE0 bytes on pages of its own. |
| `Crc.TableEntry` | gnu-efi/lib/crc.c:22-66 | Every one of the 256 table entries is its index after eight bit steps with polynomial 0xEDB88320. |
| `Crc.BitStepXor` | gnu-efi/lib/crc.c:202-218 | The bit step of the reflected CRC is linear over exclusive or. |
| `Crc.StepsAgree` | gnu-efi/lib/crc.c:211-215 | The table-driven step in a 64-bit word is the bit-by-bit step, and the upper half stays zero. |
| `Crc.CalculateCrc` | gnu-efi/lib/crc.c:202-218 | For every byte string the result is the bit-by-bit CRC-32 of section 8 of RFC 1952. |
| `Crc.EmptyCrc` | gnu-efi/lib/crc.c:202-218 | The checksum of nothing is 0. |
| `Crc.Residue` | gnu-efi/lib/crc.c:202-218 | Every string followed by its own checksum, low byte first, has the checksum 0x2144DF1C. |
| `Crc.CheckValue` | gnu-efi/lib/crc.c:202-218 | The checksum of "123456789" is 0xCBF43926. |
| `Crc.StepsInjective` | gnu-efi/lib/crc.c:211-215 | A difference in the state survives every later byte. |
| `Crc.BurstChangesCrc` | gnu-efi/lib/crc.c:202-218 | Two strings that differ only within four consecutive bytes have the same checksum iff they are equal. |
| `Crc.SetCrcAltSize` | gnu-efi/lib/crc.c:94-116 | Bytes 16 to 19 are set to the checksum of the header with those bytes zero; no other byte changes. |
| `Crc.CheckCrcAltSize` | gnu-efi/lib/crc.c:147-198 | True iff the size is positive and within the maximum and bytes 16 to 19 are the checksum of the header with those bytes zero; the header is left as it was. |
| `Crc.SetThenChecks` | gnu-efi/lib/crc.c:94-198 | A header just set passes the check iff the size is positive and within the maximum. |
| `Crc.BurstNoticed` | gnu-efi/lib/crc.c:147-198 | A burst of up to four bytes outside the field is noticed iff it changes a covered byte. |
| `Crc.FieldChangeNoticed` | gnu-efi/lib/crc.c:147-198 | Any change of the CRC32 field is noticed. |
| `MetaMatching.StarLanguage` | gnu-efi/lib/str.c:342-350 | In the declarative language a star takes any number of characters. |
| `MetaMatching.OneLanguage` | gnu-efi/lib/str.c:352-407 | Every other token takes exactly one. |
| `MetaMatching.PlainSet` | gnu-efi/lib/str.c:367-390 | A set without a dash admits its own characters. |
| `MetaMatching.RangeSet` | gnu-efi/lib/str.c:367-390 | "[a-b]" admits the characters from one to the other. |
| `MetaMatching.EdgeDashes` | gnu-efi/lib/str.c:367-390 | A dash in front is a range from zero, and one at the end admits nothing. |
| `MetaMatching.PlainPattern` | gnu-efi/lib/str.c:326-409 | A pattern without wildcards matches itself and nothing else. |
| `MetaMatching.WildPatterns` | gnu-efi/lib/str.c:326-409 | "*" matches every string and "?" those of one character. |
| `MetaMatching.SetPattern` | gnu-efi/lib/str.c:326-409 | "[x]" matches "x" only. |
| `MetaMatching.ScanSet` | gnu-efi/lib/str.c:360-396 | The set loop finds the character iff some element or range of the set body admits it, and then stands behind the closing bracket; in an unclosed set it runs past the NUL, unless it stops short at a dash in the last place. |
| `MetaMatching.ClosedIsSafe` | gnu-efi/lib/str.c:326-409 | A match of a pattern whose sets are all closed never reads past the pattern, on any string. |
| `MetaMatching.HarmlessExactly` | gnu-efi/lib/str.c:360-396 | The patterns for which that holds on every string, exactly: those with no unclosed set, but for one whose body is a lone dash or that follows a set which admits nothing. |
| `MetaMatching.OverRead` | gnu-efi/lib/str.c:360-396 | For every other pattern, a string on which the matcher reads past the pattern. |
| `MetaMatching.UnclosedSet` | gnu-efi/lib/str.c:360-396 | An input on which it does: "[a" on "a". |
| `MetaMatching.UnreachedSet` | gnu-efi/lib/str.c:326-409 | An input on which it does not, though a set is unclosed: "a[b" on "x". |
| `MetaMatching.MetaMatch` | gnu-efi/lib/str.c:326-409 | For every pattern and string: terminates, stays inside the pattern iff the match does not come to an unclosed set whose scan runs on, and then returns TRUE iff the string is in the language of the pattern. |
| `DevicePaths.WalkIsHolds` | gnu-efi/inc/efidevp.h:50-58 | Walking a buffer and encoding a path undo each other, in both directions. |
| `DevicePaths.DevicePathSize` | gnu-efi/lib/dpath.c:287-307 | The bytes up to the end node plus its header. |
| `DevicePaths.DuplicateDevicePath` | gnu-efi/lib/dpath.c:310-334 | A fresh copy byte for byte up to and with the header of the end node, or null iff the pool refuses. |
| `DevicePaths.UnpackedSize` | gnu-efi/lib/dpath.c:350-363 | The sizing pass, which aligns the running total, is the sum of the aligned nodes. |
| `DevicePaths.UnpackNode` | gnu-efi/lib/dpath.c:382-386 | The bytes of one unpacked node: bit 7 of the type set, sub-type, length rounded up to a multiple of four, payload, and zeros. |
| `DevicePaths.UnpackDevicePath` | gnu-efi/lib/dpath.c:337-394 | The copy pass fills the allocated bytes exactly; if no node exceeds 65532 bytes, walking them finds every node with its type marked, its sub-type, its payload and at most three zeros. |
| `DevicePaths.CopyNodes` | gnu-efi/lib/dpath.c:375-391 | The copy pass by itself, whatever the lengths. |
| `DevicePaths.UnpackedNodeAt` | gnu-efi/lib/dpath.c:382-386 | What is found at each place, in numbers. |
| `DevicePaths.UnpackedWalks` | gnu-efi/lib/dpath.c:337-394 | Walking the result gives the same nodes, unpacked, iff no node is longer than 65532 bytes: beyond, the 16-bit length becomes zero. |
| `DevicePaths.LongNodeIsLost` | gnu-efi/lib/dpath.c:382-386 | A path where it fails: a node of 65533 bytes. |
| `DevicePaths.InstancesOfJoined` | gnu-efi/lib/dpath.c:49-106 | The instances of a path are the parts it was joined from. |
| `DevicePaths.InstanceEnd` | gnu-efi/lib/dpath.c:68-85 | The counting loop ends at the node of end type, or after 513 nodes. |
| `DevicePaths.DevicePathInstance` | gnu-efi/lib/dpath.c:49-106 | Returns the instance bytes and the place of the next, stopping after 513 nodes as the code does. |
| `DevicePaths.DevicePathInstanceCount` | gnu-efi/lib/dpath.c:109-121 | The number of instances the calls find. |
| `DevicePaths.IteratedIsInstances` | gnu-efi/lib/dpath.c:49-106 | Repeated calls return the instances iff none has more than 513 nodes. |
| `DevicePaths.AppendDevicePathInstance` | gnu-efi/lib/dpath.c:398-433 | The copy of the second path stays inside the allocation iff the end node of the first has no payload. Then the new buffer holds the first path with its end turned into an instance end, and the second up to and with the header of its end; without a first path, a copy. |
| `DevicePaths.AppendedPath` | gnu-efi/lib/dpath.c:420-428 | The old end becomes an instance end, sub-type 1 instead of 0xFF, and the result is a path. |
| `DevicePaths.AppendedInstances` | gnu-efi/lib/dpath.c:398-433 | The instances of the joined path are those of the first followed by those of the second. |
| `DevicePaths.AppendedIterated` | gnu-efi/lib/dpath.c:49-121 | What the calls return on the joined path: those of the first, then those of the second iff the calls reach the end of the first. |
| `DevicePaths.AppendedCount` | gnu-efi/lib/dpath.c:109-121 | The count is additive iff the calls reach the end of the first path. |
| `DevicePaths.LongInstanceIsCut` | gnu-efi/lib/dpath.c:49-106 | A path where both fail: one instance of 514 nodes, the last with sub-type 0xFF. The calls cut it, and after any path joined to it the count is short. |
| `DevicePaths.AppendedShort` | gnu-efi/lib/dpath.c:398-433 | With no instance over 513 nodes, repeated calls on the joined path return the instances of both, in order. |
| `Division.StepDoubles` | gnu-efi/lib/ia32/math.c:154-190 | One iteration doubles remainder and dividend as one number and subtracts the divisor if it fits, while no bit is lost. |
| `Division.RunInvariant` | gnu-efi/lib/ia32/math.c:152-190 | What holds after every number of iterations: remainder, dividend and quotient so far. |
| `Division.DivU64x32` | gnu-efi/lib/x86_64/math.c:148-179 | The loop on 32-bit halves is 64 steps; for divisors up to 2^31 it gives quotient and remainder. |
| `Division.DivisionCorrect` | gnu-efi/lib/ia32/math.c:135-199 | Quotient and remainder for every dividend and every divisor up to 2^31. |
| `Division.DivisionWrong` | gnu-efi/lib/ia32/math.c:135-199 | For every larger divisor the dividend 2^32 gives quotient 0 and remainder 0. |
| `Division.DivisorBound` | gnu-efi/lib/ia32/math.c:135-199 | The division is right for every dividend iff the divisor is at most 2^31. |
| `Division.MultU64x32` | gnu-efi/lib/ia32/math.c:110-132 | The product by halves is the product modulo 2^64. |
| `Division.DivideMultiply` | gnu-efi/lib/ia32/math.c:110-199 | Multiplying the quotient back and adding the remainder gives the dividend. |
| `Numbers.ValueToString` | gnu-efi/lib/print.c:1292-1334 | Sign, decimal digits, commas if asked for, and a NUL at the front of the buffer; the rest is untouched. The least INT64 prints correctly. |
| `Numbers.ValueToHex` | gnu-efi/lib/print.c:1261-1288 | The hexadecimal digits and a NUL at the front of the buffer; the rest is untouched. |
| `Numbers.DigitsBackward` | gnu-efi/lib/print.c:1315-1318 | The digit loop, over the shift-subtract division, yields the digits last first, at most 20. |
| `Numbers.CopyDigits` | gnu-efi/lib/print.c:1320-1333 | The copying loop and its counter put a comma before a non-leading digit iff the digits left are a multiple of three. |
| `Numbers.SpreadIsGrouped` | gnu-efi/lib/print.c:1320-1333 | Those commas stand between groups of three digits from the right. |
| `Numbers.TextStrips` | gnu-efi/lib/print.c:1292-1334 | Stripping the commas gives the number as printed without them. |
| `Numbers.Atoi` | gnu-efi/lib/str.c:299-323 | Skips spaces and reads the digits up to the first other character, modulo 2^64. |
| `Numbers.Xtoi` | gnu-efi/lib/str.c:268-296 | The same for hexadecimal digits of either case. |
| `Numbers.HexRoundTrip` | gnu-efi/lib/print.c:1261-1288 | `xtoi` reads back every 64-bit number `ValueToHex` writes. |
| `Numbers.DecimalRoundTrip` | gnu-efi/lib/print.c:1292-1334 | `Atoi` reads back what `ValueToString` writes iff the number is not negative and has no comma. |
| `Numbers.SignedText` | gnu-efi/lib/print.c:1306-1309 | A negative number is written as a minus sign and then digits that parse to its magnitude. |
| `Numbers.DecimalDigits` | gnu-efi/lib/print.c:1315-1318 | The decimal digits are the characters from 0 to 9. |
| `Numbers.HexDigits` | gnu-efi/lib/print.c:1274-1279 | The hexadecimal digits are those and A to F. |
| `Numbers.DigitValues` | gnu-efi/lib/str.c:268-323 | What each character is worth to the parsers, and which are none. |
| `Numbers.ParseText` | gnu-efi/lib/str.c:268-323 | Leading spaces do not count, and reading ends at the first character that is no digit. |
| `Numbers.ParseGrows` | gnu-efi/lib/str.c:268-323 | One more digit multiplies by ten or sixteen and adds, modulo 2^64. |
| `Numbers.TextTerminated` | gnu-efi/lib/print.c:1333 | What is written is a string: its only NUL is its last character. |
| `PrintEngine.PutAllStream` | gnu-efi/lib/print.c:878-896 | Buffered printing is the unbuffered stream with each newline as carriage return and newline; the length counts it; the position stays below the end of the buffer. |
| `PrintEngine.ExpandReturns` | gnu-efi/lib/print.c:885-887 | In the stream every newline follows a carriage return. |
| `PrintEngine.ExpandUndone` | gnu-efi/lib/print.c:885-887 | Taking those carriage returns out gives back the text. |
| `PrintEngine.FixedReceives` | gnu-efi/lib/print.c:314-352 | A fixed string holds the stream up to its size, however the flushes divided it. |
| `PrintEngine.GrowingReceives` | gnu-efi/lib/print.c:356-397 | A growing string holds the whole stream iff every flush is granted its growth, a condition on the flushes and the pool; then its size is known and has room for the NUL. |
| `PrintEngine.EnoughIsGranted` | gnu-efi/lib/print.c:356-397 | A pool that grants the whole text, its NUL and 200 more grants all of them. |
| `PrintEngine.PutAllSliced` | gnu-efi/lib/print.c:878-896 | Which texts are flushed: the stream in slices. |
| `PrintEngine.SlicesAre` | gnu-efi/lib/print.c:878-896 | The slices make up the stream, and all but the last have 199 characters. |
| `PrintEngine.GrowthNeeded` | gnu-efi/lib/print.c:356-397 | A flush is appended iff it fits or the pool grants the growth; a refusal empties the string and its size. |
| `PrintEngine.PoolPrint.SPrint` | gnu-efi/lib/print.c:314-352 | Appends what fits and ends the text with a NUL. |
| `PrintEngine.PoolPrint.GrowPrint` | gnu-efi/lib/print.c:356-397 | Grows by the text, its NUL and 200 more when short, then appends. |
| `PrintEngine.PoolPrint.ReallocatePool` | gnu-efi/lib/misc.c:57-79 | Longer memory with the old text, or none. |
| `PrintEngine.PrintState.PFLUSH` | gnu-efi/lib/print.c:847-857 | Hands the pending text up to its first NUL to the worker and starts the buffer over. |
| `PrintEngine.PrintState.PPUTC` | gnu-efi/lib/print.c:878-896 | Stores a character, a newline after a carriage return, and flushes a full buffer. |
| `PrintEngine.PrintState.PITEM` | gnu-efi/lib/print.c:901-971 | Puts out an item of 16-bit or 8-bit characters padded to its width and field width, on the side asked for. |
| `PrintEngine.LayoutColumns` | gnu-efi/lib/print.c:916-971 | A field has as many columns as the larger of its widths; without a field width the item is whole. |
| `PrintEngine.LayoutPlaces` | gnu-efi/lib/print.c:916-971 | Where in the field the item, its padding and the spaces are. |
| `PrintEngine.PrintedAll` | gnu-efi/lib/print.c:878-896 | Printing a NUL-free text and flushing prints its stream to either worker (a growing one: iff granted), and the count is its length. |
| `PrintEngine.PrintState.PrintPlain` | gnu-efi/lib/print.c:1030-1042 | `_Print` for a 16-bit or 8-bit format without `%` does just that. |

## Left out

- KernelHeap.KernelHeap.Malloc: requires frames for the page tables and pages it may need; heap.c does not test `RequestPage` for NULL, and what happens after a failed request is not modelled.
- KernelHeap.KernelHeap.ExpandHeap: requires frames, for the same reason.
- KernelHeap.KernelHeap.InitializeHeap: requires frames, for the same reason.
- KernelHeap.KernelHeap.Split: modelled for a free header, as `malloc` calls it; splitting a block in use would overwrite its payload.
- KernelHeap.KernelHeap.SplitLinks: for a free header, as part of `Split`.
- KernelHeap.KernelHeap.SplitStores: for a free header, as part of `Split`.
- KernelHeap.KernelHeap.Free: takes the payload address of a block in use, as callers must pass.
- KernelBoot.BootMemory: assumes at least as many free frames as start-up needs, memory and framebuffer below the heap's address, and at most 2^31 pages; loading cr3 is not modelled, since the model translates through the tables directly. Every frame the bitmap calls free is taken to be usable memory, as the code takes it to be, and the free frames are counted so: that includes frames past the end of memory and reserved ones that boot leaves free (`BootTail`, `ReservedPageIsFree`). On a machine where such a frame is handed out, the results about tables and heap do not apply.
- KernelBoot.MapIdentity: requires frames for the missing tables.
- KernelBoot.StartAllocator: memory is less than 8 TiB, as for `ReadEFIMemoryMap`.
- KernelBoot.MapMachine: requires frames for the missing tables.
- PageFrameAllocators.PageFrameAllocator.ReadEFIMemoryMap: the bitmap is an array of its own, not a part of physical memory; the region for it must be large enough, which the code does not test; memory is less than 8 TiB, so that the `int` loop counters do not wrap.
- MemoryMap.BootFreesTheRightFrames: memory is less than 8 TiB, for the same loop counters, and the bitmap lies in the address space; `BootRightFrames` is for any place of the bitmap.
- FramePool.RangeComplete: the 32-bit wrap of `i * 4096` is taken as two's complement, though C leaves it undefined; page counts from 2^31 on, where `i` itself would wrap, are excluded.
- PageFrameAllocators.PageFrameAllocator.FreePages: page counts from 2^31 on are excluded, for the same reason.
- PageFrameAllocators.PageFrameAllocator.LockPages: page counts from 2^31 on are excluded, for the same reason.
- PageFrameAllocators.PageFrameAllocator.UnreservePages: page counts from 2^31 on are excluded, for the same reason.
- PageFrameAllocators.PageFrameAllocator.ReservePages: page counts from 2^31 on are excluded, for the same reason.
- PageTableManagers.PageTableManager.MapMemory: requires a frame for each missing table, since the code does not test `RequestPage` for NULL; physical memory is an array of 64-bit words, with words behind every frame of the bitmap; attributes other than Present and ReadWrite, large pages and the translation cache are not modelled.
- PageTableManagers.PageTableManager.CreateRoot: requires a free frame, for the same reason.
- PageTableManagers.PageTableManager.NewTable: requires a free frame, for the same reason.
- PageTableManagers.PageTableManager.NextTable: requires a free frame if the table is missing, for the same reason.
- KernelMemory.AddressSpace.MapHeapPage: requires frames for the page and its missing tables, for the same reason.
- KernelMemory.AddressSpace.MapHeapPages: requires frames for the pages and their missing tables, for the same reason.
- KernelMemory.AddressSpace.MapElsewhere: for pages that are neither the heap's nor identity-mapped, which a client has no business remapping.
- Memory is word-addressed: the `free` byte of a header is the low byte of its word, and bytes inside a payload word are not told apart.
- Crc.CheckCrcAltSize: `SetCrc` and `CheckCrc`, which take the size from the header itself, are not modelled.
- MetaMatching.MetaMatch: what the code does after it has read past the pattern is not modelled.
- DevicePaths.AppendDevicePathInstance: the pool grants the memory, since the code only asserts it; what a copy past the buffer overwrites is not modelled.
- DevicePaths.DevicePathInstance: the debug output and assertions on the sub-type are not modelled.
- PrintEngine.PoolPrint.SPrint: the string is a sequence in a field, not a C array, so aliasing between it and the print buffer is not modelled; a size below two bytes, which means no limit, is left out.
- PrintEngine.PrintState.PrintPlain: formats with `%` are left out; fields are covered by `PITEM`, numbers by `Numbers.dfy`, and output attributes not at all.
- Division.DivU64x32: a zero divisor is not considered. The shifts LShiftU64 and RShiftU64 are left out: in the GNU C build they are single expressions.
- Floating-point printing, the device-path text printers, `AppendDevicePath` with several instances and the other string routines.
- Everything that talks to firmware or devices: the bootloader, AHCI, PCI, ACPI, interrupts, graphics, keyboard and mouse.
