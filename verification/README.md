# apoptOS kernel: memory management, SMP bring-up and formatted output

This project models the core of the apoptOS kernel in Dafny and proves what that core is for. The
model follows the C code branch by branch, also where the code does something else than its comments
say; such places are stated as theorems with the exact condition under which the code is right.

## The layers

* **Machine words** (`Words`): C's `&`, `|`, `<<`, `>>` on naturals, bit by bit, and what the masks and
  alignments of this kernel compute.
* **Page allocator** (`Bitmaps`, `PmmSpec`, `PmmRanges`, `Pmms`): the bitmap on bytes, the first-fit
  scan as written and repaired, runs of requests, and `pmm_init` from a boot memory map.
* **Page tables** (`Layout`, `PageTables`, `PageTree`, `PageMap`, `PageCaching`, `PageRange`, `PageRun`, `BootWindows`,
  `Vmms`):
  memory is a sequence of tables of 512 words; the hardware walk (Intel 64 and IA-32 Architectures
  Software Developer's Manual, volume 3A, section 4.5) is a separate pure function; the imperative walk
  of `vmm.c` changes that function at exactly the pages it is asked to change.
* **Slab caches** (`SlabSpec`, `SlabRun`, `SlabGrow`, `SlabReap`, `SlabReapUnsafe`, `SlabReapRun`, `SlabMemory`,
  `Slabs`): slabs in list order with their free lists; the linked headers and threaded free lists in memory that
  represent them; runs of calls; reaping.
* **Heap** (`HeapSizes`, `HeapMemory`, `HeapSpec`, `HeapBooks`, `HeapCells`, `HeapSteps`, `HeapRun`, `HeapCreate`,
  `HeapIndex`, `HeapInit`, `HeapReach`, `HeapConserve`, `HeapRefused`, `HeapUnsafe`, `HeapRealloc`, `HeapPages`,
  `HeapShrink`, `HeapContents`, `HeapLoads`, `HeapWindow`, `Mallocs`):
  six caches and the page allocator behind `malloc`, `realloc` and `free`, on a memory of bytes that
  holds block headers, slab headers, free-list links and what the owners of blocks store. Statements
  about what the code gets wrong speak of reachable heaps: `malloc_heap_init`, then a run of calls.
* **Concurrency** (`Spinlocks`, `LockProgress`, `Gdts`, `Smps`, `SmpProgress`): the spinlock with the interrupt flag
  of each CPU, and SMP bring-up with the one shared TSS descriptor, as step functions run by arbitrary schedules.
* **Formatted output** (`PrintfText`, `PrintfRender`, `PrintfLayout`, `PrintfMeaning`, `PrintfCompose`, `Printfs`): the
  integer, character and string part of `_vsnprintf`, against an unbounded rendering; what every conversion prints,
  character by character.

Code that changes state in place is a class or a method over arrays (`Bitmap`, `Pmm`, `Vmm`,
`SlabCache`, `Kernel`, `Gdt`, the methods of `Printfs`); each method is tied to a function of the old
state, and the lemmas about runs speak of these functions.

## Where the code differs from its comments

* The multi-page scan divides the page offset by the page size and tests too few bits: it is sound
  exactly for one page (`PmmSpec.ScanSoundIffSinglePage`).
* A request for pages that is refused zeroes memory from address 0 on. A heap survives that exactly
  under the condition of `HeapRefused.RefusalKeepsIff`. So `malloc` is always safe exactly for sizes that
  fit one page, or whose rounding wraps to zero, with the scan as written and with the scan repaired
  (`HeapUnsafe.SafeIff`).
* The bitmap covers every page exactly under the condition of `Pmms.BitmapCovers`.
* A free object is filed under the first slab with room, so reaping is safe after every run exactly for
  caches of at most one slab (`SlabReapUnsafe.ReapSafeIffOneSlab`); a given cache survives it exactly under
  `SlabReapRun.ReapKeepsIff`.
* Growing a cache links new slabs after its head: slabs behind the head are lost exactly when there are
  any (`SlabGrow.GrowKeepsAllIff`).
* The header keeps 16 bits of a page count, which is exactly when `free` returns all pages
  (`HeapSteps.AllPagesBackIff`, and over all reachable heaps `HeapPages.ReturnsAllIff`).
* `realloc` forgets the header when it compares sizes: staying in place is right exactly under
  `HeapRealloc.StaysIff`. A moving call copies the class size, which is safe in every reachable heap
  exactly when the copy fits the new block (`HeapShrink.MovesSafelyIff`, with `HeapRealloc.CopyFitsIff`).
* `realloc` divides the page count of a block by the page size to get its length: of n pages it copies
  n % 65536 / 4096 bytes, 15 at most (`HeapPages.PagesCopyExactly`), so the owner's bytes survive exactly
  when the new size is no larger than that (`HeapPages.PagesSurviveIff`).
* Tables are created with the flags of the mapping that needs them first, so a later, wider mapping
  next to a narrower one is narrowed (`PageRun.NarrowedPage`; the exact rights after any run:
  `PageRun.RightsIff`).
* Without a free page `vmm_get_or_create_pml` zeroes frame 0 and uses it as a table (`PageMap.NoFrameLeft`).
* The heap window is 4 GiB long, but the page allocator is not bound to it: the part of a block beyond 4 GiB of physical
  memory is not mapped where `malloc` says it is (`HeapWindow.BlockIsMappedIff`).
* `spinlock.h` says that interrupts are off for locked code. They are, except in two windows
  (`Spinlocks.ExposedIff`, `Spinlocks.AlwaysOffIff`).
* A printed sign is dropped when zero padding fills the 32-byte work buffer, and base 2 is cut to 32
  digits (`PrintfText.RoundTripIff`).
* The prefix that `#` asks for replaces characters of a number that fills its width; the number survives exactly when
  these are zeros (`PrintfMeaning.PrefixKeepsIff`).

## Model

| member | source | states |
|---|---|---|
| `Bitmaps.Bitmap.SetBit` | src/kernel/libk/data_structs/bitmap.c:31-34 | sets exactly the named bit of the set the bytes stand for |
| `Bitmaps.Bitmap.UnsetBit` | src/kernel/libk/data_structs/bitmap.c:37-40 | clears exactly the named bit |
| `Bitmaps.Bitmap.CheckBit` | src/kernel/libk/data_structs/bitmap.c:43-46 | the returned byte is non-zero exactly when the bit is set |
| `Bitmaps.BitPlace` | src/kernel/libk/data_structs/bitmap.c:31-46 | bit j is the one that the mask 1 << j % 8 selects in byte j / 8 |
| `Bitmaps.BytesFromBits` | src/kernel/libk/data_structs/bitmap.c:31-46 | the bits determine the bytes, so equal bit sets mean equal memory |
| `PmmSpec.FirstHitIsLeast` | src/kernel/memory/physical/pmm.c:226-245 | the scan returns the least index at which its test succeeds |
| `PmmSpec.AllocOnePage` | src/kernel/memory/physical/pmm.c:140-164 | a one-page request takes the least free page and nothing else, keeps the balance of used and free pages, and fails only when no page is free |
| `PmmSpec.AllocClaims` | src/kernel/memory/physical/pmm.c:140-164 | what a request for n pages does, for every n and every bitmap: the first bit from which all n tests as written find a free page, and the n pages from it on, are claimed and counted, whether they were free or not; otherwise, or when that bit is 0, nothing changes |
| `PmmSpec.ScanSoundIffSinglePage` | src/kernel/memory/physical/pmm.c:228-242 | the scan as written claims only free pages for every bitmap if and only if at most one page is asked for |
| `PmmSpec.ReleaseStep` | src/kernel/memory/physical/pmm.c:177-187 | releasing n used pages makes exactly these free and keeps the balance |
| `PmmSpec.RunSafety` | src/kernel/memory/physical/pmm.c:140-187 | over every run of one-page claims and releases of owned pages: used bits are the initial ones and the owned ones, and used_pages_count plus free pages never changes |
| `PmmSpec.ClaimIsFresh` | src/kernel/memory/physical/pmm.c:140-164 | in every state of every run a claimed page belongs to nobody |
| `PmmSpec.ReleasedRunRestores` | src/kernel/memory/physical/pmm.c:140-187 | a run that released everything restores every bit and the counter |
| `PmmRanges.FirstRangeIsLeast` | src/kernel/memory/physical/pmm.c:226-245 | with the repaired test the scan returns the least fully free range inside the bitmap |
| `PmmRanges.AllocRangeClaims` | src/kernel/memory/physical/pmm.c:140-164 | a repaired n-page request takes exactly the least free range, and fails only when there is none |
| `PmmRanges.SinglePageAgrees` | src/kernel/memory/physical/pmm.c:226-245 | for one page the scan as written and the repaired scan are the same |
| `PmmRanges.RangeRunSafety` | src/kernel/memory/physical/pmm.c:140-187 | the run invariant for claims and releases of ranges of any length |
| `PmmRanges.ReleasedRangesRestore` | src/kernel/memory/physical/pmm.c:140-187 | releasing all ranges restores the bitmap bit for bit |
| `Pmms.BitmapSizeIs` | src/kernel/memory/physical/pmm.c:89 | the size of the bitmap, as ALIGN_UP and ALIGN_DOWN compute it, for every 64-bit top |
| `Pmms.TopIs` | src/kernel/memory/physical/pmm.c:63-85 | no entry of type 1, 0x1000 or 0x1001 ends above the top, and the top is the end of one of them, or 0 |
| `Pmms.BitmapCovers` | src/kernel/memory/physical/pmm.c:89 | the bitmap has a bit for every page below the top if and only if the page count is a multiple of 8 or count/8 is no multiple of 4096 |
| `Pmms.HostedUsable` | src/kernel/memory/physical/pmm.c:93-115 | the usable pages of the shrunk map are those of the boot map without the pages of the bitmap |
| `Pmms.Pmm.constructor` | src/kernel/memory/physical/pmm.c:51-137 | pmm_init: the top is the greatest end of an entry of type 1, 0x1000 or 0x1001; a page is free afterwards exactly when it lies in an entry of type 1, is not page 0 and is not one of the pages at the start of the first such entry long enough for the bitmap; padding bits stay used |
| `Pmms.Pmm.FindTop` | src/kernel/memory/physical/pmm.c:63-85 | the first loop yields the greatest end of an entry of type 1, 0x1000 or 0x1001, or 0 without one |
| `Pmms.Pmm.HostBitmap` | src/kernel/memory/physical/pmm.c:93-115 | the second loop shrinks the first usable entry that can hold the bitmap, and no other |
| `Pmms.Pmm.FreeUsable` | src/kernel/memory/physical/pmm.c:122-131 | the third loop frees exactly the pages of the usable entries |
| `Pmms.Pmm.Alloc` | src/kernel/memory/physical/pmm.c:140-164 | the method changes the allocator as the function PmmSpec.Alloc does |
| `Pmms.Pmm.Free` | src/kernel/memory/physical/pmm.c:177-187 | the method changes the allocator as PmmSpec.Free does |
| `Pmms.Pmm.FindFirstFreePageRange` | src/kernel/memory/physical/pmm.c:226-245 | the nested loop computes the first hit of the scan as written |
| `PageTables.EntryParts` | src/kernel/memory/virtual/vmm.c:141-147 | an entry made of a frame address and flags keeps both apart, whatever the accessed and dirty bits are; masking with ~511 finds the frame |
| `PageTables.FlagBits` | src/kernel/memory/virtual/vmm.h:26-33 | the flags that the walk reads are those that the masks 1, 2, 4 and 128 select |
| `PageTables.IndicesOfAddress` | src/kernel/memory/virtual/vmm.c:153-160 | the four slices of an address are the four indices of its page |
| `PageTables.IndicesOfPage` | src/kernel/memory/virtual/vmm.c:153-160 | two pages with the same four indices are the same page |
| `PageTables.PageAlignUp` | src/kernel/memory/virtual/vmm.c:105-112 | ALIGN_UP rounds to the page above |
| `PageTree.WalkIsLeafView` | src/kernel/memory/virtual/vmm.c:138-176 | the hardware walk is the leaf entry at the page's place, under the rights granted above it |
| `PageTree.LinkInv` | src/kernel/memory/virtual/vmm.c:138-147 | linking a fresh zeroed table keeps the tree: tables are distinct, used, not frame 0, reached by one path; exactly one place is added |
| `PageTree.LinkWalk` | src/kernel/memory/virtual/vmm.c:138-147 | linking a fresh empty table changes no walk |
| `PageTree.LeafWrite` | src/kernel/memory/virtual/vmm.c:171-172 | a leaf store decides the walk of one page and of no other |
| `PageMap.LeafEntry` | src/kernel/memory/virtual/vmm.c:171-172 | the leaf entry names the frame and carries exactly flags and PAT bits |
| `PageMap.MapIsOnePoint` | src/kernel/memory/virtual/vmm.c:90-95 | vmm_map_page: the walk of the page yields the frame with exactly the requested bits, every other walk is unchanged, and the frames taken are the tables that were missing |
| `PageMap.UnmapIsOnePoint` | src/kernel/memory/virtual/vmm.c:98-102 | vmm_unmap_page: the page is untranslated, every other walk is unchanged, also when tables were missing |
| `PageMap.MapThenUnmap` | src/kernel/memory/virtual/vmm.c:90-102 | mapping an untranslated page and unmapping it restores every walk |
| `PageMap.NoFrameLeft` | src/kernel/memory/virtual/vmm.c:138-147 | without a free frame, frame 0 is zeroed and becomes the next table, named by an entry of the flags alone; nothing else changes |
| `PageCaching.PatConfigIs` | src/kernel/hardware/cpu.h:212-227 | the shifts and ORs of enable_pat give 0x0706050400000100 |
| `PageCaching.MappedMemoryType` | src/kernel/memory/virtual/vmm.c:181-222 | the bits PWT, PCD and PAT of a page mapped with any of the four privileges select in that register the memory type the caller asked for |
| `PageRange.MapRangeEffect` | src/kernel/memory/virtual/vmm.c:105-112 | vmm_map_range: every page of the range is walked to its frame, every other walk is kept, and exactly the missing tables are taken |
| `PageRange.RangeCostBound` | src/kernel/memory/virtual/vmm.c:105-112 | n pages cost at most ceil(n/512)+1, ceil(n/512^2)+1 and ceil(n/512^3)+1 tables per level |
| `PageRange.UnmapRangeIs` | src/kernel/memory/virtual/vmm.c:115-121 | vmm_unmap_range: exactly the pages of the range lose their translation |
| `PageRun.RunRefines` | src/kernel/memory/virtual/vmm.c:90-102 | over every run of map and unmap, with the processor setting accessed and dirty bits in between, the tree invariant holds and every page has the frame, bits and effective writable and user rights that a plain map of pages, with the rights of the tables created on the way, would show |
| `PageRun.RightsIff` | src/kernel/memory/virtual/vmm.c:138-176 | after any run, from any tree, a page is writable if and only if its last mapping, every earlier mapping that created a table on its way, and the way at the start allow it; the same for user access |
| `PageRun.NarrowedPage` | src/kernel/memory/virtual/vmm.c:138-147 | in every tree with nothing below the root entry there is a run of two calls after which a page that was mapped read-write is not writable |
| `PageRun.NeighbourRights` | src/kernel/memory/virtual/vmm.c:138-147 | the case of two mappings under a new table: the second page is writable, or user, if and only if both mappings asked for it |
| `PageRun.TouchKeeps` | src/kernel/memory/virtual/vmm.c:141-147 | accessed and dirty bits change neither the tree nor what a walk yields |
| `PageRun.ThreeFramesPerStep` | src/kernel/memory/virtual/vmm.c:163-169 | three free frames per call are enough for every run |
| `BootWindows.InitIsBooted` | src/kernel/memory/virtual/vmm.c:50-80 | after vmm_init the walk of every page of the address space is known, with effective rights over all levels |
| `BootWindows.Windows` | src/kernel/memory/virtual/vmm.c:62-80 | page p below 4 GiB is reached read-write from p and the data window, below 2 GiB read-only from the code window |
| `BootWindows.WindowAddresses` | src/kernel/memory/virtual/vmm.c:61-71 | with no entry longer than 2^44 bytes, byte a of physical memory below 4 GiB is read and written at a, 0xFFFF800000000000 + a and 0xFFFF900000000000 + a, and below 2 GiB read at 0xFFFFFFFF80000000 + a, by the kernel alone |
| `BootWindows.MappedOnlyThere` | src/kernel/memory/virtual/vmm.c:61-80 | every page that translates lies in one of the four windows, or in the data window up to the longest entry |
| `BootWindows.HeapWindowIffEntriesFit` | src/kernel/memory/virtual/vmm.c:67-80 | the heap window is intact if and only if no memory map entry is longer than 2^44 bytes |
| `BootWindows.HeapPointerNamesFrame` | src/kernel/libk/malloc/malloc.c:109 | in an intact window the addresses from HEAP_START_ADDR on are walked to the frames of physical memory below 4 GiB |
| `HeapWindow.BlockIsMappedIff` | src/kernel/libk/malloc/malloc.c:109 | byte i of every live block, at the pointer that malloc returned plus i, is walked read-write to its own byte of memory if and only if that is below 4 GiB; otherwise the walk faults |
| `Vmms.Vmm.GetOrCreatePml` | src/kernel/memory/virtual/vmm.c:138-147 | the method is GetOrCreate on memory and allocator |
| `Vmms.Vmm.SetPtValue` | src/kernel/memory/virtual/vmm.c:150-176 | the method is SetPtValue of PageMap |
| `Vmms.Vmm.MapPage` | src/kernel/memory/virtual/vmm.c:90-95 | the method is Map of PageMap |
| `Vmms.Vmm.UnmapPage` | src/kernel/memory/virtual/vmm.c:98-102 | the method is Unmap of PageMap |
| `Vmms.RangePagesAre` | src/kernel/memory/virtual/vmm.c:105-121 | a range loop runs over a page if and only if it is not below the page of the start, begins below the end, and rounding the end up does not wrap |
| `Vmms.Vmm.MapRange` | src/kernel/memory/virtual/vmm.c:105-112 | for every start and end the loop maps exactly the pages between the rounded ends, none when the range is empty or the end wraps |
| `Vmms.Vmm.UnmapRange` | src/kernel/memory/virtual/vmm.c:115-121 | for every start and end the loop unmaps exactly the pages between the rounded ends, none when the range is empty or the end wraps |
| `Vmms.Vmm.Init` | src/kernel/memory/virtual/vmm.c:50-80 | the windows and the memory map entries, in order, for entries of any length |
| `SlabSpec.ObjectsApart` | src/kernel/memory/dynamic/slab.c:365-395 | different objects of a cache never overlap |
| `SlabSpec.ObjectInPage` | src/kernel/memory/dynamic/slab.c:365-369 | objects end below the slab header of their page |
| `SlabSpec.CapacityIs` | src/kernel/memory/dynamic/slab.c:70 | 253, 126, 63, 31, 15 and 7 objects of 16 to 512 bytes fit a page; the header is 4056 bytes from its start |
| `SlabSpec.AllocTakesFirst` | src/kernel/memory/dynamic/slab.c:219-252 | with a free object somewhere, the head of the first slab that has one is returned, and nothing else changes |
| `SlabSpec.AllocFails` | src/kernel/memory/dynamic/slab.c:221-235 | with none and nothing to grow, SLAB_PANIC panics, otherwise the result is NULL, or with SLAB_AUTO_GROW the call recurs for ever |
| `SlabSpec.AllocOnNewPage` | src/kernel/memory/dynamic/slab.c:221-252 | growing takes the least free page, links it after the head alone, and returns its first object, the second with SLAB_NO_ALIGN |
| `SlabSpec.FreeFilesFirst` | src/kernel/memory/dynamic/slab.c:271-297 | a freed object becomes the head of the first slab that is not full |
| `SlabSpec.FreeFails` | src/kernel/memory/dynamic/slab.c:273-281 | when every slab is full the object is lost, or the call panics |
| `SlabSpec.PopInv` | src/kernel/memory/dynamic/slab.c:247-252 | taking the head of a free list keeps the list invariant and yields an object nobody holds |
| `SlabSpec.PushInv` | src/kernel/memory/dynamic/slab.c:291-297 | filing a held object under any slab keeps the list invariant |
| `SlabSpec.AddSlabInv` | src/kernel/memory/dynamic/slab.c:121-158 | a slab on a fresh page keeps the list invariant |
| `SlabRun.RunSafety` | src/kernel/memory/dynamic/slab.c:121-298 | over every run of alloc, free and grow, with any number of slabs: free lists are disjoint and without repetition, no held object is on one, every object lies on a taken page |
| `SlabRun.HeldObjectsApart` | src/kernel/memory/dynamic/slab.c:206-298 | two objects held at the same time never overlap |
| `SlabGrow.GrownSlabs` | src/kernel/memory/dynamic/slab.c:121-158 | growth keeps the head, puts the new slabs on fresh pages after it, and lowers the cache-wide maximum once per slab that drops an object |
| `SlabGrow.GrowKeepsAllIff` | src/kernel/memory/dynamic/slab.c:133-158 | a successful growth keeps every slab linked if and only if the cache had at most one |
| `SlabRun.CreateInv` | src/kernel/memory/dynamic/slab.c:50-76 | a new cache has one slab with all its objects free |
| `SlabRun.SingleConserves` | src/kernel/memory/dynamic/slab.c:206-298 | a cache that never grows: free plus held objects is constant, alloc fails exactly when all are held, free always finds room |
| `SlabRun.CreatedConserves` | src/kernel/memory/dynamic/slab.c:50-298 | the same in every run from slab_cache_create on, with the number of objects that creation left |
| `SlabReap.KeptInOrder` | src/kernel/memory/dynamic/slab.c:161-203 | reap keeps exactly the slabs whose number of free objects differs from the cache-wide maximum, in their order |
| `SlabReap.ReapReturnsPages` | src/kernel/memory/dynamic/slab.c:161-203 | reap returns the page of every removed slab once and nothing else |
| `SlabReap.OneSlabIsSafe` | src/kernel/memory/dynamic/slab.c:161-203 | reap of a cache left with one slab never returns a page that holds an object in use |
| `SlabReapUnsafe.ManySlabsUnsafe` | src/kernel/memory/dynamic/slab.c:283-297 | for every n of at least two there is a run that leaves n slabs and an unsafe reap |
| `SlabReapUnsafe.ReapSafeIffOneSlab` | src/kernel/memory/dynamic/slab.c:161-203 | reap is safe after every run if and only if the cache has at most one slab |
| `SlabReapRun.ReapKeepsIff` | src/kernel/memory/dynamic/slab.c:161-203 | a cache survives a reap if and only if no returned page carries an object that is held or that a remaining slab lists |
| `SlabReapRun.ReapRunSafety` | src/kernel/memory/dynamic/slab.c:121-298 | the list invariant holds over every run of alloc, free, grow and such reaps, with any number of slabs |
| `SlabReapRun.CreatedSurvivesReaps` | src/kernel/memory/dynamic/slab.c:50-298 | from a new cache on, every run that reaps only with at most one slab keeps the invariant, and each of its reaps meets the condition |
| `SlabReapRun.ListedOnReturned` | src/kernel/memory/dynamic/slab.c:161-298 | there is a run from a new cache after which no held object is on a returned page and the reap still breaks the cache |
| `SlabMemory.PopRep` | src/kernel/memory/dynamic/slab.c:247-252 | taking the head through the stored links represents Pop |
| `SlabMemory.PushRep` | src/kernel/memory/dynamic/slab.c:291-297 | storing next and count represents Push |
| `SlabMemory.LinkRep` | src/kernel/memory/dynamic/slab.c:365-388 | linking a header after the cursor represents a new slab, and cuts off what followed |
| `SlabMemory.Unlink` | src/kernel/memory/dynamic/slab.c:184-201 | unlinking through the predecessor removes exactly one slab |
| `Slabs.PowerOfTwoTest` | src/kernel/memory/dynamic/slab.c:419-422 | the bit trick accepts exactly the powers of two |
| `Slabs.AcceptedSizes` | src/kernel/memory/dynamic/slab.c:52-54 | the assertions accept exactly 16, 32, 64, 128, 256 and 512 |
| `Slabs.IndexInIs` | src/kernel/memory/dynamic/slab.c:294 | relative to its own page, the index stored for an object is the number of its slot |
| `Slabs.SlabCache.CreateSlab` | src/kernel/memory/dynamic/slab.c:365-388 | the header at the end of the page, linked after the cursor |
| `Slabs.SlabCache.InitBufctl` | src/kernel/memory/dynamic/slab.c:391-416 | one object is appended to the free list, or dropped if page-aligned, with both counters lowered |
| `Slabs.SlabCache.Grow` | src/kernel/memory/dynamic/slab.c:121-158 | the loop adds slabs as Grow of SlabSpec does |
| `Slabs.SlabCache.Alloc` | src/kernel/memory/dynamic/slab.c:206-253 | the search and the unlinking do what Alloc of SlabSpec does |
| `Slabs.SlabCache.Free` | src/kernel/memory/dynamic/slab.c:257-298 | the search and the linking do what Free of SlabSpec does, and free objects keep the index of line 294 |
| `Slabs.SlabCache.Reap` | src/kernel/memory/dynamic/slab.c:161-203 | the cursor loop, runs of removed heads included, leaves and returns what Reap of SlabSpec says, and ends |
| `Slabs.SlabCache.Create` | src/kernel/memory/dynamic/slab.c:50-76 | creation panics, yields NULL, or yields a valid cache with one slab whose objects carry their indices |
| `HeapSizes.SmearDoubles` | src/kernel/libk/malloc/malloc.c:235-239 | OR-ing a number with itself shifted right by m doubles its run of leading ones |
| `HeapSizes.NextPowerOfTwoIs` | src/kernel/libk/malloc/malloc.c:228-244 | next_power_of_two yields the least power of two from 16 on, and 0 above 2^31 |
| `HeapSizes.RoundSmall` | src/kernel/libk/malloc/malloc.c:215-225 | sizes up to 512 are rounded to the smallest class that holds them |
| `HeapSizes.RoundLarge` | src/kernel/libk/malloc/malloc.c:215-225 | larger sizes are rounded to whole pages, or to 0 when the addition wraps |
| `HeapSizes.ServiceIs` | src/kernel/libk/malloc/malloc.c:63-105 | which cache or how many pages serve a size, for every 64-bit size |
| `HeapSizes.ServiceTable` | src/kernel/libk/malloc/malloc.c:63-105 | sizes up to 14, 30, 62, 126, 254 and 510 go to the caches of 16 to 512 bytes, larger ones to (size + 4097) / 4096 pages, the last 4095 that do not wrap to nobody, the two that wrap to the cache of 16 |
| `HeapSizes.ClassSizes` | src/kernel/libk/malloc/malloc.c:50-55 | six caches, of 16, 32, 64, 128, 256 and 512 bytes |
| `HeapSizes.FitsIffNoWrap` | src/kernel/libk/malloc/malloc.c:63-66 | a request with its header fits what serves it if and only if adding the header does not wrap |
| `HeapSteps.PointerRoundTrip` | src/kernel/libk/malloc/malloc.c:109 | free recovers the base, and no aligned block is handed out as NULL |
| `HeapSteps.MallocSlab` | src/kernel/libk/malloc/malloc.c:68-86 | a small request takes a fresh object, or panics exactly when the class is used up |
| `HeapSteps.MallocPages` | src/kernel/libk/malloc/malloc.c:87-105 | a page request takes fresh pages, keeps all other blocks and links, or is refused |
| `HeapSteps.PagesComeZeroed` | src/kernel/memory/physical/pmm.c:168-174 | pages come zeroed but for the count in their first two bytes, a refused request zeroes as many bytes from address 0 on, and all other bytes stay |
| `HeapSteps.MallocStep` | src/kernel/libk/malloc/malloc.c:63-110 | every good call hands out a fresh block or nothing, and keeps the contents of all blocks |
| `HeapSteps.FreeDispatch` | src/kernel/libk/malloc/malloc.c:193-208 | a block is page-aligned exactly when the page allocator served it, and its header names its cache or its page count modulo 2^16 |
| `HeapSteps.FreeSlabStep` | src/kernel/libk/malloc/malloc.c:195-201 | freeing a live object goes to the head of the list of its own cache and never panics |
| `HeapSteps.FreePagesStep` | src/kernel/libk/malloc/malloc.c:202-208 | freeing whole pages gives back the pages that the 16-bit header counts |
| `HeapSteps.AllPagesBackIff` | src/kernel/libk/malloc/malloc.h:24-27 | free returns every page of a block if and only if the page count fits the 16-bit header |
| `HeapSteps.StoreStep` | src/kernel/libk/malloc/malloc.c:84-109 | a store inside the requested bytes touches no other block, no header and no free list |
| `HeapRun.RunSafety` | src/kernel/libk/malloc/malloc.c:63-209 | the heap invariant holds over every run of good calls of malloc, free and stores |
| `HeapRun.SmallRunSafety` | src/kernel/libk/malloc/malloc.c:63-209 | as written, the invariant holds over every run whose requests fit one page with their header |
| `HeapRun.RepairedIsGood` | src/kernel/libk/malloc/malloc.c:87-105 | with the repaired scan a call is good if and only if the header does not wrap the size and a request of several pages is not refused |
| `HeapRun.BlocksApart` | src/kernel/libk/malloc/malloc.c:63-110 | two live blocks never share a byte |
| `HeapRun.BlockPlace` | src/kernel/libk/malloc/malloc.c:63-110 | no byte of a live block is in a slab header, in object 0, on a reserved page or on a free page |
| `HeapConserve.ObjectsConserved` | src/kernel/libk/malloc/malloc.c:48-209 | in every reachable heap free plus held objects of a class is (PAGE_SIZE-40)/size - 1 |
| `HeapConserve.PagesConserved` | src/kernel/libk/malloc/malloc.c:48-209 | in every reachable heap whose requests fit the 16-bit header, every page that was free after malloc_heap_init is free or part of exactly one live block, and no other page is |
| `HeapRun.PanicsIffFull` | src/kernel/libk/malloc/malloc.c:63-110 | after every run of small requests malloc panics exactly when a class is used up, and every held block can be freed |
| `HeapMemory.LoadIs` | src/kernel/libk/malloc/malloc.c:84-86 | a field of n bytes reads back as what was stored, modulo 256^n |
| `HeapMemory.LittleEndian` | src/kernel/libk/malloc/malloc.c:84-86 | the k-th byte of a field is its k-th lowest |
| `HeapCreate.CreatedIsStored` | src/kernel/memory/dynamic/slab.c:350-416 | whatever the page held, after slab_init_bufctls it holds the slab header and the free list threaded from object to object |
| `HeapCreate.CreatedIndices` | src/kernel/memory/dynamic/slab.c:391-394 | after slab_init_bufctls the two bytes at offset 8 of every object, dropped or not, load as its number |
| `HeapCreate.CreatedFields` | src/kernel/memory/dynamic/slab.c:365-416 | word by word: the new header holds NULL, the number of objects that were not dropped, the page, and the first and the last of them; each holds the address of the next, the last NULL |
| `HeapIndex.FreedObjectNamesSlot` | src/kernel/memory/dynamic/slab.c:291-297 | after a live object in slot j is freed, the two bytes at its offset 8 load as j |
| `HeapIndex.FreeObjectsNameSlots` | src/kernel/memory/dynamic/slab.c:291-416 | in every reachable heap the two bytes at offset 8 of every free object load as the number of its slot |
| `HeapInit.InitInv` | src/kernel/libk/malloc/malloc.c:48-59 | malloc_heap_init establishes the heap invariant on any memory: six creations write the headers and links that it asks for |
| `HeapInit.CreatedOn` | src/kernel/memory/dynamic/slab.c:50-76 | a creation zeroes the least free page for the descriptor and puts the slab on the next one, all objects but the first free; no other byte changes |
| `HeapReach.ReachedInv` | src/kernel/libk/malloc/malloc.c:48-209 | the invariant holds in every heap that malloc_heap_init and a run of good calls reach |
| `HeapRefused.RefusalKeepsIff` | src/kernel/memory/physical/pmm.c:168-174 | a refused request of n pages, by either scan, keeps the heap invariant if and only if no slab lies below page n, and no block of pages begins there but one whose count is a multiple of 65536 |
| `HeapRefused.GoodUntouched` | src/kernel/libk/malloc/malloc.c:63-110 | a good call leaves every byte of pages in use by others, cache descriptors among them, as it is |
| `HeapUnsafe.InitOnlyFree` | src/kernel/libk/malloc/malloc.c:48-59 | malloc_heap_init leaves every byte of used pages as it is and puts its slabs on free pages |
| `HeapUnsafe.SafeIff` | src/kernel/libk/malloc/malloc.c:63-110 | with the scan as written and with the repaired one, malloc keeps every reachable heap and the pages of others safe if and only if the size fits one page with its header, or its rounding wraps to 0 |
| `HeapRealloc.CopyDisjoint` | src/kernel/libk/string/string.c:44-55 | memcpy between disjoint ranges moves the old bytes |
| `HeapRealloc.CopyFitsIff` | src/kernel/libk/malloc/malloc.c:171-178 | the copy stays in the new block if and only if the class is below the rounded size, or the header needs the next class |
| `HeapRealloc.ReallocMoves` | src/kernel/libk/malloc/malloc.c:162-182 | a move whose copy fits keeps the copied bytes, all other blocks, and releases the old block; how many bytes that are says `HeapContents.ReallocKeepsBytes` |
| `HeapRealloc.ReallocGrows` | src/kernel/libk/malloc/malloc.c:114-183 | growing a block of class c keeps its first c-2 user bytes |
| `HeapRealloc.StaysIff` | src/kernel/libk/malloc/malloc.c:157-160 | returning the same block is right if and only if the new size with its header fits the class |
| `HeapContents.ReallocKeepsBytes` | src/kernel/libk/malloc/malloc.c:114-183 | for a block of class c and every new size other than 0: the same pointer if and only if the class is the rounded new size, otherwise what malloc returns; and when a block comes back, each of its first min(size, c - 2) bytes is the old one, also when the copy runs over the end of the new block |
| `HeapContents.NullAllocates` | src/kernel/libk/malloc/malloc.c:116-119 | realloc of NULL is malloc: a fresh block or nothing, and all other blocks keep their contents |
| `HeapContents.ZeroFrees` | src/kernel/libk/malloc/malloc.c:121-126 | realloc to size 0 frees the block, returns NULL and keeps all other blocks |
| `HeapContents.FreeNull` | src/kernel/libk/malloc/malloc.c:188-191 | free of NULL does nothing |
| `HeapPages.PagesCopyExactly` | src/kernel/libk/malloc/malloc.c:147-178 | of a block of n pages, for every size, n % 65536 / 4096 bytes are copied, none when the new size wraps; at most 15, less than the block holds |
| `HeapPages.PagesCopyNothingIff` | src/kernel/libk/malloc/malloc.c:147-178 | nothing is copied if and only if n % 65536 is below 4096 or the new size wraps |
| `HeapPages.PagesStayIff` | src/kernel/libk/malloc/malloc.c:157-160 | a page block stays in place if and only if the new size wraps and n % 65536 is below 4096: no size that memory can hold keeps it |
| `HeapPages.PagesMoved` | src/kernel/libk/malloc/malloc.c:162-182 | after a successful move the memory is that of malloc with these bytes copied |
| `HeapPages.PagesSurviveIff` | src/kernel/libk/malloc/malloc.c:114-183 | whatever the owner stored survives a successful realloc, for all contents, if and only if the new size is at most n % 65536 / 4096 |
| `HeapPages.ContentsLost` | src/kernel/libk/malloc/malloc.c:114-183 | for every n there is a reachable heap with a block of n pages whose contents a realloc to 16 bytes loses |
| `HeapPages.BigBlock` | src/kernel/libk/malloc/malloc.c:87-105 | a heap with a live block of n pages is reachable for every n that memory holds |
| `HeapPages.ReturnsAllIff` | src/kernel/libk/malloc/malloc.h:24-27 | with the repaired scan, free returns all n pages in every reachable heap if and only if n is below 65536 |
| `HeapShrink.MovesSafelyIff` | src/kernel/libk/malloc/malloc.c:162-182 | a move from a class leaves a heap that describes the new block, in every reachable heap, if and only if the copy fits; otherwise the link of a free object is overwritten |
| `HeapLoads.ListInMemory` | src/kernel/memory/dynamic/slab.c:247-252 | in every heap of the invariant the words loaded from slab headers and free objects are the list: the word at the head is the head that Pop leaves |
| `HeapLoads.HeadersAfterCopy` | src/kernel/libk/malloc/malloc.c:171-178 | the copy into a new block, even one that does not fit, leaves every slab header as it is |
| `Mallocs.Kernel.Init` | src/kernel/libk/malloc/malloc.c:48-59 | six creations in order until one panics, writing what InitHeap says; when all succeed the kernel is valid |
| `Mallocs.Kernel.CreateCache` | src/kernel/memory/dynamic/slab.c:50-76 | one creation takes two pages and writes what CreateCache of HeapInit says |
| `Mallocs.Kernel.InitSlab` | src/kernel/memory/dynamic/slab.c:121-158 | the loop over the objects writes header, indices and links as CreatedBytes says, which `HeapCreate.CreatedFields` and `HeapCreate.CreatedIndices` read back |
| `Mallocs.Kernel.FindSlab` | src/kernel/memory/dynamic/slab.c:219-245 | the walk over the slab headers in memory ends at the slab with a free object, or with room |
| `Mallocs.Kernel.TakeObject` | src/kernel/memory/dynamic/slab.c:206-253 | head and counter are loaded from memory, the next head from the object; the result is TakeObject of HeapSpec |
| `Mallocs.Kernel.FreeObject` | src/kernel/memory/dynamic/slab.c:257-298 | head, counter and page are loaded from memory; the result is FreeObject of HeapSpec |
| `Mallocs.Kernel.MemsetZero` | src/kernel/libk/string/string.c:31-41 | the loop zeroes exactly the range |
| `Mallocs.Kernel.Memcpy` | src/kernel/libk/string/string.c:44-55 | the loop is CopyForward |
| `Mallocs.Kernel.Malloc` | src/kernel/libk/malloc/malloc.c:63-110 | from every valid state the method is Malloc of HeapSpec with the scan as written, for every size; a good call leaves a valid state with one block more |
| `Mallocs.Kernel.Free` | src/kernel/libk/malloc/malloc.c:186-209 | the method is Free of HeapSpec for every pointer; freeing a live block leaves a valid state without it |
| `Mallocs.Kernel.Realloc` | src/kernel/libk/malloc/malloc.c:114-183 | the method is Realloc of HeapRealloc for every pointer when malloc of the size is good, with what `HeapContents` says of the bytes; it leaves a valid state when the copy fits |
| `Spinlocks.RunKeeps` | src/kernel/libk/lock/spinlock.h:48-72 | the lock invariant holds in every interleaving |
| `Spinlocks.MutualExclusion` | src/kernel/libk/lock/spinlock.h:48-72 | no two CPUs are between acquire and release of the same lock |
| `Spinlocks.SavedIsHoldersFlag` | src/kernel/libk/lock/spinlock.h:55 | the saved flag is the holder's interrupt flag at its call of acquire |
| `Spinlocks.NestingRestores` | src/kernel/libk/lock/spinlock.h:62-69 | however locks nest and CPUs interleave, outside all locks a CPU has the flag it had before |
| `Spinlocks.ExposedIff` | src/kernel/libk/lock/spinlock.h:50-71 | an owner has interrupts on if and only if it is in one of the two windows of its outermost lock and had them on before |
| `Spinlocks.AlwaysOffIff` | src/kernel/libk/lock/spinlock.h:48-72 | interrupts are off for every owner in all runs that leave the flag alone if and only if they were off at the start |
| `Spinlocks.NoCircularWait` | src/kernel/libk/serial/log.c:41-80 | with locks taken in order, as smp, log and debug are, a blocked CPU always waits for one that can go on |
| `LockProgress.CanRest` | src/kernel/libk/lock/spinlock.h:48-72 | from every state of every interleaving, releases and the steps of acquire and release lead to a state in which no lock is owned, in exactly as many steps as the CPUs have left |
| `Gdts.SegmentNamesAddress` | src/kernel/tables/gdt.c:113-120 | a complete descriptor has length 104 and type byte 0x89, and its four base fields decode to the address it was made from |
| `Gdts.Gdt.TssCreateSegment` | src/kernel/tables/gdt.c:109-121 | the assignments make a complete descriptor with length 104 and type byte 0x89 for the address |
| `Smps.RunKeeps` | src/kernel/proc/smp/smp.c:60-161 | the bring-up invariant holds in every interleaving of n CPUs |
| `Smps.OneInside` | src/kernel/proc/smp/smp.c:71-130 | at most one CPU is inside the locked parts |
| `Smps.LtrSeesOwnTss` | src/kernel/proc/smp/smp.c:149-154 | at each ltr the shared descriptor is available and names the CPU's own tss, at cpu_locals + 120 c + 16; none faults |
| `Smps.LtrEffect` | src/kernel/proc/smp/smp.c:153-154 | ltr on a descriptor of type byte 0x89 loads its base and leaves 0x8B; on 0x8B it faults |
| `Smps.StoresAreCounted` | src/kernel/proc/smp/smp.c:110-128 | every CPU stores its increment at most once, and exactly the counted CPUs have |
| `Smps.NoLostUpdate` | src/kernel/proc/smp/smp.c:110-128 | cpus_online is always the number of CPUs that have stored their increment |
| `Smps.Barrier` | src/kernel/proc/smp/smp.c:95-98 | once the boot processor has left the spin loop each CPU has counted exactly once and has its own block and tss |
| `Smps.TssApart` | src/kernel/proc/smp/smp.c:143-154 | the tss of different CPUs never overlap |
| `SmpProgress.SomebodyMoves` | src/kernel/proc/smp/smp.c:60-161 | no deadlock: in every state that satisfies the invariant some CPU can move until the boot processor is done |
| `SmpProgress.MovesBounded` | src/kernel/proc/smp/smp.c:60-161 | no schedule of n CPUs changes the state more than n * (21n + 2) times |
| `SmpProgress.CanFinish` | src/kernel/proc/smp/smp.c:60-161 | from every state of every interleaving bring-up can be completed |
| `PrintfText.DigitsValue` | src/kernel/libk/printf/printf.c:316-322 | the collected digits are the value modulo base^32 |
| `PrintfText.NoLeadingZero` | src/kernel/libk/printf/printf.c:316-322 | the highest digit is zero only for 0 |
| `PrintfLayout.DigitAt` | src/kernel/libk/printf/printf.c:316-322 | the k-th collected character is the symbol of the k-th lowest digit |
| `PrintfText.ReadsBack` | src/kernel/libk/printf/printf.c:228-326 | what a reader of the field gets, for every value, width, precision and flags without the hash flag |
| `PrintfText.RoundTripIff` | src/kernel/libk/printf/printf.c:228-326 | the field reads back as the number if and only if it has at most 32 digits and a minus sign found a place |
| `PrintfText.EnoughDigits` | src/kernel/libk/printf/printf.c:316-322 | 32 digits hold every 64-bit value in base 8, 10 and 16, and in base 2 the values below 2^32 |
| `PrintfText.FieldWidth` | src/kernel/libk/printf/printf.c:195-298 | for widths up to 32 and no precision the field is as wide as asked for or as needed |
| `PrintfRender.IntegerReadsBack` | src/kernel/libk/printf/printf.c:845-936 | an integer conversion reads back as its argument: always in base 8, 10 and 16, in base 2 exactly below 2^32; `PrintfMeaning.IntegerMeans` names bases and operands |
| `PrintfMeaning.IntegerMeans` | src/kernel/libk/printf/printf.c:845-936 | the field of x and X reads back in base 16, of o in base 8, of u in base 10 as the low 8, 16, 32 or 64 bits of the argument that the length modifier selects; of d and i in base 10 as the signed number in them; of b in base 2 as those bits if and only if they are below 2^32 |
| `PrintfMeaning.IntegerLayout` | src/kernel/libk/printf/printf.c:228-326 | without an effective hash flag the field is spaces, sign, zeros, digits, spaces, in this order: which digits, which sign, and how many of each, from width, precision and flags |
| `PrintfMeaning.PrefixLayout` | src/kernel/libk/printf/printf.c:250-283 | with the hash flag the field is spaces, 0x, 0X, 0b or 0, what is left of zeros and digits, spaces |
| `PrintfMeaning.PrefixKeepsIff` | src/kernel/libk/printf/printf.c:250-259 | the digits behind the prefix are still the number if and only if the characters replaced were padding zeros |
| `PrintfMeaning.CharLayout` | src/kernel/libk/printf/printf.c:974-1000 | %c: the low byte of the argument, last, or first with the minus flag; every other character is a space |
| `PrintfMeaning.StringLayout` | src/kernel/libk/printf/printf.c:1003-1038 | %s: position by position, the string cut to the precision, and the spaces before it, or after it with the minus flag |
| `PrintfMeaning.PointerLayout` | src/kernel/libk/printf/printf.c:1041-1062 | %p: the 64-bit argument in capital hexadecimal of width 16 with zeros, for every flag but hash |
| `PrintfMeaning.OtherLetter` | src/kernel/libk/printf/printf.c:1064-1073 | every other letter, the percent sign among them, prints itself and takes no argument |
| `PrintfCompose.RenderConcat` | src/kernel/libk/printf/printf.c:690-1074 | one format after another prints one rendering after the other, with the arguments that are left |
| `PrintfCompose.RenderLiteral` | src/kernel/libk/printf/printf.c:693-699 | a format without a percent sign prints itself |
| `PrintfCompose.FlagsAre` | src/kernel/libk/printf/printf.c:706-748 | the flags are exactly the flag characters that occur, in any order and number |
| `PrintfCompose.AtoiIs` | src/kernel/libk/printf/printf.c:181-191 | the number that the digits spell, modulo 2^32 |
| `PrintfCompose.SpecMeans` | src/kernel/libk/printf/printf.c:702-840 | a specifier spelled as flags, width digits, point and precision digits, and a length modifier is parsed to these, for every spelling |
| `PrintfCompose.StarMeans` | src/kernel/libk/printf/printf.c:755-799 | an asterisk takes the width or the precision from the arguments: a negative width is its absolute value with the minus flag, a negative precision is 0 |
| `PrintfCompose.RenderSpec` | src/kernel/libk/printf/printf.c:693-1074 | a percent sign and such a specifier print what the letter after it makes of these fields, and the rest of the format goes on behind the letter |
| `Printfs.EmitTwice` | src/kernel/libk/printf/printf.c:127-133 | output one after another is output of the concatenation |
| `Printfs.Truncated` | src/kernel/libk/printf/printf.c:1076-1080 | the buffer holds the first min(length, n-1) characters and a NUL, and nothing else is written |
| `Printfs.OutRev` | src/kernel/libk/printf/printf.c:195-224 | the loops output the padded field |
| `Printfs.NtoaFormat` | src/kernel/libk/printf/printf.c:228-298 | padding, hash prefix and sign in the work buffer, never past its end |
| `Printfs.NtoaLong` | src/kernel/libk/printf/printf.c:302-326 | the digit loop and the formatting output NumberText |
| `Printfs.EvaluateSpec` | src/kernel/libk/printf/printf.c:706-840 | flags, width, precision and length are parsed as ParseSpec says |
| `Printfs.Vsnprintf` | src/kernel/libk/printf/printf.c:679-1081 | the buffer holds the unbounded rendering cut to n-1 characters and a NUL; the result is the full length |

## Left out

- Inline assembly, control registers, port I/O and interrupt controllers: the TLB flush has no effect, `ltr` is an atomic read of the descriptor that marks it busy.
- Weak memory and compiler reordering: steps are sequentially consistent, although `cpus_online` is a plain variable.
- Interrupt handlers that take locks: the windows of `Spinlocks.ExposedIff` leave them out of `Spinlocks.NoCircularWait`.
- Logging, serial output and `slab_cache_dump`; a logged panic is a terminal outcome.
- ACPI and MADT parsing, the GDT and IDT tables other than the TSS descriptor, and ISR dispatch: table filling.
- Floating-point conversions, the null and function outputs, and `sprintf`'s unlimited buffer of `printf.c`; rendered lengths are unbounded numbers, so the returned `int` is exact for texts up to INT_MAX.
- The flag `#` in the reading-back and width theorems, because `printf.c:252-259` may drop digits (`PrintfMeaning.PrefixLayout` says which), and in `PrintfMeaning.PrefixLayout` numbers whose zeros and digits fill more than 29 of the 32 places; the rendering itself models the flag as written.
- Formats that end inside a specifier and arguments that are missing or of another kind: their behaviour is undefined in C.
- `slab_cache_destroy`: on several slabs it names the page through the free list of another slab.
- PmmSpec.AllocOnePage: requires a bitmap that covers every page, as `Pmms.BitmapCovers` characterises, and a used counter that never reaches zero.
- Pmms.Pmm.constructor: assumes that the entries of the kinds its loops use are page-aligned, below 2^43 and, where usable, disjoint, because bit numbers are C ints; the counter is right up to the constant that `pmm.c:87` introduces.
- PageMap.MapIsOnePoint: tables are frames of RAM reached through the identity and higher-half windows, and a free frame is required where the code never checks for one.
- BootWindows.InitIsBooted: memory map lengths stay below 2^47 less one root slot, so that the data window does not run into the code window.
- Vmms.Vmm.Init: the memory types in the PAT register and the switch of CR3.
- Slabs.SlabCache.Free: the object is one that the caller holds; other pointers are undefined.
- HeapRun.RunSafety: a good call of several pages finds its pages free and is not refused, since a refused one zeroes memory from address 0 on; `HeapRefused` and `HeapUnsafe` say what that damages.
- Mallocs.Kernel.Malloc: the descriptor fields that malloc reads (size, maximum, list head) are a value and not bytes of their page, and the cursors `cache->slabs` and `slab->freelist` are local variables; from a heap outside the invariant nothing is promised.
- Mallocs.Kernel.Realloc: after a call of malloc that damages the heap (`HeapUnsafe.SafeIff`) the state is not described.
- Mallocs.Kernel.FreeObject: loads the slab's fields before it stores into the object, which makes no difference for the addresses that malloc hands out.
- Smps.RunKeeps: the boot protocol hands every application processor its own entry, the stacks were allocated, and local APIC ids differ; MSR, PAT and SSE set-up are foreign effects.
- `vector.c` and `scheduler.c` are empty; drivers and boot code only call what is modelled.
