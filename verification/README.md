# BlueOS verification

Models of the parts of the BlueOS kernel that keep state or do arithmetic, with proofs of
what they promise. `dafny verify dfyconfig.toml` checks everything.

Each component has the form of its C file. State that the kernel changes in place is a
class (`Lru.Lru`, `PhysicalMemory.MemoryManager`, `VirtualMemory.Vmm`, `SlabAllocator.KmemCache`,
`BlockCache.Btrfs`, `Vfs.FileSystem`, `Xfs.Filesystem`, `Tty.Console`, `Md5.Md5Context`), and
every method is tied to a value-level step or function; the theorems are about all inputs
or all runs of those steps. The two lock protocols are interleavings of atomic steps of any
number of threads.

| component | value level | code level |
|---|---|---|
| two-list page LRU | LruModel, LruHistory | Lru |
| physical frames, protection, swap | Frames, FrameBytes | PhysicalMemory |
| page tables | Paging, PagingRange, PagingAccess, MappingRuns | VirtualMemory |
| slab caches | SlabModel, SlabRuns, SlabLaws | SlabAllocator |
| write-back block cache, block bitmap | CacheModel, BlockAllocation | BlockCache |
| paths and working directory | PathModel, PathLaws, CwdModel | Strings, Vfs |
| allocation groups and their directories | XfsModel, XfsDirectories, XfsLaws | Xfs |
| LZ4 blocks | Lz4Format, Lz4RoundTrip, Lz4Layout | Lz4Decoder |
| MD5 streaming | Md5Stream | Md5 |
| Internet checksums | Checksum, ChecksumLaws | Checksum |
| terminals | TtyModel, TtyLaws | Tty |
| locks | ReaderWriterLock, Semaphore | |
| wildcard matchers, 64-bit division | Glob, Division | Glob, Division |

Pages, slabs and page tables share one allocator: `Vmm` and `KmemCache` call the methods of
`MemoryManager`, rely only on its contracts, and are proved to make only allocations, so that
pages in use stay in use (`Frames.RunGoesOn`, `MappingRuns.MapBeside`,
`MappingRuns.AllocBeside`). `Basics` and `Bitmap` hold what several
components share.

Where the code does not do what it is for on every input, the model follows the code and
the exact condition is proved:

- **vmm_map** ignores a failed frame allocation: frame 0 then serves as a table. The range
  is mapped as asked exactly when no more tables are missing than pages are available, plus
  one if frame 0 is not a table yet. The exceptions are that frame 0 is a table already and
  showed what is entered next, or that the flags do not map and the table in frame 0 maps
  nothing outside the range; then clearing it goes unnoticed (`PagingRange.MapExact`,
  `PagingRange.TwoTablesShort`, `PagingRange.FrameZeroTwice`,
  `PagingRange.FrameZeroUnnoticed`).
- **mprotect** rounds the end of its range up in 32 bits. When it reports success for flags 0,
  every byte is blocked exactly when that does not wrap around
  (`FrameBytes.BlockedExactly`); a length of 2^32 - 1 from the start of RAM blocks nothing and
  reports success (`FrameBytes.WholeSpaceBlocksNothing`).
- **kmem_cache_alloc** dereferences NULL exactly when it needs a new slab and no page is
  available, or none above the page it takes for the objects (`SlabAllocator.KmemCache.Alloc`).
- **LZ4** widens the low offset byte as a signed char. Offsets survive exactly when that
  byte is below 128 or the high byte is 255 (`Lz4Format.OffsetSurvives`,
  `Lz4RoundTrip.DecodeExact`); 128 is the smallest offset that is lost.
- **The two checksums** agree on every buffer of up to 131074 bytes that is not all zero,
  and 131076 bytes of 0xFF disagree (`Checksum.ShortBuffersAgree`,
  `Checksum.LongBufferDisagrees`); for every length the exact condition is in
  `Checksum.AgreeExactly`.
- **The working directory** looked up by its printed path leads back exactly for nameable
  directories at most 32 deep whose path leaves two characters of the buffer free and has
  at most 255 characters, and for buffers that hold an empty text only
  (`CwdModel.CwdRoundTrip`); a directory 33 deep leads to its parent (`CwdModel.TooDeep`).
- **The wildcard matchers** mean what '*' means exactly for patterns that do not end in two
  stars, which is more than patterns without adjacent stars (`Glob.RightExactly`).
- **kmem_cache_free** has an effect exactly when the slab of the object was full
  (`SlabRuns.FreeGivesBack`); the first object of a fresh cache for two objects a page is
  not given back (`SlabRuns.FirstFreeIsLost`).

## Model

| member | source | states |
|---|---|---|
| `LruHistory.EvictionOrder` | drivers/lru/multilru.c:96-108 | after every legal run of adds, touches and evictions, the next victim is the earliest-added never-promoted page, or, only when there is none, the least recently touched one; nothing is returned exactly when nothing is resident |
| `LruHistory.VictimUnique` | drivers/lru/multilru.c:96-108 | the history determines the victim: no two pages qualify |
| `LruHistory.RunAgrees` | drivers/lru/multilru.c:18-108 | after every legal run, list membership, the referenced bit and both list orders are what the history of calls says |
| `LruHistory.AddKeeps` | drivers/lru/multilru.c:70-77 | adding an absent page keeps the agreement of lists and history |
| `LruHistory.TouchKeeps` | drivers/lru/multilru.c:79-94 | touching a resident page keeps it: the second touch promotes, a touch of an active page moves it to the head |
| `LruHistory.EvictKeeps` | drivers/lru/multilru.c:96-108 | evicting keeps it, with the demotion of the active tail when nothing is inactive |
| `Lru.PageList.AddHead` | drivers/lru/multilru.c:18-31 | the linked list stays well formed, count included, and gains the page at its head |
| `Lru.PageList.Remove` | drivers/lru/multilru.c:33-49 | the linked list stays well formed and loses exactly that page, whose links are cleared |
| `Lru.Lru.AddPage` | drivers/lru/multilru.c:70-77 | both lists stay well formed and disjoint, status is list membership, and the pools are those of the longer history |
| `Lru.Lru.TouchPage` | drivers/lru/multilru.c:79-94 | the same for a touch of a resident page |
| `Lru.Lru.DemoteActivePages` | drivers/lru/multilru.c:51-63 | the active tail moves to the head of the inactive list, unreferenced |
| `Lru.Lru.EvictPage` | drivers/lru/multilru.c:96-108 | returns the page the history calls for, unlinked; nothing exactly when nothing is resident |
| `Frames.LivePagesDisjoint` | arch/common/memory.c:122-150 | over every run of kmalloc, frame allocation, protection, mprotect, frees and swaps, pages handed out and not released are pairwise different and marked used |
| `Frames.ProtectionGrows` | arch/common/memory.c:34-69 | protection bits only grow over a run |
| `Frames.ProtectedNeverHandedOut` | arch/common/memory.c:49-51 | a page once protected is never handed out again, whatever is freed in between |
| `Frames.StepHands` | arch/common/memory.c:122-150 | a call hands out only pages that were available, each once |
| `Frames.StepKeeps` | arch/common/memory.c:53-69 | every call keeps the shape of the state and every protection bit |
| `Frames.AllocationCost` | arch/common/memory.c:193-204 | an allocation lowers the number of free pages by exactly the pages it hands out |
| `FrameBytes.KmallocGives` | arch/common/memory.c:122-149 | every byte of the block at the address returned was available and is used now, and every page newly used holds one of its bytes |
| `FrameBytes.LiveBlocksApart` | arch/common/memory.c:122-150 | over every run of calls no byte belongs to two live blocks, given back page by page |
| `FrameBytes.FreeMemoryIs` | arch/common/memory.c:193-204 | free memory counts the pages of RAM whose bit is clear, and mprotect does not change it |
| `FrameBytes.FreedCounts` | arch/common/memory.c:193-204 | giving back a page in use adds one page of free memory, and giving back another none |
| `FrameBytes.NothingForNothing` | arch/common/memory.c:123-124 | a request for 0 bytes gets nothing and changes nothing |
| `FrameBytes.BlocksAscend` | arch/common/memory.c:144-149 | the next block begins at or above the end of the last one |
| `FrameBytes.RegionProtected` | arch/common/memory.c:53-69 | a protected region is protected to its last byte, and no page without one of its bytes is |
| `Frames.RunGoesOn` | arch/common/memory.c:122-150 | any run of calls goes on with the allocations another component makes, and every page in use before is in use after them |
| `Frames.AllocatesGrows` | arch/common/memory.c:122-150 | allocations only mark pages that were available; everything used stays used, and protection, size and base stay |
| `PhysicalMemory.MemoryManager.SetBit` | arch/common/memory.c:19-26 | the set a bitmap stands for gains or loses exactly that bit |
| `PhysicalMemory.MemoryManager.GetBit` | arch/common/memory.c:28-32 | tells membership in that set |
| `PhysicalMemory.MemoryManager.PageAvailable` | arch/common/memory.c:49-51 | true exactly for pages neither used nor protected |
| `PhysicalMemory.MemoryManager.constructor` | arch/common/memory.c:79-120 | all pages free but the kernel image and one guard page, which are used and protected |
| `PhysicalMemory.MemoryManager.ProtectRegion` | arch/common/memory.c:53-69 | exactly the pages of the region, moved up to the start of RAM if below it, become used and protected |
| `PhysicalMemory.MemoryManager.Kmalloc` | arch/common/memory.c:122-150 | takes the lowest run of enough consecutive available pages at or above next_free, and fails exactly when there is none |
| `PhysicalMemory.MemoryManager.FindRun` | arch/common/memory.c:129-141 | the search finds the lowest such run or shows that none exists |
| `PhysicalMemory.MemoryManager.GetFreeMemory` | arch/common/memory.c:193-204 | 4096 times the number of clear bits |
| `PhysicalMemory.MemoryManager.AllocFrame` | kernel/mm/pmm.c:38-87 | takes the first available page from next_free on, else the first below it, and fails exactly when no page is available at all |
| `PhysicalMemory.MemoryManager.FreeFrame` | kernel/mm/pmm.c:89-105 | clears exactly the bit of the page, and lowers next_free to it |
| `FrameBytes.FrameGives` | kernel/mm/pmm.c:38-87 | a frame is a block of 4096 bytes that were available |
| `FrameBytes.FramesAscend` | kernel/mm/pmm.c:44-83 | the next frame is higher, unless no page above the last one is available |
| `FrameBytes.FreedIsAvailable` | kernel/mm/pmm.c:89-105 | the page of an address given back is available again unless protected, within reach of the next search, and no other page changes |
| `PhysicalMemory.MemoryManager.MprotectSetFlags` | arch/common/mprotect.c:19-62 | 32-bit range arithmetic included: pages are blocked up to the first one locked or missing, with the code that tells which; lifting a block never has an effect |
| `FrameBytes.BlockedExactly` | arch/common/mprotect.c:19-62 | after success for flags 0 every byte of the range lies in a blocked page exactly when the rounded end does not wrap around 2^32 |
| `FrameBytes.CodesExplained` | arch/common/mprotect.c:30-61 | without wrap-around: success exactly when all bytes are in RAM and open, and otherwise the first byte that is not decides between the codes |
| `FrameBytes.BlockedBytes` | arch/common/mprotect.c:30-61 | the bytes of the range are blocked up to the first that is not open |
| `FrameBytes.NothingBlocked` | arch/common/mprotect.c:19-28 | an empty range or one below RAM is refused, and other flags change nothing |
| `FrameBytes.WholeSpaceBlocksNothing` | arch/common/mprotect.c:26-28 | a length of 2^32 - 1 from the start of RAM reports success and blocks nothing |
| `PhysicalMemory.MemoryManager.SwapOutPage` | arch/common/swap.c:19-44 | releases the page unless protected, and counts its sectors modulo 2^32 |
| `PhysicalMemory.MemoryManager.SwapInPage` | arch/common/swap.c:50-67 | takes a page as kmalloc does, and gives sectors back without going below zero |
| `FrameBytes.SwappedIsAvailable` | arch/common/swap.c:19-44 | swapping out succeeds exactly for pages not protected, which are then available again |
| `MappingRuns.TablesAreAFlatMap` | arch/x86/vmm.c:52-94 | over every run of vmm_map calls, with any other calls of the allocator between them that give back no page table, and with pages for the tables each call makes: every page translates as in a flat map updated call by call |
| `MappingRuns.StepAgrees` | arch/x86/vmm.c:52-94 | one such call keeps the tables sound and reserved and the flat map in step |
| `MappingRuns.MapBeside` | arch/x86/vmm.c:68-70 | a call of vmm_map beside a slab cache keeps every slab on its page |
| `PagingRange.MapExact` | arch/x86/vmm.c:60-91 | given the frames the allocator hands out, the range translates linearly with the flags asked and every other page as before if and only if there are frames for all missing tables, counting frame 0 unless it is a table already, or clearing the table in frame 0 changes nothing |
| `PagingRange.RangeTracks` | arch/x86/vmm.c:60-91 | after any number of rounds, exactly the missing tables were made, each from the next frame |
| `PagingRange.TablesNow` | arch/x86/vmm.c:68-76 | the frames that hold tables afterwards are those that did and those made into tables |
| `PagingRange.RangeMapped` | arch/x86/vmm.c:60-91 | while the supply is not overdrawn, the pages done translate as asked and nothing else changed; leaving out the entry that has frame 0, also one frame beyond |
| `PagingRange.RangeLost` | arch/x86/vmm.c:68-76 | once overdrawn twice, the range is not mapped as asked |
| `PagingRange.ZeroTableExact` | arch/x86/vmm.c:68-76 | one frame short with frame 0 already a table: mapped as asked exactly when the range stays clear of that table and it showed what is entered next |
| `PagingRange.RangeUnmapped` | arch/x86/vmm.c:60-91 | with flags that do not map, pages of entries that do not have frame 0 are unmapped in the range and as before elsewhere |
| `PagingRange.UnmappedExact` | arch/x86/vmm.c:60-91 | and, short of frames, the range is as asked exactly when the table in frame 0 maps nothing outside of it |
| `PagingRange.TwoTablesShort` | arch/x86/vmm.c:68-76 | without frames, 1025 pages that need two tables are not mapped |
| `PagingRange.FrameZeroTwice` | arch/x86/vmm.c:68-76 | without frames, and with frame 0 a table already, mapping one page costs another its translation |
| `PagingRange.FrameZeroUnnoticed` | arch/x86/vmm.c:68-76 | in the same situation, a page mapped like the one whose table is cleared is mapped as asked |
| `Paging.AddTableKeeps` | arch/x86/vmm.c:68-76 | a fresh frame keeps directory entries injective, and entering a new table changes no translation |
| `Paging.StoreEntry` | arch/x86/vmm.c:81-84 | writing one entry of one table changes one translation and no other |
| `Paging.MapPageKeeps` | arch/x86/vmm.c:60-91 | one round extends the mapping by exactly one page |
| `Paging.RecursiveWindow` | arch/x86/vmm.c:65-81 | pages of the last 4 MBytes show the directory and the page tables |
| `Paging.SharedTableLoses` | arch/x86/vmm.c:68-76 | two directory entries of a range for one frame leave a page without its translation |
| `VirtualMemory.Vmm.Map` | arch/x86/vmm.c:52-94 | vmm_map over the real frame allocator: the exact condition of MapExact with the pages available; where mapped as asked, every address grants what PagingAccess.MappedGrants says; whatever the outcome, no page still available holds a table, and pages are only taken from the allocator |
| `PagingAccess.MappedGrants` | arch/x86/vmm.c:60-91 | for every linear address the walk of the hardware leads to the physical address asked for, with write and user rights of the flags, cut down by the rights of tables that were there before; other addresses lead where they did |
| `PagingAccess.BytesReached` | arch/x86/vmm.c:60-91 | for a page-aligned range, byte for byte |
| `PagingAccess.MadeRights` | arch/x86/vmm.c:70-70 | a directory entry made for a table grants writing and user mode |
| `VirtualMemory.MapOutcome` | arch/x86/vmm.c:52-94 | the pages available decide whether a call maps as asked |
| `VirtualMemory.MapLeaves` | arch/x86/vmm.c:52-94 | a call takes as many pages as tables were missing, or all there were, and frame 0 is a table from then on exactly when these were too few |
| `VirtualMemory.Vmm.MapOne` | arch/x86/vmm.c:60-91 | one round through the recursive window is one round on the tables, with a frame from the allocator exactly when a table was missing |
| `VirtualMemory.Vmm.CreateTable` | arch/x86/vmm.c:68-76 | enters the table with full rights (PagingAccess.MadeRights) and clears it through the window |
| `SlabRuns.ObjectsDisjoint` | kernel/mm/slab.c:57-128 | over every run of a cache for objects of 1 to 4096 bytes, each object in use lies inside one page and no two overlap |
| `SlabRuns.RunSafe` | kernel/mm/slab.c:57-128 | in every reachable state set bits and free objects make up the capacity, a slab is on the full list exactly when nothing in it is free, and no allocation returns an object in use |
| `SlabRuns.AllocKeeps` | kernel/mm/slab.c:57-89 | allocation always finds an object, one that was not taken, and keeps every other one taken |
| `SlabRuns.FreeKeeps` | kernel/mm/slab.c:91-128 | freeing a taken object keeps the invariant and every other object |
| `SlabRuns.FreeGivesBack` | kernel/mm/slab.c:98-127 | the object is given back exactly when its slab was full |
| `SlabRuns.FirstFreeIsLost` | kernel/mm/slab.c:98-127 | with two objects a page, the first object of a fresh cache stays taken when freed |
| `SlabLaws.NewPageOnlyWhenFull` | kernel/mm/slab.c:57-69 | an object is put into a slab that is there while any of them has one of its first 32 places in the page free, and otherwise at the start of the new page |
| `SlabLaws.FullSlabHasNoPlace` | kernel/mm/slab.c:78-82 | a slab on the full list has no such place |
| `SlabModel.ClearBitBelowCapacity` | kernel/mm/slab.c:71-76 | by counting: with an object free, the first clear bit is below the capacity |
| `SlabModel.TakeKeeps` | kernel/mm/slab.c:71-74 | taking the first clear bit moves one object from free to set |
| `SlabModel.GiveKeeps` | kernel/mm/slab.c:107-110 | clearing a set bit moves it back |
| `SlabModel.OnePageOneSlab` | kernel/mm/slab.c:101-107 | slabs of a cache are told apart by their pages |
| `SlabAllocator.KmemCache.SlabCreate` | kernel/mm/slab.c:36-52 | a new slab sits on the page the frame allocator finds first, which no slab of the cache uses; there is none exactly when no page is available, or none above that page for the header; pages are only taken from the allocator |
| `SlabAllocator.HeaderFits` | kernel/mm/slab.c:37-41 | the header finds memory exactly when a page is available above the page of the slab |
| `SlabAllocator.KmemCache.Alloc` | kernel/mm/slab.c:57-89 | is the model allocation, on a fresh page when a slab was created; it dereferences NULL exactly when there was no partial and no free slab and none could be created; pages are only taken from the allocator |
| `MappingRuns.AllocBeside` | kernel/mm/slab.c:57-89 | an allocation beside page tables leaves them reserved and puts no slab on one |
| `SlabAllocator.KmemCache.FreeObject` | kernel/mm/slab.c:91-128 | is the model free; null is ignored |
| `CacheModel.CacheIsTransparent` | fs/btrfs/btrfs.c:37-110 | over every run from a cold cache, reads give what a plain disk would give, a refusal means the block is uncached and all 32 slots are dirty, and a flush leaves exactly the plain disk on the disk |
| `CacheModel.RunRefines` | fs/btrfs/btrfs.c:37-110 | in every reachable state a block is in at most one slot, clean slots equal the disk, and cache over disk equals the plain disk |
| `CacheModel.GetKeeps` | fs/btrfs/btrfs.c:37-59 | getting a block, eviction included, changes the worth of no block |
| `CacheModel.OverwriteKeeps` | fs/btrfs/btrfs.c:61-68 | writing a slot and marking it dirty changes the worth of that block and no other |
| `CacheModel.FlushKeeps` | fs/btrfs/btrfs.c:101-110 | flushing changes the worth of no block and leaves the slots clean |
| `CacheModel.FlushedDisk` | fs/btrfs/btrfs.c:101-110 | after a flush the disk equals the view |
| `CacheModel.StepRefines` | fs/btrfs/btrfs.c:37-110 | one call refines the same call on a plain disk |
| `CacheModel.RefusedAfter32` | fs/btrfs/btrfs.c:44-58 | a refusal means that 32 different blocks were written since the last flush |
| `BlockCache.Btrfs.Get` | fs/btrfs/btrfs.c:37-59 | a hit changes nothing, a miss loads into the first invalid or clean slot, and without one there is no answer |
| `BlockCache.Btrfs.MarkDirty` | fs/btrfs/btrfs.c:61-68 | marks the slot of the block and nothing else |
| `BlockCache.Btrfs.FlushCache` | fs/btrfs/btrfs.c:101-110 | is the model flush of all 32 slots |
| `BlockCache.Btrfs.ReadBlock` | fs/btrfs/btrfs.c:37-59 | reading a block through its slot is one read step |
| `BlockCache.Btrfs.WriteBlock` | fs/btrfs/btrfs.c:37-68 | get, write, mark dirty is one write step |
| `BlockAllocation.LiveBlocksDistinct` | fs/btrfs/btrfs.c:112-156 | across any mix of allocations, frees, other traffic, flushes and evictions, allocated and unfreed numbers are distinct and marked |
| `BlockAllocation.NoSpaceMeansFull` | fs/btrfs/btrfs.c:112-125 | -1 means that all 4096 bits are set |
| `BlockAllocation.ActionTakes` | fs/btrfs/btrfs.c:112-156 | an allocation takes the lowest clear bit, a free gives one bit back, and nothing else changes the bitmap |
| `BlockAllocation.OtherBlocksStay` | fs/btrfs/btrfs.c:112-156 | allocating and freeing change no block but block 1 |
| `BlockCache.Btrfs.AllocateBlock` | fs/btrfs/btrfs.c:112-125 | one allocation step through the cache; no buffer is the case where the C code would dereference NULL |
| `BlockCache.Btrfs.FreeBlock` | fs/btrfs/btrfs.c:149-156 | one free step through the cache |
| `CwdModel.CwdRoundTrip` | fs/vfs/vfs.c:287-320 | looking up the text vfs_get_cwd prints returns the same directory exactly when it is nameable, at most 32 deep, and its path fits the buffer and 255 characters, or the buffer holds an empty text only |
| `CwdModel.TooDeep` | fs/vfs/vfs.c:294-299 | from a directory 33 deep the printed path leads to its parent |
| `CwdModel.PrintedNames` | fs/vfs/vfs.c:294-319 | printing drops nothing exactly when there are at most 32 names and they fit |
| `CwdModel.PrintsWhatFits` | fs/vfs/vfs.c:301-319 | as many names are printed as fit, with a slash after them when more would follow |
| `PathLaws.PathsCompose` | fs/vfs/vfs.c:34-68 | a path followed by a relative path leads on from where the first one leads |
| `PathLaws.DotsClimb` | fs/vfs/vfs.c:52-57 | two dots lead to the parent, and at the root to the root |
| `PathLaws.DotStays` | fs/vfs/vfs.c:48-51 | a dot stays |
| `PathLaws.NameLeads` | fs/vfs/vfs.c:58-64 | a name leads to the first child of that name, and nowhere when there is none |
| `PathLaws.DescentLeads` | fs/vfs/vfs.c:46-66 | the names from a directory down to one below it lead there |
| `PathLaws.DotsLead` | fs/vfs/vfs.c:46-66 | k times two dots lead k levels up, or to the root |
| `PathLaws.DotsReachRoot` | fs/vfs/vfs.c:46-66 | as many times two dots as a directory is deep lead to the root |
| `PathLaws.LongPathCut` | fs/vfs/vfs.c:42-44 | of a longer path only the first 255 characters count |
| `PathModel.LookupPath` | fs/vfs/vfs.c:34-68 | looking up the path of a node gives the node exactly when every component names it and the path has at most 255 characters |
| `PathModel.AbsoluteReaches` | fs/vfs/vfs.c:34-68 | only nameable nodes have an absolute path, and none shorter than their own |
| `PathModel.WalkNames` | fs/vfs/vfs.c:46-66 | walking the names of a nameable node from the root arrives at it |
| `PathModel.TokensJoined` | fs/vfs/vfs.c:46-66 | splitting joined names gives the names back |
| `PathModel.AddChildFinds` | fs/vfs/vfs.c:93-108 | after mkdir a lookup finds what it found before, unless the new child has the name |
| `PathModel.MkdirKeepsNameable` | fs/vfs/vfs.c:93-108 | a directory with a name its parent does not have leaves every nameable directory nameable |
| `PathModel.MkdirNameable` | fs/vfs/vfs.c:93-108 | the new directory is nameable exactly when its name is clean |
| `Vfs.FileSystem.constructor` | fs/vfs/vfs.c:256-269 | a sole root directory that is the current one |
| `Vfs.FileSystem.FindDir` | fs/vfs/vfs.c:70-78 | the walk over sibling links finds the first child of that name |
| `Vfs.FileSystem.Lookup` | fs/vfs/vfs.c:34-68 | the walk over links and strtok pieces is the lookup in the tree |
| `Vfs.FileSystem.Mkdir` | fs/vfs/vfs.c:93-108 | links a new first child, or fails without memory and changes nothing |
| `Vfs.FileSystem.Chdir` | fs/vfs/vfs.c:278-285 | the current directory becomes the directory found, or stays |
| `Vfs.FileSystem.CollectParts` | fs/vfs/vfs.c:294-299 | at most the 32 innermost names, innermost first |
| `Vfs.FileSystem.GetCwd` | fs/vfs/vfs.c:287-320 | leaves the printed path as a C string in the buffer; below the root, a size from 2^31 on compares as negative and only puts a NUL at the end |
| `Strings.Tokenizer.Next` | usr/lib/string.c:200-223 | successive calls yield exactly the pieces of the text, although they cut it in place |
| `PathLaws.TokensSplit` | usr/lib/string.c:200-223 | a slash splits a text into the pieces before and after it |
| `Strings.Tokenizer.SkipDelimiters` | usr/lib/string.c:207-208 | skips leading delimiters and nothing else |
| `Strings.Tokenizer.TokenEnd` | usr/lib/string.c:213-214 | stops at the first delimiter or the end |
| `XfsDirectories.RunKeeps` | fs/xfs/xfs.c:30-105 | in every state reachable from xfs_init, free block counts differ by at most one and each is 1024 minus its set bits and 1024 minus its inodes; names too long give -EINVAL, names that clean to nothing 0, all others fail exactly when all 128 inodes are used |
| `XfsLaws.NameIsListed` | fs/xfs/xfs.c:49-101 | with an inode free, a name with or without a slash before it, and with anything after a blank, tab, newline or return, lists an entry of exactly that name, kind and parent and nothing else, and finddir finds the name |
| `XfsLaws.NameIsRefused` | fs/xfs/xfs.c:50-82 | 64 characters or more give -22, nothing but what is dropped gives 0 without effect, and with no inode free a name gives -28 |
| `XfsLaws.FullAt128` | fs/xfs/xfs.c:74-105 | in every reachable state no inode is free exactly when 128 files were made |
| `XfsLaws.BlocksAccounted` | fs/xfs/xfs.c:30-105 | in every reachable state each group accounts for its 1024 blocks, and no group has two free blocks more than another |
| `XfsLaws.BlocksAreOwn` | fs/xfs/xfs.c:82-94 | in every reachable state the files of a group have different blocks, marked in the bitmap |
| `XfsModel.CreateKeeps` | fs/xfs/xfs.c:74-105 | one creation keeps this, and never takes the "no block" or -EIO exit |
| `XfsModel.GroupCreates` | fs/xfs/xfs.c:82-102 | a group with an inode to spare has a block and a slot to spare |
| `XfsDirectories.RunKeepsTree` | fs/xfs/xfs.c:49-105 | when callers pass existing parents, every reachable state has distinct inode numbers and only older parents |
| `XfsDirectories.ReaddirIsComplete` | fs/xfs/xfs.c:145-168 | readdir over 0, 1, 2, … gives each active child at exactly one index, nothing else, and then fails |
| `XfsDirectories.FinddirAgreesWithReaddir` | fs/xfs/xfs.c:216-249 | finddir succeeds exactly for names readdir lists and returns the entry at the lowest such index |
| `XfsDirectories.CreatedIsListed` | fs/xfs/xfs.c:86-101 | a successful creation puts exactly the new entry, with the cleaned name, kind and parent asked for, into exactly one directory listing |
| `XfsDirectories.CreatedIsFound` | fs/xfs/xfs.c:216-249 | and finddir then finds the name |
| `XfsDirectories.ChainToRoot` | fs/xfs/xfs.c:95-95 | every parent chain reaches the root |
| `Xfs.Filesystem.Init` | fs/xfs/xfs.c:30-44 | leaves every group fresh |
| `Xfs.Filesystem.Clean` | fs/xfs/xfs.c:53-66 | drops one leading slash and everything from the first blank on |
| `Xfs.Filesystem.CreateFile` | fs/xfs/xfs.c:49-105 | is the model creation, its error codes included |
| `Xfs.Filesystem.Readdir` | fs/xfs/xfs.c:145-168 | the nested scan gives the entry of that index |
| `Xfs.Filesystem.Finddir` | fs/xfs/xfs.c:216-249 | the nested scan gives the first child of that name; nothing without memory |
| `Xfs.Filesystem.PickAg` | fs/xfs/xfs_alloc.c:13-21 | the first of the groups with the most free blocks |
| `Xfs.Filesystem.AllocBlock` | fs/xfs/xfs_alloc.c:26-45 | takes the lowest clear bit of the group, or -1 |
| `XfsModel.StillBalanced` | fs/xfs/xfs_alloc.c:13-21 | taking from a group with the most free blocks keeps the groups balanced |
| `XfsModel.SomeBlockFree` | fs/xfs/xfs_alloc.c:33-43 | by counting: fewer than 1024 set bits leave a clear one |
| `Lz4RoundTrip.RoundTrip` | crypto/lz4.c:21-68 | for every valid block whose offsets survive, decoding its encoding writes its expansion and returns the length, or returns -1 with a full output exactly when the expansion exceeds max_output |
| `Lz4RoundTrip.DecodeExact` | crypto/lz4.c:45-46 | for expansions below 65408 bytes the decoder is right exactly on blocks whose offsets all survive |
| `Lz4RoundTrip.BadOffsetFaults` | crypto/lz4.c:45-64 | otherwise it reads before the start of the output |
| `Lz4RoundTrip.OffsetOf128IsLost` | crypto/lz4.c:45-64 | a copy from 128 bytes back is lost |
| `Lz4Layout.SequenceLayout` | crypto/lz4.c:22-57 | token, literal length, literals, offset with its low byte first, match length, counted from 15 and 4 |
| `Lz4Layout.LastLayout` | crypto/lz4.c:22-42 | token, length and literals of the last sequence |
| `Lz4Layout.ShortExample` | crypto/lz4.c:21-66 | a block of two sequences decoded |
| `Lz4Layout.RepeatExample` | crypto/lz4.c:60-65 | an overlapping copy decoded |
| `Lz4Layout.LongExample` | crypto/lz4.c:26-32 | a literal length of 15 + 255 + 2 decoded |
| `Lz4Format.OffsetSurvives` | crypto/lz4.c:45-46 | an offset comes back from its two bytes exactly when the low one is below 128 or the high one is 255 |
| `Lz4Format.CopyRepeats` | crypto/lz4.c:60-65 | overlapping copies repeat the last `offset` bytes |
| `Lz4Decoder.Decompress` | crypto/lz4.c:11-69 | the loops on arrays give the outcome of the decoder on the bytes: value returned and bytes written |
| `Lz4Decoder.ReadExtra` | crypto/lz4.c:27-31 | adds up length bytes until one is not 255 |
| `Lz4Decoder.CopyLiterals` | crypto/lz4.c:35-39 | copies literals, or fills the output and stops |
| `Lz4Decoder.CopyBack` | crypto/lz4.c:60-65 | copies byte by byte from `offset` back, reading what it wrote |
| `Md5Stream.StreamingIsOneShot` | crypto/md5.c:92-114 | for every way of cutting a message into update calls, the state is the compression function folded over the complete blocks, the buffer holds the rest and the count is the bit length modulo 2^64 |
| `Md5Stream.StreamingBlockByBlock` | crypto/md5.c:92-114 | the same block by block: each state is the one before compressed with the next 64 bytes |
| `Md5.InitialBytes` | crypto/md5.c:77-82 | the initial words, low byte first, are 01 23 45 67, 89 ab cd ef, fe dc ba 98 and 76 54 32 10 |
| `Md5Stream.CutsDoNotMatter` | crypto/md5.c:92-114 | two ways of cutting a message end in the same context |
| `Md5Stream.UpdateAppends` | crypto/md5.c:92-114 | one update turns the context of a message into that of the longer message |
| `Md5Stream.Position` | crypto/md5.c:94-95 | the buffer position survives the wrap-around of the count |
| `Md5.Md5Context.Update` | crypto/md5.c:92-114 | the loops on the context give the model update |
| `Md5.Md5Context.constructor` | crypto/md5.c:77-86 | the initial state and count; the buffer keeps what it held |
| `Checksum.ShortBuffersAgree` | net/stack.c:9-23 | up to 131074 bytes, odd lengths included, the two checksums agree exactly when the buffer is not all zero, and all-zero buffers give 0xFFFF and 0 |
| `Checksum.AgreeExactly` | net/stack.c:9-23 | for every buffer: they agree exactly when the 32-bit sum is not zero and the carries lost out of it are a multiple of 65535 |
| `Checksum.IntLengthsAgree` | net/stack.c:9-23 | for lengths an int holds: exactly when the word sum is between 1 and 2^32 - 1 |
| `Checksum.LongBufferDisagrees` | net/stack.c:9-23 | the bound is sharp: 131076 bytes of 0xFF disagree |
| `ChecksumLaws.ReceiverChecks` | net/stack.c:9-23 | a receiver that adds the checksum in gets zero exactly for the checksum of the data or the other zero in its place |
| `ChecksumLaws.PaddingIsFree` | net/stack.c:15-17 | an odd buffer counts as if a zero byte followed, for both functions |
| `ChecksumLaws.RfcExample` | net/stack.c:9-23 | the data of the example of section 3 of RFC 1071 has the checksum 22 0d, by both functions |
| `Checksum.Late` | net/stack.c:9-23 | the late-folding sum of little-endian words in 32-bit arithmetic |
| `Checksum.AddWords` | net/stack.c:12-17 | the adding loop, modulo 2^32 |
| `Checksum.SumsRelated` | drivers/net/rtl8139.c:29-47 | swapping the bytes of all words multiplies the sum by 256 up to multiples of 65535 |
| `Checksum.Eager` | drivers/net/rtl8139.c:29-47 | the eagerly folded sum of swapped words |
| `ReaderWriterLock.WritersAreAlone` | kernel/locking/rwsem.c:20-70 | in every interleaving of any number of threads the counter is -1 exactly while a writer is inside, a writer is alone, and otherwise the counter is the number of readers |
| `ReaderWriterLock.ReaderGetsIn` | kernel/locking/rwsem.c:20-36 | undisturbed, a reader gets in when no writer is inside, and waits when one is |
| `ReaderWriterLock.WriterGetsIn` | kernel/locking/rwsem.c:49-59 | a writer gets in exactly when nobody is inside |
| `ReaderWriterLock.StepKeeps` | kernel/locking/rwsem.c:20-70 | one atomic load, compare-and-swap or subtraction keeps the invariant |
| `Semaphore.TokensConserved` | kernel/locking/semaphore.c:14-57 | in every interleaving count plus holders is the initial count, the count never goes below zero, and total_waiters is the number of waiting threads |
| `Semaphore.TokenIsTaken` | kernel/locking/semaphore.c:23-45 | undisturbed, a thread gets a token when there are fewer holders than tokens, and waits when there are not |
| `Semaphore.StepKeeps` | kernel/locking/semaphore.c:23-57 | one atomic step keeps the invariant |
| `Tty.Console.Input` | drivers/tty/tty.c:81-132 | the ring of the active terminal refines the waiting text: append, erase the last character, kill exactly the text after the last newline; other terminals are untouched |
| `Tty.Tty.Input` | drivers/tty/tty.c:81-132 | the same for one terminal; killing a line terminates although it feeds erase characters back |
| `Tty.Console.Read` | drivers/tty/tty.c:138-155 | takes the longest allowed prefix, in canonical mode through the first newline at most, and leaves the rest and other terminals as they are |
| `Tty.Console.Switch` | drivers/tty/tty.c:171-195 | only valid numbers change the active terminal; no text changes |
| `Tty.Console.constructor` | drivers/tty/tty.c:34-52 | seven empty terminals with the default settings |
| `TtyLaws.KillDropsLine` | drivers/tty/tty.c:108-115 | the kill key drops exactly the text after the last newline |
| `TtyLaws.EraseDropsOne` | drivers/tty/tty.c:95-106 | the erase key and DEL drop the last character, if there is one |
| `TtyLaws.OthersAppend` | drivers/tty/tty.c:118-125 | any other key appends itself while there is room for 2048 characters, a return as a newline |
| `TtyLaws.InterruptKeepsText` | drivers/tty/tty.c:85-90 | the interrupt key keeps the text |
| `TtyLaws.DefaultKeys` | drivers/tty/tty.c:42-48 | Ctrl+U, backspace, DEL, Ctrl+C and return with the settings of tty_init |
| `TtyModel.KeepLines` | drivers/tty/tty.c:108-115 | the longest prefix that is empty or ends in a newline |
| `TtyModel.ReadLength` | drivers/tty/tty.c:142-153 | as many as allowed and present, never past the first newline in canonical mode, and no fewer |
| `TtyModel.FirstInFirstOut` | drivers/tty/tty.c:118-155 | for every interleaving of typing ordinary characters and reading, what was read and what waits is exactly what was typed and found room |
| `TtyModel.EraseUndoes` | drivers/tty/tty.c:95-106 | typing ordinary characters and erasing as many leaves no trace |
| `TtyModel.StaysBounded` | drivers/tty/tty.c:119-125 | the text never outgrows the ring |
| `TtyModel.ReadIsFinal` | drivers/tty/tty.c:142-153 | characters read are never taken back |
| `TtyModel.BeforeIsPrevious` | drivers/tty/tty.c:97-97 | the unsigned head minus one wraps correctly, because 2048 divides 2^32 |
| `TtyModel.Push` | drivers/tty/tty.c:119-125 | storing at the head appends to the text |
| `TtyModel.Pop` | drivers/tty/tty.c:143-147 | advancing the tail drops the first character |
| `Glob.MatchWildcard` | usr/commands.c:352-372 | terminates, and accepts what the pattern means, except that two stars at its end want at least one character |
| `Glob.MatchPattern` | usr/commands.c:422-441 | terminates, and decides the same as match_wildcard on every pattern and text |
| `Glob.RightExactly` | usr/commands.c:352-372 | both are right on every text exactly for patterns that do not end in two stars; for one that does, the text of its letters is wrongly refused |
| `Glob.Sound` | usr/commands.c:352-372 | they accept nothing the pattern does not mean |
| `Glob.Exact` | usr/commands.c:422-441 | what they decide, in terms of the meaning of the pattern |
| `Division.UdivMod` | arch/x86/virt.c:17-29 | for every 64-bit n and d: quotient and remainder for d not 0, all ones and n for d = 0 |
| `Division.Loop` | arch/x86/virt.c:6-12 | the 64 rounds leave quotient and remainder of all bits |
| `Division.Turn` | arch/x86/virt.c:6-12 | one round finds one more bit, at a place of the quotient that is still clear |
| `Division.RoomToShift` | arch/x86/virt.c:7-7 | before each shift the remainder is below 2^63, whatever the divisor |

## Left out

- PhysicalMemory.MemoryManager.constructor: RAM of more than 256 MBytes, for which the two 8192-byte bitmaps have no bits and the C code writes past them, is excluded, as is a kernel image outside RAM.
- PhysicalMemory.MemoryManager.ProtectRegion: regions that end past the bits of the bitmaps are excluded for the same reason.
- PhysicalMemory.MemoryManager.FreeFrame: addresses past the bits of the bitmaps are excluded.
- PhysicalMemory.MemoryManager.SwapOutPage: frame numbers past the bits of the bitmaps are excluded; writing the page to the device is not modelled, device and slot numbers play no part.
- VirtualMemory.Vmm.Map: ranges that reach the recursive window and addresses that wrap around 2^32 are excluded, and so are flags or addresses whose bits overlap and a directory in frame 0; 4-MByte pages, permission checks, the TLB and the lock are not modelled.
- SlabAllocator.KmemCache.Alloc: where the C code goes on with a null slab or header the model stops with NullDereference and the page already taken stays used; slab lists are sequences, so updates of the next links are not shown pointer by pointer.
- SlabAllocator.KmemCache.FreeObject: addresses whose slot number would shift by 32 or more are excluded.
- BlockCache.Btrfs.FreeBlock: block numbers outside the bitmap are excluded.
- Vfs.FileSystem.Lookup: NULL paths, and nodes of other filesystems with their own finddir, are not modelled.
- Vfs.FileSystem.Mkdir: names of 256 and more characters, which strncpy leaves unterminated, are excluded.
- Vfs.FileSystem.GetCwd: a one-character buffer at the root, which strncpy leaves unterminated, is excluded.
- Xfs.Filesystem.CreateFile: a NULL name is not modelled; the inode counter is unbounded, which 128 inodes per xfs_init do not reach.
- Xfs.Filesystem.Finddir: a NULL parent, which the C code dereferences after a match, is not modelled; nor are size and ram_address.
- Lz4Decoder.Decompress: char is signed, as on x86; where the C code would read outside a buffer, read a byte never written or overflow an int, the model stops with Undefined.
- Lz4RoundTrip.DecodeExact: from 65408 bytes on a lost offset may still copy the right bytes by chance, so the condition is exact below that only; RoundTrip has no such bound.
- Md5.Md5Context.Update: inputs within 63 bytes of 2^32, where the loop bound wraps, are excluded; the compression function is a parameter, its rounds are not modelled.
- Checksum.Eager: the length is that of the buffer; the machine is little-endian, as the kernel's targets are.
- Tty.Tty.Input: echo is not modelled; the erase character must not be the interrupt character while signals are on, which holds for the settings tty_init makes and nothing changes.
- Tty.Console.Switch: screen contents, cursor and logged-in user are not modelled.
- Division.UdivMod: __udivdi3 has the same loop and returns its quotient only; the remainder pointer is a result.
- Semaphore.TokensConserved: only holders call sem_up; an extra sem_up would add a token.
- List counters, inode counters and lock counters are unbounded integers.
- Copy-on-write and demand paging faults; kalloc_page, kfree_page and kfree, which use bitmaps of their own.
- File-level btrfs operations, which keep a pointer into a cache slot across another block_get.
- root_readdir, root_unlink, vfs_mount and path creation above root_mkdir; xfs_vfs_read and buffer binding.
- The mutex, which returns on contention without acquiring; spin locks around the modelled code.
- Other ciphers, hashes and compressors, the BPF interpreter and compilers, ramfs, ext2 and fat.
- Disk failures and time-outs, console messages, port and memory-mapped drivers, boot code, shell commands other than the two matchers.
