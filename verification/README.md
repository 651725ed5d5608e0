# Verified model of a small x86 kernel

This project models the core of a 32-bit x86 teaching kernel and its user libc in Dafny, and proves what
its data structures keep over whole runs.

- **Memory.** `FrameBitmap` (frame bitmap), `FreeAreas` (the coalescing list of free kernel pages) and
  `Paging` (two-level translation of section 4.3 of the Intel SDM Volume 3A, edited through directory entry
  1023) hold the parts. `MemoryModel` says what bitmap, free list, page tables and process structures must
  agree on, `UserTables` where user addresses lead; `MemorySteps` holds the steps, `MemoryRuns` what every run
  keeps and what a process gives back, `Translations` what a page fault does to all other addresses, and
  `StaleEntry` runs in which isolation fails. `HeapWindow` shows that the kernel heap is memory as `KernelHeap`
  takes it to be. `Memory` (with `MemoryFacts`) proves the code of `kern/mm.c`, the
  page-fault handler and the memory side of loading and exiting against those steps.
- **Heaps.** `Chunks` is the theory of an implicit chunk list (first fit, split, forward merge, live blocks);
  `HeapBytes` ties it to headers in memory; `KernelHeap` and `UserHeap` are the two allocators.
- **Files.** `Ext2` shows that the nested indirection loops are random access by index arithmetic. `Files`
  specifies directory cache, path resolution and `pwd`; `FileTree` is the code; `DiskImage` puts the two together.
- **Processes.** `Process` is the life cycle (load, exit, wait, kill, signal delivery), `Signals` the 32-bit mask of
  pending signals, `Schedule` the round robin, `Fairness` process table and scheduler together, `UserStack` the
  initial stack of a program.
- **Support.** `Layout` (shared constants), `Words` (little-endian words), `Bits` (masks), `Lists` (the linked
  lists of `kern/list.h`), `Numbers` (printing and reading numbers).

`dafny verify dfyconfig.toml` checks everything.

## Reading the model

Code that updates memory or structures is a class or a method over an array or a byte sequence, proved
against functions on plain values; the properties over runs are lemmas about those functions. Assembly,
the processor's registers and the drive are parameters: the loaded directory is a variable (`cr3`), the disk
a byte sequence or a function from inode numbers to files, the success of `load_elf` a Boolean.

What the code assumes and never checks is a precondition here:

- Out-of-memory tests compare pointers with `< 0` and never fire (`kern/kmalloc.c:23`, `kern/kmalloc.c:69`,
  `kern/mm.c:45`). Free frames, room in the heap window and a page heap with more than one free page are
  required where they are used. Growth of the kernel heap by the `kmalloc` calls inside memory operations is
  a parameter of those operations, for every possible value.
- When a released page precedes every free area, the list head is read as an area (`kern/mm.c:104-106`). The
  words found there are a parameter; `FreeAreas.GivenExact` says exactly when they do harm, and the runs
  assume that they lie outside the page heap.
- A new page table is cleared from index 1 (`kern/mm.c:312`); its first word keeps what the frame held. The model
  records which tables are in that state; `MemoryRuns.RunIsolation` says exactly what it costs, and
  `StaleEntry.ForeignDirectoryRun` gives a run.
- A load that fails leaves its user frames marked (`kern/process.c:82-90`); they have an owner of their own kind.
- `n_proc` counts loads that failed at the ELF stage (`kern/process.c:45`); they are counted separately.
- Signal numbers are reduced modulo 32 by the shift (`kern/signal.h:20`); runs exclude kills that raise SIGCHLD.
- The slot search needs a free slot (`kern/process.c:38-40`); the scheduler never looks at pid 32
  (`kern/schedule.c:134`).
- `p_list[0].child` is taken to be an empty list at the start (`kern/kernel.c:89-93` does not initialise it).
- Disk offsets are C ints; blocks of a file are required to lie below 2^31 bytes.
- Directory files are well formed up to their first zero inode: entries fit, names are not empty and contain
  neither NUL nor a slash. The disk does not change.
- Requests whose size computation wraps are part of the runs of both allocators, with the block they get;
  `RealSizeHoldsRequest` gives the exact limit, and `UserHeap.AllocExact` the requests that ruin the user heap.

## Model

| member | source | states |
|---|---|---|
| `KernelHeap.RealSizeHoldsRequest` | kern/kmalloc.c:47-49 | the chunk size looked for holds header and request if and only if the 32-bit addition does not wrap |
| `KernelHeap.MallocKeepsInv` | kern/kmalloc.c:42-102 | a kmalloc keeps the heap invariant (chunks of at least 16 bytes tile the heap, page-sized total, counter), adds exactly one block, new to the live set, and grows the heap only when nothing fits |
| `KernelHeap.FreeKeepsInv` | kern/kmalloc.c:104-125 | a kfree of a live block keeps the invariant and removes exactly that block from the live set |
| `KernelHeap.RunInvariant` | kern/kmalloc.c:6-125 | the invariant holds in every state of every run of kmalloc and valid kfree from boot |
| `KernelHeap.RunBlocksDisjoint` | kern/kmalloc.c:42-125 | in every state of every run the live blocks do not overlap, lie inside the heap and have the size that was looked for, at least 16 bytes |
| `KernelHeap.RunMallocHolds` | kern/kmalloc.c:42-102 | in every run the block of a kmalloc(size) is new and holds header and size with less than 16 bytes to spare (16 bytes at least) if and only if their sum does not wrap at 32 bits; otherwise it is of 16 to 31 bytes |
| `KernelHeap.RunCounter` | kern/kmalloc.c:98-114 | kmalloc_used lags the used bytes by the accumulated unsplit slack, at most 15 bytes a call; its 32-bit value is that difference if and only if the slack has not overtaken the used bytes |
| `KernelHeap.CounterWrapsExample` | kern/kmalloc.c:86-114 | one unsplit block allocated and freed leaves kmalloc_used at 2^32 - 6 with nothing in use |
| `KernelHeap.KernelHeap.constructor` | kern/mm.c:176-178 | the heap after boot is one free page-sized chunk whose header is in memory |
| `KernelHeap.KernelHeap.Ksbrk` | kern/kmalloc.c:6-40 | grows the header list by one free chunk, or refuses exactly when the window is exhausted, for sums that do not wrap; live payloads keep every byte |
| `KernelHeap.KsbrkGuardExact` | kern/kmalloc.c:12-16 | for every size kmalloc can ask for, the 32-bit test refuses exactly what does not fit if and only if the sum does not wrap |
| `KernelHeap.KsbrkWrapsExample` | kern/kmalloc.c:12-16 | a kmalloc of almost 4 GB gets past the test |
| `KernelHeap.KernelHeap.Kmalloc` | kern/kmalloc.c:42-102 | the header walk over bytes refines first fit over the chunk list: the address returned, the new headers, at most one growth, other payloads untouched |
| `KernelHeap.KernelHeap.Kfree` | kern/kmalloc.c:104-125 | the merging loop over bytes refines releasing a chunk and its whole free run; payloads untouched |
| `KernelHeap.KernelHeap.Store` | kern/kmalloc.c:100-101 | a caller writing inside its payload cannot disturb the heap |
| `Chunks.AllocEffect` | kern/kmalloc.c:55-96 | taking the first fit, or growing and taking: well formed, total size, live set and used bytes all change by exactly the block granted |
| `Chunks.ReleaseEffect` | kern/kmalloc.c:109-124 | releasing a chunk with the free run after it: total kept, live set and used bytes shrink by exactly the block |
| `Chunks.ReleaseMerges` | kern/kmalloc.c:116-124 | kfree merges exactly the free chunks right after the block, so that a used chunk or the end follows; the chunks before it, free or not, and after the merged ones are as they were |
| `HeapBytes.FindFit` | kern/kmalloc.c:55-80 | the walk over headers stops at the first fit, or at the limit when there is none |
| `HeapBytes.CarveChunk` | kern/kmalloc.c:86-96 | splitting or taking a chunk in memory gives the headers of the new chunk list |
| `HeapBytes.MergeForward` | kern/kmalloc.c:120-124 | the merge loop leaves one header covering the chunk and the free run after it |
| `HeapBytes.HeaderBytes` | kern/kmalloc.h:5-8 | the four bytes of the header of every chunk: the size in the low 31 bits, little-endian, and the used bit on top |
| `HeapBytes.PayloadStoreKeepsHeap` | kern/kmalloc.c:100-101 | no header changes when a byte of a live payload does |
| `UserHeap.RealSizeHoldsRequest` | usr/libc/malloc.c:12-15 | the rounded size is a multiple of 16 that holds the request if and only if the additions do not wrap |
| `UserHeap.AllocKeepsInv` | usr/libc/malloc.c:17-69 | malloc of a positive rounded size keeps all sizes multiples of 16 and grants exactly the rounded request |
| `UserHeap.AllocExact` | usr/libc/malloc.c:17-69 | malloc keeps the heap in order if and only if the rounded size is not 0; with 0 it makes a block of no size |
| `UserHeap.ZeroRequests` | usr/libc/malloc.c:12-15 | the rounded size is 0 exactly for the sixteen requests from 2^32 - 19 to 2^32 - 4 |
| `UserHeap.ReleaseKeepsInv` | usr/libc/malloc.c:72-90 | free keeps the invariant |
| `UserHeap.RunInvariant` | usr/libc/malloc.c:6-90 | the invariant holds in every state of every run of malloc, wrapping requests included, whose rounded size is not 0, and valid free |
| `UserHeap.RunBlocks` | usr/libc/malloc.c:6-90 | in every run live blocks do not overlap, are aligned to 16 and exactly as large as granted |
| `UserHeap.RunMallocExact` | usr/libc/malloc.c:6-70 | in every run a malloc(size) adds exactly one new block, of size plus 4 rounded up to a multiple of 16, or of 16 bytes when the sum wraps |
| `UserHeap.UserHeap.constructor` | kern/process.c:178-179 | the heap starts empty on the page after the bss, with no b_heap in libc |
| `UserHeap.UserHeap.Sbrk` | kern/syscalls/sys_sbrk.c:3-10 | returns the old end of the heap and moves the kernel's end |
| `UserHeap.UserHeap.Malloc` | usr/libc/malloc.c:6-70 | the search over bytes refines first fit for every request whose rounded size is not 0; afterwards libc and kernel agree on the end of the heap; other payloads untouched |
| `UserHeap.UserHeap.Free` | usr/libc/malloc.c:72-90 | merge-then-clear over bytes refines releasing the block; payloads untouched |
| `FreeAreas.TakenEffect` | kern/mm.c:56-65 | taking a page removes exactly the lowest free page and keeps the areas ascending, aligned and apart |
| `FreeAreas.GivenExact` | kern/mm.c:98-126 | releasing a page adds exactly its addresses, with the list still ascending and apart, if and only if the words read through the list head do not look like an area ending there |
| `FreeAreas.GetKeepsInv` | kern/mm.c:56-65 | every page below the one handed out is already out |
| `FreeAreas.SearchStopsInside` | kern/mm.c:99-102 | the search for the next area stops at a real area for every page that is out |
| `FreeAreas.ReleaseKeepsInv` | kern/mm.c:98-126 | releasing a page that is out succeeds and keeps free areas and handed-out pages complementary |
| `FreeAreas.RunInvariant` | kern/mm.c:37-129 | over every run that never hands out the last free page: ascending, non-touching, page-aligned areas whose union is the page heap minus the pages out |
| `FreeAreas.RunReleaseSucceeds` | kern/mm.c:99-126 | in every such run the corrupted-list branch is unreachable |
| `FreeAreas.LastPageExample` | kern/mm.c:99-126 | once the last page is out and the list is empty, zero words in front of the head lead a release to the corrupted-list branch |
| `FreeAreas.FreeList.constructor` | kern/mm.c:180-185 | one area covers the page heap |
| `FreeAreas.FreeList.Get` | kern/mm.c:56-65 | the field updates are Taken of the list, and the page is the lowest free one |
| `FreeAreas.FreeList.Release` | kern/mm.c:98-126 | search and the three-way splice are Given of the list; success exactly when Given releases |
| `FrameBitmap.BitAfter` | kern/mm.h:87-88 | setting or clearing one bit of a byte is exact and leaves the other seven |
| `FrameBitmap.FullByte` | kern/mm.c:21-23 | a byte differs from 0xFF if and only if one of its frames is free |
| `FrameBitmap.Bitmap.constructor` | kern/mm.c:141-154 | frame p is free after boot if and only if p >= 2048 and its group of eight ends at or below high_mem * 1024 modulo 2^32 |
| `FrameBitmap.Bitmap.GetFrame` | kern/mm.c:15-29 | the lowest free frame, marked; the failure value if and only if none is free |
| `FrameBitmap.Bitmap.SetFrame` | kern/mm.h:87 | adds exactly that frame to the used set |
| `FrameBitmap.Bitmap.ReleaseFrame` | kern/mm.h:88 | removes exactly that frame from the used set |
| `Paging.MirrorAddresses` | kern/mm.c:298-323 | the masked and shifted pde and pte addresses, and where in the mirror they lie, for every 32-bit address |
| `Paging.SelfMapping` | kern/mm.c:290-298 | under a self-mapped directory the two addresses translate, by the processor's walk, to exactly the directory and table entry of v |
| `Paging.GetPAddrIsWalk` | kern/mm.c:346-359 | get_p_addr agrees with the processor's translation on every address without a 4MB page |
| `Paging.RemoveUnmaps` | kern/mm.c:329-340 | pd_remove_page unmaps the page of v and changes no other page (the hypotheses on the directory are those of Translations.InvUnshared) |
| `Paging.WritePte` | kern/mm.c:266-268 | the store through the mirror changes exactly the table entry of v |
| `Paging.InstallTable` | kern/mm.c:303-321 | a new table is cleared from index 1 on and entered in the directory; nothing else changes |
| `Paging.AddMaps` | kern/mm.c:323-324 | adding a page maps it to p plus offset and changes no other page's translation (the hypotheses on the directory are those of Translations.InvUnshared) |
| `Paging.AddMapsNewTable` | kern/mm.c:303-324 | with a new table the same, except that the first page of the region becomes mapped if and only if the uncleared word has its present bit (the hypotheses on the directory are those of Translations.InvUnshared) |
| `Paging.AddGetRemove` | kern/mm.c:280-359 | get_p_addr after pd_add_page into an existing table returns p plus offset, and pd_remove_page gives back every translation |
| `Paging.AddGetRemoveNewTable` | kern/mm.c:280-359 | the same when a table had to be made: removal gives back every translation, but for the first page of the region, which shows what the frame of the table held |
| `MemoryModel.FramePartition` | kern/mm.c:15-29 | the frames in use are the disjoint union of boot frames, kernel heap, page heap, process pages and frames leaked by failed loads |
| `MemoryModel.KernelPagesDistinct` | kern/mm.c:68 | no frame is behind two kernel pages |
| `MemoryModel.UserPagesDistinct` | kern/interrupt.c:41-47 | no frame is on two page lists or twice on one, and each listed frame is marked used |
| `MemoryModel.KernelSpaceAgrees` | kern/mm.c:203-216 | every directory translates every kernel address the same way, through tables in boot frames |
| `MemoryModel.KernelPageWalk` | kern/mm.c:249-271 | a kernel page added under any directory is translated to its frame under all of them |
| `MemoryRuns.NextKeepsInv` | kern/mm.c:15-359 | each of the fifteen memory steps, user stores through the page tables among them, keeps bitmap, free list, page tables, process lists and user translations in agreement |
| `MemoryRuns.RunInvariant` | kern/mm.c:15-359 | they agree in every state of every run from boot; of all user stores, only those through an uncleared entry 0 that lead to a frame of the kernel (boot frames, kernel heap, kernel stacks, directories, tables) are not part of runs |
| `MemoryRuns.RunFramePartition` | kern/mm.c:15-29 | the partition of frames among their owners, leaked frames included, in every state of every run |
| `MemoryRuns.RunKernelSpaceAgrees` | kern/mm.c:151-271 | in every state of every run all directories have the kernel entries fixed at boot and agree on every kernel address and page |
| `MemoryRuns.RunIsolation` | kern/mm.c:303-324 | in every run a user address that is translated leads to the frame on its own process's page list for that page if and only if it does not go through an entry 0 unwritten since its table was made; and then that frame is no directory or table |
| `MemoryRuns.RunKernelProtected` | kern/mm.c:156-164 | in every reachable state the entries of a running process outside user space are present and without the user bit, so that a program faults on every kernel and mirror address, and the first 8 MB lie at their own addresses |
| `UserTables.UserAddressExact` | kern/mm.c:303-324 | the same for every state that satisfies the invariants |
| `UserTables.ListedDoesNotFault` | kern/interrupt.c:41-47 | a page on the list of a running process is present, writable and accessible, so no page is listed twice |
| `StaleEntry.ForeignDirectoryRun` | kern/mm.c:310-316 | from every boot state with a dozen free frames, the first word of the seventh not looking like a user entry, there is a run after which an address of one process leads into the page directory of another, where a stored zero breaks the invariant |
| `StaleEntry.KernelHeapRun` | kern/mm.c:310-316 | from the same boot states there is a run after which such an address leads into the kernel heap, which holds the free list and the page lists |
| `Translations.InvUnshared` | kern/mm.c:203-216 | in every state that satisfies the invariant, for every directory: it maps itself once, and no two of its entries lead to the same table |
| `Translations.SetPteKeepsOthers` | kern/mm.c:323-324 | writing the entry of a page maps it and leaves every other user address, under every directory, where it led |
| `Translations.NewTableKeepsOthers` | kern/mm.c:303-324 | the same when a table is made first, its entry 0 apart |
| `Translations.SetPteUndone` | kern/mm.c:329-359 | in every such state get_p_addr finds the page and pd_remove_page restores every translation |
| `Translations.ReleaseKeepsOthers` | kern/mm.c:86-96 | removing a kernel page under one directory unmaps it under all of them and changes no other translation |
| `MemoryRuns.Conservation` | kern/syscalls/sys_exit.c:27-84 | between two states without process pid, with only its steps and heap growth between, the free pages are the same and the frames gained are kernel heap or leaked |
| `MemoryRuns.AbandonLeaks` | kern/process.c:82-90 | a failed load leaks exactly the frames on its page list |
| `MemoryRuns.ProcessConserves` | kern/syscalls/sys_exit.c:27-84 | over any stretch of a run made of the steps of one process and heap growth, from before it exists until after, the free pages are restored, and so are the frames outside the kernel heap if and only if no load of it failed with pages on its list |
| `MemoryRuns.RunGone` | kern/syscalls/sys_exit.c:27-84 | in every run, however processes are interleaved, a process that does not exist owns no frame and no page |
| `MemoryRuns.RunLeaked` | kern/process.c:82-90 | in every run, however processes are interleaved, the leaked frames are exactly those on the page lists of the loads that failed |
| `MemoryRuns.RunAllGone` | kern/syscalls/sys_exit.c:27-84 | in every run, once all processes are gone every page is free and only boot, kernel-heap and lost frames are in use |
| `HeapWindow.HeapStore` | kern/kmalloc.c:18-39 | a store of the kernel to a heap address under any directory, read back under any directory, changes exactly that word |
| `HeapWindow.RunHeapWindow` | kern/mm.c:249-271 | in every run no step but a store of the kernel itself changes a word of the kernel heap, whichever directories are loaded before and after |
| `HeapWindow.RunShows` | kern/mm.c:249-271 | the bytes that KernelHeap works on are what every directory shows, between stores of the kernel |
| `HeapWindow.ByteStore` | kern/kmalloc.c:86-96 | a byte store of KernelHeap is a memory step after which every directory shows exactly that change |
| `Memory.FillDirectory` | kern/mm.c:207-216 | entries 0..255 are those of pd0, the user entries are zero and the directory maps itself; no other frame changes |
| `Memory.Kernel.constructor` | kern/mm.c:135-188 | init_mm, ksbrk(1) included: the state is one heap growth away from a boot state and satisfies the memory invariants; frame p is free if and only if p > 2048 and its group of eight ends within the high_mem kilobytes |
| `Memory.Kernel.Ksbrk` | kern/kmalloc.c:20-33 | n frames become kernel heap pages, mapped under all directories |
| `Memory.Kernel.GetPageFromHeap` | kern/mm.c:37-78 | the lowest free frame and the lowest free page, mapped and owned by the process; no mapped kernel page and no user table changes |
| `Memory.Kernel.PdCreate` | kern/mm.c:193-223 | a directory page that agrees with pd0 on kernel space, and no user entry |
| `Memory.Kernel.AddUserPage` | kern/mm.c:280-327 | every address of the page leads into its frame; all other user addresses under every directory lead where they led, entry 0 of a new table apart; at most one new table, on the directory's list |
| `Memory.Kernel.PageFault` | kern/interrupt.c:41-47 | after the fault the access is allowed and the address leads into the lowest free frame, now first on the page list; all other user addresses under every directory lead where they led, entry 0 of a new table apart; mapped kernel pages stay |
| `Memory.Kernel.StoreWord` | kern/interrupt.c:41-47 | a word stored at a user address goes to the page on the list for it exactly if not through an uncleared entry 0, and keeps the invariants, unless it goes through such an entry into a frame of the kernel |
| `Memory.Kernel.ReleasePageFromHeap` | kern/mm.c:80-129 | the page, its frame and its mapping are given back; all structures still agree |
| `Memory.Kernel.ReleaseUserFrames` | kern/syscalls/sys_exit.c:36-41 | empties the page list, freeing each frame exactly once |
| `Memory.Kernel.PdDestroy` | kern/mm.c:225-243 | releases every table and the directory |
| `Memory.Kernel.ExitMemory` | kern/syscalls/sys_exit.c:35-84 | nothing of the process is left, everything else unchanged but for heap growth |
| `Memory.Kernel.LoadMemory` | kern/process.c:59-135 | when load_elf succeeds: directory, demand-paged image and stack, kernel stack, with all structures in agreement |
| `Memory.Kernel.FailedLoad` | kern/process.c:59-90 | when load_elf fails: pages and directory are released and exactly the frames on the page list stay marked, so memory is conserved if and only if load_elf touched no user page |
| `Memory.Kernel.Life` | kern/process.c:59-157 | load, any number of accesses, exit: the free pages are restored and so is the bitmap outside the kernel heap |
| `Ext2.BlRead` | kern/disk.c:6-38 | the buffer holds the sectors, byte by byte, for every count the 8-bit register can express |
| `Ext2.DiskRead` | kern/disk.c:75-92 | any byte range of up to 254 sectors, whatever its alignment, is delivered exactly |
| `Ext2.CopyEntries` | kern/ext2.c:151-213 | the nested loops copy the leaves below the entries in order, cut at the size of the file |
| `Ext2.ReadFile` | kern/ext2.c:134-221 | the buffer has i_size bytes and starts with the data of the visited blocks, cut at the size; for a file without holes byte r of block k is the byte of the image at s_lba * 512 + number * bs + r, number being that of block k |
| `Ext2.TableEntry` | kern/ext2.c:163-166 | entry i of an indirect table is the little-endian word at byte 4 * i of its block, byte by byte from the image |
| `Ext2.FirstNumbers` | kern/ext2.c:152-173 | how many blocks a file can have; the first twelve numbers are those of the inode, the next are the entries of the table in i_block[12], in order |
| `Ext2.DoubleNumber` | kern/ext2.c:176-192 | block 12 + n + n * i + j is entry j of the table that entry i of the table in i_block[13] names |
| `Ext2.TripleNumber` | kern/ext2.c:195-213 | the same through three tables, for block 12 + n + n * n + n * n * h + n * i + j |
| `Ext2.ReadByteIs` | kern/ext2.c:134-221 | for a file without holes byte o = k * bs + r of what is read is byte r of block number k on the image |
| `Ext2.LeavesAreLookups` | kern/ext2.c:161-213 | walk order is index order: leaf k of the nested loops is the block that division and remainder by powers of the table size give |
| `Ext2.VisitedIsBlockNumber` | kern/ext2.c:151-213 | block k visited is the direct, single, double or triple indirect block number k, if none up to k is a hole |
| `Ext2.ReadIsRandomAccess` | kern/ext2.c:134-221 | for a file without holes byte o = k * bs + r is byte r of block number k by index arithmetic |
| `Ext2.RandomAccessExact` | kern/ext2.c:134-221 | every block of the file is copied at its place if and only if the file has no hole |
| `Ext2.HoleShiftsExample` | kern/ext2.c:152 | a file of 13 blocks with a hole in block 1: the bytes copied there come from the first block of the indirect table |
| `Files.ScanOk` | kern/file.c:146-182 | the scan keeps names unique, parents and lists consistent, and every existing node |
| `Files.EntryLayout` | kern/ext2.h:107-113 | a directory entry byte by byte: inode in bytes 0 to 3, record length in 4 and 5, name length in 6, name from 8 on; inode 0 ends the list |
| `Files.EntriesEncoded` | kern/file.c:150-191 | parsing a directory file gives back the entries it was written from, for all inodes, names, types and fillings of the records |
| `Files.IsDirMask` | kern/file.c:79-85 | the directory test is bit 14 of the mode |
| `Files.CacheAgrees` | kern/file.c:109-194 | for every name, what a lookup gives after the scan in terms of the cache before and the directory file |
| `Files.LookupIsDisk` | kern/file.c:91-194 | in a faithful cache a lookup succeeds if and only if the directory file has the name ("." and ".." apart), with the inode of its first entry |
| `Files.FilledTwice` | kern/file.c:109-194 | repeating get_dir_entries adds nothing |
| `Files.ResolveIsFollow` | kern/file.c:200-260 | path_to_file goes where following the names on the disk alone leads, whatever is cached |
| `Files.SplitJoined` | kern/file.c:219-256 | the component parser undoes the printer for every list of plain names |
| `Files.ComponentsJoin` | kern/file.c:219-256 | the components of two paths joined by a slash are those of the one and those of the other, for all byte strings |
| `Files.OneComponent` | kern/file.c:219-256 | a path without a slash has itself as its one component, or none if it is empty |
| `Files.ResolveAppend` | kern/file.c:225-257 | resolving a longer path is resolving its parts one after the other |
| `Files.DotLaws` | kern/file.c:239-251 | "." stays, and ".." undoes a step down to a directory |
| `Files.PwdRoundTrip` | kern/syscalls/syscalls.c:155-188 | for every cached node the printed path is absolute, has only plain components, and leads back to the node |
| `Files.RunFaithful` | kern/file.c:55-260 | after every run of lookups, chdirs and spawns each cached file is the one its directory names |
| `Files.RunResolvesOnDisk` | kern/file.c:200-260 | after every run a path leads each process exactly where the disk says, from the root inode if it begins with a slash and from the trail of the working directory of the process otherwise |
| `Files.RunRelativePath` | kern/file.c:207-211 | after every run a relative path leads a process where the printed path of its working directory, a slash and that path lead any process |
| `Files.RunRoot` | kern/file.c:55-73 | after every run node 0 is the root inode |
| `Files.SpawnInherits` | kern/process.c:181 | a new process starts in the working directory of the one that loads it, and nobody else moves |
| `Files.RunPwdRoundTrip` | kern/syscalls/syscalls.c:126-188 | after every run what sys_pwd prints for one process leads any process back there, also through sys_chdir |
| `DiskImage.ReadDirectory` | kern/ext2.c:134-221 | what ext2_read_file delivers for a directory from a disk image is what index arithmetic gives and what the cache is specified over |
| `DiskImage.RunResolvesOnImage` | kern/file.c:200-260 | after every run on what the code reads from the drive, a path leads each process where following it on the disk image, by index arithmetic, leads, from the root inode or from the trail of its working directory |
| `FileTree.FileTree.constructor` | kern/file.c:55-73 | init_root: the root and its entries |
| `FileTree.FileTree.IsCachedLeaf` | kern/file.c:91-103 | finds the first leaf of that name, and one if and only if there is one |
| `FileTree.FileTree.GetDirEntries` | kern/file.c:109-194 | the byte walk over a directory file, with its look at the word behind the buffer, is the scan of its entries; -1 exactly for a file that is no directory |
| `FileTree.FileTree.PathToFile` | kern/file.c:200-260 | the two-pointer loop is resolving the components, from the root for a path that begins with a slash and from the working directory of the process otherwise, with the same cache afterwards |
| `FileTree.FileTree.SysChdir` | kern/syscalls/syscalls.c:126-152 | 0, -1 or -2 as the path leads to a directory, nowhere or to another file; only for 0 does the working directory change, that of this process to the file found |
| `FileTree.PwdSteps` | kern/syscalls/syscalls.c:162-188 | the root is printed as a slash, any other node as the path of its parent, a slash and its name |
| `FileTree.FileTree.SysPwd` | kern/syscalls/syscalls.c:155-188 | user memory from the given address on holds the printed path and its terminator, and no other byte changes |
| `Process.ExecKeepsInv` | kern/process.c:36-46 | a load, successful or failed, keeps the process tree, the pending signals and n_proc in agreement |
| `Process.ExecExact` | kern/process.c:36-205 | a load takes the lowest free slot, which becomes live, without children and signals, with the caller as parent and first on the list of the caller; no other slot changes; a failed load changes only n_proc |
| `Process.ExitKeepsInv` | kern/syscalls/sys_exit.c:23-70 | sys_exit with reparenting does |
| `Process.ExitExact` | kern/syscalls/sys_exit.c:23-70 | an exit makes a zombie with that status; its live parent still lists it and gets SIGCHLD; its children go in front of the list of process 0, the last one first; nothing else changes |
| `Process.ReapFinds` | kern/syscalls/sys_wait.c:16-34 | whoever has left the spin of sys_wait has a zombie child |
| `Process.ReapKeepsInv` | kern/syscalls/sys_wait.c:24-34 | reaping keeps the agreement |
| `Process.ReapExact` | kern/syscalls/sys_wait.c:21-38 | waiting takes the first zombie off the list of the waiting process, frees its slot and clears SIGCHLD; nothing else changes |
| `Process.RunInvariant` | kern/process.c:38-205 | tree, pending SIGCHLDs, 32-bit masks and n_proc (live processes plus failed loads) agree in every state of every run of exec, exit, wait, delivery, and kill with any number that does not raise the SIGCHLD bit |
| `Process.RunExec` | kern/process.c:185-195 | in every run a successful load by cur makes one free slot a live child of cur, first on its list, and changes no other slot |
| `Process.ExecExitWait` | kern/syscalls/sys_wait.c:13-38 | load, exit of that program, wait: the wait finds exactly that program with its status, and leaves the table as before the load but for its slot and the SIGCHLD bit and wait of the parent |
| `Process.RunReapFinds` | kern/syscalls/sys_wait.c:16-38 | in every run, once a process has left the spin of sys_wait it finds a zombie child, whose slot becomes free |
| `Process.RunParentIsLive` | kern/syscalls/sys_exit.c:59-62 | in every run the parent of a process that is not free is live and lists it, and n_proc is the number of live pids above 0 plus the failed loads |
| `Process.ParentIsLive` | kern/syscalls/sys_exit.c:59-62 | the parent of a process that is not free is live, so the "without valid parent" branch is unreachable |
| `Process.OnExactlyOneList` | kern/process.c:190-198 | a process that is not free is on its parent's list, once, and on no other |
| `Process.SlotBounds` | kern/process.c:38-43 | the slot search runs past the table if and only if every slot is taken |
| `Signals.DequeueSignal` | kern/signal.c:7-22 | the lowest pending signal, 0 if and only if none; terminates for every 32-bit mask |
| `Signals.PendingIs` | kern/signal.h:22 | signal s is pending if and only if mask / 2^(s - 1) is odd |
| `Signals.SetExact` | kern/signal.h:20 | for n from 1 to 32 and every k, set_signal with n + 32 * k makes exactly n pending beside those that were |
| `Signals.ClearExact` | kern/signal.h:21 | clear_signal takes away exactly that signal |
| `Signals.ClearUndoesSet` | kern/signal.h:20-21 | clearing a signal that was not pending undoes setting it, bit for bit |
| `Signals.SentIsNext` | kern/signal.c:7-22 | a signal sent is the next one dequeued, unless a lower one is pending |
| `Signals.SentAlone` | kern/signal.c:7-22 | sent to a process with an empty mask, n + 32 * k is dequeued as n |
| `Signals.MaskAfter` | kern/signal.c:24-94 | delivering a signal clears exactly its bit, SIGCHLD excepted, which is cleared only when ignored |
| `Signals.ChildBit` | kern/syscalls/syscalls.c:226-227 | a number raises the SIGCHLD bit if and only if it is 17 modulo 32, the shift count being taken modulo 32 |
| `Process.KillChildExact` | kern/syscalls/syscalls.c:226-227 | a kill with any number that raises the SIGCHLD bit keeps reaping safe if and only if the target is not live or already has a zombie child |
| `Process.KillChildRun` | kern/syscalls/syscalls.c:226-227 | for every such number a run in which the target leaves the spin of sys_wait and finds no dead child |
| `Process.ProcessTable.LoadTask` | kern/process.c:36-205 | the lowest free slot becomes a live child of the caller, first on its list, and no other slot changes; after a failure only n_proc does |
| `Process.ProcessTable.SysExit` | kern/syscalls/sys_exit.c:23-70 | state, status, the signal to the parent and the reparenting loop, slot by slot; the invariant is kept |
| `Process.ProcessTable.SysWait` | kern/syscalls/sys_wait.c:21-38 | returns pid and status of the first dead child, takes it off the list, frees its slot and clears SIGCHLD; no other slot changes |
| `Process.ProcessTable.SysKill` | kern/syscalls/syscalls.c:216-232 | for every number makes exactly the signal of that number modulo 32 pending beside those that were and returns 0, if the target is live; -1 and no change otherwise; the invariant is kept unless the signal is SIGCHLD |
| `Process.ProcessTable.DeliverSignal` | kern/schedule.c:24-26 | the lowest pending signal is delivered: exit with status 1 for 1 to 3 by default, otherwise exactly its bit is cleared, SIGCHLD staying unless ignored; nothing without a pending signal |
| `Schedule.Choose` | kern/schedule.c:132-146 | the early returns and the two loops pick the next ready pid around the ring, or 0 |
| `Schedule.NextIsSuccessor` | kern/schedule.c:132-146 | with several ready pids the choice is the successor of the current one in ascending order, around the end |
| `Schedule.RoundRobinFair` | kern/schedule.c:86-146 | k calls run each of the k ready pids exactly once if and only if the early return agrees with k (k = 1 exactly when n_proc is at most 1) |
| `Fairness.RunFair` | kern/schedule.c:86-146 | in every reachable state of the process table fairness holds if and only if two pids below 32 are ready, or no load has failed and pid 32 is not live |
| `Fairness.FailedLoadUnfair` | kern/process.c:45-90 | after one load and one failed load the only ready process loses the processor to process 0 |
| `Schedule.FromZeroLeast` | kern/schedule.c:132-138 | from process 0 the least ready pid is chosen |
| `UserStack.ProgramSeesArguments` | kern/process.c:96-132 | main reads back argc, every argument byte for byte, and a null pointer after the last |
| `UserStack.StringsDisjoint` | kern/process.c:103-107 | the argument strings never overlap and stay below the top 16 bytes |
| `UserStack.StackExact` | kern/process.c:96-125 | the first string ends 16 bytes below the end of the stack, each next one right below the one before, the pointers at the multiple of 16 at or below the last; without arguments the stack pointer is those 16 bytes below the end |
| `UserStack.Stack.Build` | kern/process.c:96-132 | argc at sp + 4, sp + 12 at sp + 8, pointers from sp + 12 on with a null after them, intact strings above; bytes outside untouched; no argument leaves memory alone |
| `Numbers.PrintedMeans` | kern/lib.c:44-64 | the digits of itoa mean the number, in every base from 2 to 36 |
| `Numbers.PrintedLeads` | kern/lib.c:44-64 | no leading zero, except for 0 itself |
| `Numbers.PrintedDigits` | kern/lib.c:44-64 | only 0 to 9 and a to z are printed, each below the base |
| `Numbers.Itoa` | kern/lib.c:44-64 | fill-and-reverse leaves the digits and the terminator, and changes nothing beyond |
| `Numbers.Atoi` | usr/libc/libc.c:62-81 | the number at the start of the string, with its sign, as a 32-bit int that wraps |
| `Numbers.Pad` | usr/libc/libc.c:141-144 | the in-place shift leaves zeros, the digits and the terminator |
| `Numbers.NumberRoundTrip` | usr/libc/libc.c:62-102 | atoi undoes itoa, padded or not, with or without a minus sign |
| `Lists.InitListHead` | kern/list.h:15-19 | an empty ring |
| `Lists.EmptyRing` | kern/list.h:37-40 | list_empty holds if and only if the ring has no member |
| `Lists.ListAdd` | kern/list.h:21-27 | the new node becomes the first member, the rest keep their order |
| `Lists.ListDel` | kern/list.h:29-35 | exactly that member leaves, the rest keep their order, its links are cleared |
| `Lists.Drain` | kern/list.h:51-52 | deleting every member during the safe traversal leaves an empty ring |

## Left out

- Assembly, register save and restore, `cr3` and TLB effects, descriptor tables, PIC and port I/O: hardware.
- Signal frames and `sys_sigreturn`: where the frame is read depends on the assembly; only the effect of
  `handle_signal` on the pending mask is modelled, with the kind of handler as a parameter of the step.
- The write path (`bl_write`, `disk_write`, `ext2_create_inode`, `add_file`): unfinished in the source.
- `sys_open`, `sys_close` and the descriptor list freed by `sys_exit`: closing frees a buffer other openers
  still use, so there is no sharing invariant to state.
- Console locking, screen, keyboard, `printk`, `sprintf` as a whole (only number printing and padding), FAT.
- `load_elf`: a step that succeeds or fails. `ext2_read_inode` and the superblock: plain offset arithmetic.
- User programs and system-call stubs.
- Memory.Kernel.PageFault: the branch for addresses outside user space is `sys_exit`, modelled as ExitMemory.
- MemoryRuns.RunInvariant: a store through an uncleared entry 0 that leads to a frame of the kernel ends what can be
  said about the machine (`StaleEntry.ForeignDirectoryRun`, `StaleEntry.KernelHeapRun`), so runs stop before it.
- Memory.Kernel.FailedLoad: with `argc` 0 the source frees an uninitialised `param` (`kern/process.c:83-85`), which is
  not modelled; with arguments their copies in the kernel heap are freed.
- KernelHeap.KernelHeap.Ksbrk: sums that wrap are excluded; they pass the test of the source
  (`KernelHeap.KsbrkGuardExact`) and would map pages past the window.
- Process.ProcessTable.SysKill: a pid outside the table makes the source read past it; `sigfn` has no entry for
  signal 32, which `handle_signal` would read.
- Accessed and dirty bits, which the processor sets in entries, and stale TLB entries.
- Lists in `FreeAreas`, `Memory`, `Files` and `Process` are sequences; `Lists` proves the pointer operations
  once, and the link between the two is not repeated for each list.
- The lists and structures that live in the kernel heap are modelled as values beside it; `HeapWindow` ties the bytes
  of the heap to frames and page tables, not the fields of those structures to bytes.
- KernelHeap.KernelHeap.Kmalloc: the panic branches for null and out-of-range chunks are absent, being
  unreachable from every valid state.
- FileTree.FileTree.SysPwd: user memory is required to reach as far as the path; the source checks nothing.
- Numbers.Atoi: overflow wraps as the processor does; C leaves it undefined.
- UserHeap.UserHeap.Malloc: requests whose rounded size is 0 are excluded; `UserHeap.AllocExact` shows that every one
  of them makes a block of no size, at which later searches do not advance.
- UserStack.Stack.Build: the arguments and pointers are required to fit above the lowest stack address given;
  the temporary copies in the kernel heap are not modelled.
- Process.RunInvariant: kills that raise the SIGCHLD bit are excluded from runs (`Process.KillChildExact` gives their
  exact effect), as is the exit of process 0. That every zombie is eventually reaped, and fairness across exits,
  are not properties of the code.
