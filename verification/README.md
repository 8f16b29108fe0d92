# ORE-UNIX in Dafny

A model of the core of the ORE-UNIX i386 kernel and proofs about it. Each component is modelled twice where it changes
state: as a value with steps, about which the properties of whole runs are proved, and as a class or a method over a
class that works in place, as the C code does, and is proved to take exactly those steps.

* **Frames** (`Pmm.dfy`). The bitmap allocator over 262144 pages, its bits kept in 32-bit words. Its abstract value is
  the set of free pages.
* **Page tables and address spaces** (`PageTables.dfy`, `AddressSpaces.dfy`, `Access.dfy`, `Cloning.dfy`, `CloneCount.dfy`,
  `Vmm.dfy`, `Ranges.dfy`, `Mm.dfy`, `Brk.dfy`, `BrkFrames.dfy`, `MmStruct.dfy`). Physical memory is a map from frames to
  pages of 1024 words; page directories and tables are such pages. Every frame has at most one *role* (directory, table behind a
  PDE, user page), and no frame with a role is free. Above that are clone, destroy, mmap, munmap, brk and the
  demand-paging fault.
* **Kernel heap and slabs** (`HeapBlocks.dfy`, `HeapMem.dfy`, `Heap.dfy`, `SlabSpec.dfy`, `SlabWorld.dfy`, `Slab.dfy`).
  Block headers lie in word-addressed memory and represent a sequence of blocks that tiles the heap. Slabs lie in heap
  blocks.
* **Scheduler** (`SchedSpec.dfy`, `Sched.dfy`). Run queue, wait queues and time slices.
* **Files and pipes** (`FilesSpec.dfy`, `Files.dfy`, `Pipe.dfy`). Descriptor tables and reference counts as atomic steps;
  the pipe as a machine over its critical sections, with any number of calls in progress.
* **Paths** (`PathSpec.dfy`, `Paths.dfy`). `vfs_lookup` as a fold over components; `sys_getcwd` as its inverse.
* **Executables and disks** (`ElfImage.dfy`, `UserBytes.dfy`, `Elf.dfy`, `Ata.dfy`). The segment loader works on the page
  tables above; the ATA file operations work on 512-byte sectors.

Allocation of small records, opening of paths, the memory map and failing disk sectors are parameters. Regions under a
spin lock are single steps.

## Where the code does not do what it seems to

Each of these is modelled as the code has it, with an input that shows it and the condition under which it behaves.

* `kmalloc` says next-fit; it scans from the start of the heap, so it is first-fit (`HeapBlocks.FirstFit`).
* `mm_mmap`, the fault handler and the segment loader ignore the result of `map_page`. When exactly one frame is missing
  and the last page is the first to need its table they report success although that page is not mapped
  (`Mm.MapRange`; `Mm.UnnoticedHappens` gives a machine).
* The free-page count is exact after `pmm_init` if and only if the available regions do not overlap
  (`Pmm.Allocator.Init`, `Pmm.CountExactIffNoOverlap`). `pmm_free` of an address inside page 0 makes page 0 free
  (`Pmm.Allocator.Release`).
* A `pgdir_clone` that runs out of frames loses those it took for the table it was filling. It gives every frame back if
  and only if there was none to take, or the free frames ran out exactly before the table of some present PDE
  (`CloneCount.RestoredIff`, `Vmm.Paging.PgdirClone`; `CloneCount.LosingClone` gives a machine that loses one).
* `heap_sbrk` compares a 32-bit sum: its bound check is exact if and only if the sum does not wrap
  (`Heap.KernelHeap.Sbrk`).
* A task that sleeps with nobody else to run stays current although it sleeps; the queue invariant survives `sleep_on` if
  and only if somebody else is runnable (`Scheduling.Scheduler.SleepOn`, `SchedSpec.SleepAlone`).
* `ata_file_write` goes on when the read before a partial write fails. The neighbouring bytes survive that, whatever is on
  the stack, if and only if the chunk is the whole sector (`Ata.NeighboursKeptIff`). A transfer that stops early reports
  the bytes moved but leaves the position where it was (`Ata.Drive.FileRead`, `Ata.Drive.FileWrite`).
* `vfs_lookup` has no limit on nested symbolic links. In a tree every lookup ends if and only if every link resolves within
  as many levels as there are dentries (`PathSpec.AllEndIff`); `PathSpec.LoopNeverEnds` gives a tree and a path on which
  none does.

## Model

| member | source | states |
|---|---|---|
| `Base.ErrorNumbers` | kernel/kernel.h:51-76 | the error numbers programs see |
| `Bits.SetBitSpec` | mm/pmm.c:21 | setting bit i of a word changes bit i and no other, for every word and bit |
| `Bits.ClrBitSpec` | mm/pmm.c:22 | clearing bit i of a word changes bit i and no other |
| `Bits.Ctz` | mm/pmm.c:117 | the index of the lowest set bit: that bit is set and no lower one is |
| `Pmm.CountExactIffNoOverlap` | mm/pmm.c:54-84 | the pages counted over all regions are at least the pages in their union, and equal to it if and only if no two regions share a page |
| `Pmm.Allocator.AddRegion` | mm/pmm.c:60-73 | a region adds exactly the whole pages inside it and counts each once |
| `Pmm.Allocator.Init` | mm/pmm.c:49-96 | the free set is the available pages minus everything up to 16 pages past the kernel image; page 0 is never free; count equals free set if and only if the regions do not overlap |
| `Pmm.Allocator.MarkUsed` | mm/pmm.c:98-108 | takes exactly the pages meeting the range out of the free set and keeps the count in step |
| `Pmm.Allocator.Alloc` | mm/pmm.c:110-127 | the lowest free page, taken out of the free set; 0 if and only if none is free, and then nothing changes |
| `Pmm.Allocator.FirstFree` | mm/pmm.c:114-123 | the word scan finds the least free page, or that there is none |
| `Pmm.Allocator.Release` | mm/pmm.c:135-145 | adds the page to the free set once; address 0 and addresses past the map are ignored; page 0 stays used if and only if the address is not inside it |
| `Pmm.Allocator.AllocContiguous` | mm/pmm.c:147-168 | the lowest run of n free pages; 0 if and only if n is 0 or no such run exists |
| `Pmm.Allocator.ReleaseContiguous` | mm/pmm.c:170-172 | for any address and count, wrapping included, frees exactly the pages its calls of pmm_free accept; sound if and only if page 0 is not among them |
| `Pmm.FreedRun` | mm/pmm.c:170-172 | for an aligned run above page 0 these are exactly the run's pages |
| `Pmm.Allocator.ContiguousRoundTrip` | mm/pmm.c:147-172 | allocating a run and freeing it restores free set and count |
| `PageTables.LinkTable` | mm/vmm.c:13-28 | linking a frame nobody owns as a table gives exactly the roles its entries name, keeps every other role and the ownership invariant |
| `PageTables.ViewAfterTable` | mm/vmm.c:13-28 | creating a missing table changes no translation of any directory |
| `PageTables.StorePte` | mm/vmm.c:30-58 | writing one PTE changes one role, and keeps the invariant when the frame is nobody's or the entry is empty |
| `PageTables.ViewFromRoles` | mm/vmm.c:30-58 | one changed PTE is one changed key of one directory's map from pages to entries |
| `PageTables.OwnedSize` | mm/vmm.c:94-148 | a directory owns exactly one frame plus one per table plus one per page |
| `AddressSpaces.OwnershipInEveryRun` | mm/vmm.c:13-148 | over every run of create, table creation, map, unmap, write, failed and successful clone, destroy: two different uses never share a frame, and no frame in use is free |
| `AddressSpaces.MapKeeps` | mm/vmm.c:30-42 | mapping a fresh frame updates one key and no other translation, keeping ownership |
| `AddressSpaces.UnmapKeeps` | mm/vmm.c:52-58 | unmapping removes one key and changes no other translation |
| `AddressSpaces.NoLeakIff` | mm/vmm.c:13-148 | a step loses track of a frame if and only if it maps over a mapped page or is a failed clone that took frames |
| `AddressSpaces.LeakFreeRun` | mm/vmm.c:13-148 | a run without such a step accounts for the same frames at its end as at its start |
| `AddressSpaces.CloneIsACopy` | mm/vmm.c:106-134 | the clone maps the same pages with the same flag bits and the same contents |
| `AddressSpaces.CloneCost` | mm/vmm.c:106-134 | the source is unchanged, the frames are disjoint from it, and exactly 1 + tables + pages frames are used |
| `AddressSpaces.CloneThenDestroy` | mm/vmm.c:106-148 | destroying the clone restores the free set and every other translation exactly |
| `Access.NewTableOpen` | mm/vmm.c:17-21 | a new table is linked with the low three bits of its PDE set, and every other PDE keeps them |
| `Access.AccessInEveryRun` | mm/vmm.c:13-148 | over every run each present user PDE has PRESENT, WRITE and USER, so a page is the user's, or writable, under the AND of both entries exactly when its own entry says so |
| `CloneCount.CostOfTable` | mm/vmm.c:106-134 | copying the table behind a present PDE takes one frame and one for each of its entries |
| `CloneCount.StuckCost` | mm/vmm.c:106-134 | a clone that gets stuck at PDE d had enough frames for everything below d and not for d, and the frames not yet linked are exactly the surplus |
| `CloneCount.Abandon` | mm/vmm.c:115-128 | destroying the partial copy gives back exactly all frames but those not yet linked |
| `CloneCount.RestoredIff` | mm/vmm.c:106-134 | a failed clone restores the free set if and only if it was empty or ran out exactly before the table of some present PDE |
| `CloneCount.LosingClone` | mm/vmm.c:115-128 | a directory with one page and two free frames: its clone fails and loses a frame |
| `Vmm.ReachKeepsInv` | mm/vmm.c:13-272 | whatever a sequence of the operations below leads to keeps the ownership invariant |
| `Vmm.FlagsGrant` | mm/vmm.c:34-39 | VM_USER (8) opens a page to user mode and VM_WRITE (2) to writes, and nothing else does |
| `Vmm.Paging.AllocZero` | mm/pmm.c:129-133 | a free frame, zeroed, or 0 and no change if and only if none is free |
| `Vmm.Paging.GetPte` | mm/vmm.c:13-28 | finds the table, or makes one when asked and a frame is free, linked as its address plus 7; changes no translation |
| `Vmm.Paging.MapPage` | mm/vmm.c:30-42 | one key of one directory; the page is the user's, or writable, exactly by bits 8 and 2 of the flags; fails, changing nothing, if and only if the table is missing and no frame is free |
| `Vmm.Paging.UnmapPage` | mm/vmm.c:52-58 | removes one key; every other page and directory translates as before |
| `Vmm.Paging.VirtToPhys` | mm/vmm.c:64-68 | the walk computes the map: 0 if and only if the page is not mapped, otherwise frame and offset |
| `Vmm.Paging.PgdirCreate` | mm/vmm.c:94-103 | a directory with an empty user half and the kernel's entries 768 to 1023 |
| `Vmm.Paging.PgdirClone` | mm/vmm.c:106-134 | a clone, with the kernel's half, if and only if 1 + tables + pages frames are free; otherwise no translation changes, the number of frames lost is exact, and none is lost if and only if the condition above holds |
| `Vmm.Paging.PgdirDestroy` | mm/vmm.c:136-148 | releases exactly the frames the directory owns; the kernel directory and 0 are left alone |
| `Mm.MapZeroed` | mm/vmm.c:223-230 | one zeroed page mapped, or ENOMEM, or the unnoticed case, by the number of free frames |
| `Mm.MapRange` | mm/vmm.c:220-230 | the whole range is mapped to zeroed frames if and only if enough frames are free for its pages and missing tables; otherwise ENOMEM except in the unnoticed case, with the pages that fitted mapped, no frame free and at most one lost |
| `Mm.UnnoticedHappens` | mm/vmm.c:223-230 | a sound machine on which the unnoticed case happens |
| `Mm.UnmapRange` | mm/vmm.c:238-245 | exactly the mapped pages of the range are unmapped and their frames freed |
| `Brk.HeapInEveryRun` | mm/vmm.c:220-272 | over every run of brk and address-0 mmap, the pages outside the program are exactly those from start_brk to brk, and brk stays aligned |
| `Brk.NothingDisplaced` | mm/vmm.c:258-272 | in a run of brk and address-0 mmap neither growing the break nor mmap maps over a mapped page |
| `BrkFrames.CallKeepsFrames` | mm/vmm.c:220-272 | such a call leaves every frame accounted for |
| `BrkFrames.FramesInEveryRun` | mm/vmm.c:220-272 | no frame leaks in any run of brk and address-0 mmap |
| `Brk.ResultsApart` | kernel/syscall.c:496-512 | two results of address-0 mmap, as the 32-bit addresses returned, are at least the first length apart as long as the break does not shrink between them |
| `Brk.Signed` | kernel/syscall.c:492-510 | the value returned is the address modulo 2^32, as a signed 32-bit number |
| `Brk.ReportedIsNew` | kernel/syscall.c:504-510 | exactly the pages from the address that address-0 mmap returns are mapped by it |
| `Brk.ReportedIsEnd` | kernel/syscall.c:488-493 | the address brk returns is the end of the heap's pages, and less than a page above what was asked for |
| `Brk.NoErrorAddress` | kernel/syscall.c:488-512 | no address of the user half is returned as a number that stands for an error |
| `Brk.AreaStays` | mm/vmm.c:246-253 | an area that munmap does not meet still is the first to answer for its addresses |
| `Brk.AreasInEveryRun` | mm/vmm.c:220-272 | over every run of brk, mmap and munmap every page of every remaining area is mapped |
| `MmStruct.AddressSpace.constructor` | mm/vmm.c:159-171 | no areas, and the break 64 MiB above the program base |
| `MmStruct.MmCreate` | mm/vmm.c:159-171 | a new empty address space if and only if a record and a frame for its directory are to be had; otherwise nothing changes |
| `MmStruct.MmapGrants` | mm/vmm.c:223-229 | what mmap maps is the user's, and writable exactly when VM_WRITE was asked for |
| `MmStruct.FaultGrants` | mm/vmm.c:295-302 | the page a fault brings in is the user's, and writable exactly when its area has VM_WRITE |
| `MmStruct.AddressSpace.Mmap` | mm/vmm.c:220-236 | succeeds exactly with an area record and enough frames, or in the unnoticed case; then the pages and the area are added |
| `MmStruct.AddressSpace.Munmap` | mm/vmm.c:238-256 | the range's pages go, and with them every area that meets it; no frame is lost |
| `MmStruct.AddressSpace.SetBreak` | mm/vmm.c:258-272 | EINVAL exactly below start_brk, ENOMEM exactly when the growth is not reported as mapped; otherwise break and pages move together, new pages user-writable under a read-write area; only frames mapped over are lost; a shortage leaves the pages that fitted |
| `MmStruct.AddressSpace.SysBrk` | kernel/syscall.c:488-494 | the exact result in every case, negative above -4096 exactly on failure; with memory, the specified step, user-writable pages and only frames mapped over lost |
| `MmStruct.AddressSpace.SysMmap` | kernel/syscall.c:496-512 | the exact result and areas in every case, negative above -4096 exactly on failure; with memory, the specified step, pages the user may touch, and only frames mapped over lost; with address 0 the break moves even when mapping fails |
| `MmStruct.AddressSpace.FindVma` | mm/vmm.c:274-280 | the first area holding the address, or none |
| `MmStruct.AddressSpace.UserFault` | mm/vmm.c:283-307 | handled if and only if an area allows it, the page was absent and a frame is free; then a zeroed page with that area's flags is mapped, and the access that faulted is allowed |
| `MmStruct.AddressSpace.Destroy` | mm/vmm.c:173-184 | releases everything the directory owns |
| `MmStruct.AddressSpace.Clone` | mm/vmm.c:186-208 | succeeds if and only if its record, the frames and the area records suffice; otherwise no translation changes, and frames are lost only as pgdir_clone loses them |
| `HeapBlocks.ExtentIsHeap` | mm/kmalloc.c:27-60 | the sum of header and payload sizes is the heap's extent |
| `HeapBlocks.FirstFit` | mm/kmalloc.c:66-79 | the first free block that is large enough; none before it is |
| `HeapBlocks.ReleasePairs` | mm/kmalloc.c:101-128 | freeing changes the number of adjacent free pairs by nothing: both neighbours are merged |
| `HeapBlocks.GrowFits` | mm/kmalloc.c:80-98 | after one extension the retry finds the new block, so the self-call happens once |
| `HeapBlocks.NullIff` | mm/kmalloc.c:62-99 | NULL if and only if the size is 0, or no free block fits and the rounded extension passes the heap's end; then nothing changed |
| `HeapBlocks.MallocKeeps` | mm/kmalloc.c:62-99 | allocation keeps tiling, alignment and the bound on adjacent free pairs |
| `HeapBlocks.MallocExact` | mm/kmalloc.c:50-99 | the block handed out holds the request with less than 32 bytes to spare, a piece split off holds at least 16, and the heap grows, by the least multiple of four pages that holds request and header, exactly when no free block holds the request |
| `HeapBlocks.FreeKeeps` | mm/kmalloc.c:101-128 | so does freeing |
| `HeapBlocks.HeapInEveryRun` | mm/kmalloc.c:27-145 | over every run blocks tile the heap and adjacent free pairs never exceed the number of extensions |
| `HeapBlocks.FullyCoalesced` | mm/kmalloc.c:101-128 | without extension no two free blocks touch; with nothing live at most one block more than extensions remains |
| `HeapBlocks.EndInEveryRun` | mm/kmalloc.c:27-128 | over every run extensions never fall, and while they stay the same so does the heap's end |
| `HeapBlocks.FreedInEveryRun` | mm/kmalloc.c:36-128 | in every run from the initial heap without extension, freeing everything, in any order, gives the initial heap back |
| `HeapBlocks.LiveDisjoint` | mm/kmalloc.c:27-145 | live payloads are aligned, inside the heap and disjoint |
| `HeapMem.SplitRep` | mm/kmalloc.c:50-60 | the header writes of a split represent the split sequence, prev inverse to next |
| `HeapMem.JoinRep` | mm/kmalloc.c:113-126 | so do the header writes of a merge |
| `Heap.KernelHeap.constructor` | mm/kmalloc.c:36-48 | one free block of 16384 - 16 bytes |
| `Heap.KernelHeap.Sbrk` | mm/kmalloc.c:27-34 | for any size, rounded up to a page, the old break, advanced modulo 2^32; the bound check is exact if and only if the sum does not wrap |
| `Heap.KernelHeap.SplitBlock` | mm/kmalloc.c:50-60 | splits exactly when 32 bytes are left over and touches no live payload |
| `Heap.KernelHeap.Kmalloc` | mm/kmalloc.c:62-99 | the header-level code computes the block-level allocation and changes no live payload |
| `Heap.KernelHeap.Kfree` | mm/kmalloc.c:101-128 | the block-level release with both merges; NULL and double free change nothing; other payloads untouched |
| `Heap.KernelHeap.Krealloc` | mm/kmalloc.c:137-145 | in place, grown with the bytes copied, freed or allocated, by case; every other live payload untouched |
| `SlabWorld.SlabFound` | mm/kmalloc.c:229-246 | a live object's slab is on the partial or full list |
| `SlabWorld.SlabUnique` | mm/kmalloc.c:229-246 | and it is the only slab holding it |
| `SlabWorld.AllocKeeps` | mm/kmalloc.c:183-227 | allocation returns a new object and keeps stacks, lists and backing blocks sound |
| `SlabWorld.AllocPrefers` | mm/kmalloc.c:199-227 | an unused slab is left alone while a partly used one has room, the heap is asked exactly when every slab is full, and of a new slab the last object goes first |
| `SlabWorld.FreeThenAlloc` | mm/kmalloc.c:199-258 | an object just freed is the next handed out, as long as its slab is still partly used or no other slab is |
| `SlabWorld.FreeKeepsCache` | mm/kmalloc.c:229-258 | freeing removes exactly that object and keeps the cache sound |
| `SlabWorld.WorldInEveryRun` | mm/kmalloc.c:169-258 | over every run that creates caches, allocates, frees and uses the heap otherwise: free stack and live indices partition each slab, every slab is on the list its count dictates and lies in its own heap block |
| `SlabWorld.ObjectsDisjoint` | mm/kmalloc.c:169-258 | live objects of all caches are disjoint |
| `SlabSpec.NewCache` | mm/kmalloc.c:169-181 | rounded object size, exactly as many objects as fit four pages and at least one; a sound empty cache |
| `SlabCache.CreateCache` | mm/kmalloc.c:169-181 | a new cache, or NULL if and only if the heap has no room for its record; live payloads untouched |
| `SlabCache.KmemCache.AddNewSlab` | mm/kmalloc.c:183-197 | a heap block becomes a slab with all its objects on the stack, or nothing changes |
| `SlabCache.KmemCache.Alloc` | mm/kmalloc.c:199-227 | takes the specified step, over the kernel heap's own contract |
| `SlabCache.KmemCache.Free` | mm/kmalloc.c:229-258 | takes the specified step for a live object, and changes nothing for NULL or a foreign address |
| `SchedSpec.EventKeeps` | kernel/process.c:216-344 | every event keeps: runnable tasks are exactly those queued, once each; sleepers are on exactly one wait queue |
| `SchedSpec.QueuesInEveryRun` | kernel/process.c:216-344 | and so does every run |
| `SchedSpec.BoundedWait` | kernel/process.c:232-270 | a task at index i of the run queue is current within i + 1 calls of schedule, whatever tail additions and other tasks' sleeps happen in between |
| `SchedSpec.BoundedWaitInTicks` | kernel/process.c:232-294 | and within 20 (i + 1) timer ticks |
| `SchedSpec.BoundedSleep` | kernel/process.c:302-344 | a task at index i of a wait queue is runnable within i + 1 calls of wake_up on it, whatever else happens |
| `SchedSpec.WakeFirst` | kernel/process.c:320-331 | the longest sleeper goes to the tail of the run queue, and every other queue stays |
| `SchedSpec.WakeAllOrder` | kernel/process.c:333-344 | all sleepers are appended to the run queue in the order in which they went to sleep |
| `SchedSpec.SleepHandsOver` | kernel/process.c:302-310 | the sleeper is last in its queue and off the run queue, and the first other runnable task runs with 20 ticks |
| `SchedSpec.YieldHandsOver` | kernel/process.c:290-294 | the head of the run queue runs, with 20 ticks, or with none left if it is the one that yielded |
| `SchedSpec.BootTaskStays` | kernel/process.c:279-280 | the timer never takes the processor from the boot task |
| `SchedSpec.SliceExact` | kernel/process.c:232-288 | a task switched to keeps the processor for exactly 20 ticks if nothing else happens |
| `SchedSpec.SleepAlone` | kernel/process.c:232-243 | a task that sleeps with nobody else to run stays current |
| `Scheduling.Scheduler.constructor` | kernel/process.c:197-214 | the boot task is current and on no queue |
| `Scheduling.Scheduler.SchedAdd` | kernel/process.c:216-222 | runnable, at the tail |
| `Scheduling.Scheduler.SchedRemove` | kernel/process.c:224-230 | the first occurrence goes, the order of the others stays |
| `Scheduling.Scheduler.Reschedule` | kernel/process.c:232-270 | rotates the queue and gives a new task a full slice |
| `Scheduling.Scheduler.Tick` | kernel/process.c:279-288 | the slice runs down and, at zero, the next task is scheduled |
| `Scheduling.Scheduler.Yield` | kernel/process.c:290-294 | gives up the slice and keeps the queue invariant |
| `Scheduling.Scheduler.SleepOn` | kernel/process.c:302-310 | current moves from the run queue to the wait queue and the next task runs; the queue invariant survives if and only if somebody else was runnable |
| `Scheduling.Scheduler.WakeUp` | kernel/process.c:320-331 | takes the specified step: the longest sleeper goes to the tail of the run queue; an empty queue changes nothing |
| `Scheduling.Scheduler.WakeUpAll` | kernel/process.c:333-344 | takes the specified steps: every sleeper of the queue goes to the tail of the run queue, in order |
| `PipeSpec.EventKeeps` | fs/pipe.c:22-106 | each critical section keeps the stream and every call's account of it |
| `PipeSpec.StreamInEveryRun` | fs/pipe.c:22-106 | so does any interleaving of any number of readers and writers, signals after any sleep included |
| `PipeSpec.StreamsGrow` | fs/pipe.c:22-82 | what was accepted or delivered is never revised |
| `PipeSpec.Fifo` | fs/pipe.c:22-82 | delivered bytes followed by the ring are the accepted bytes, and each finished call's result counts exactly its own bytes in the stream, in order |
| `PipeSpec.EventEnds` | fs/pipe.c:22-82 | the event at which a call returns fixes its value: what the ring held, 0 at the end of file, EPIPE (-32), everything written, or EINTR (-4); a call that returned never changes |
| `PipeSpec.ResultsInEveryRun` | fs/pipe.c:22-82 | over every run a returned call did so at such an event |
| `PipeSpec.EofInEveryRun` | fs/pipe.c:40-47 | over every run a read of nonzero length reports 0 if and only if one of its sections found the ring drained and no writer left; no signal makes it report 0 |
| `PipeSpec.EpipeExact` | fs/pipe.c:55-58 | EPIPE if and only if no reader is left |
| `PipeSpec.SignalExact` | fs/pipe.c:46-78 | a signal ends a read with EINTR and a write with what it has put, or EINTR when that is nothing |
| `PipeSpec.WriteSectionExact` | fs/pipe.c:62-79 | sleeps if and only if 4096 bytes are in; otherwise the buffer is all in or the ring is full |
| `PipeSpec.ReadSectionExact` | fs/pipe.c:29-45 | sleeps if and only if the ring is empty and a writer is left; otherwise takes as much as is asked for and there |
| `PipeSpec.EndsInEveryRun` | fs/pipe.c:84-99 | over every run the counters are the ends there were, less those closed |
| `Pipes.PipeInfo.constructor` | fs/pipe.c:118-129 | an empty ring with one reader and one writer |
| `Pipes.PipeInfo.ReadSection` | fs/pipe.c:29-45 | takes the specified step: the front of the ring goes into the caller's buffer, or end of file, or sleep; head stays (tail + size) mod 4096 |
| `Pipes.PipeInfo.WriteSection` | fs/pipe.c:62-76 | takes the specified step: as many bytes as there is room for; sleeps if and only if the ring is full |
| `Pipes.PipeInfo.BeginRead` | fs/pipe.c:22-27 | takes the specified step: a call in progress that has got nothing yet |
| `Pipes.PipeInfo.BeginWrite` | fs/pipe.c:51-61 | takes the specified step: EPIPE (-32) without readers, otherwise the loop starts, or ends at once with nothing to write |
| `Pipes.PipeInfo.WakeReader` | fs/pipe.c:46-47 | takes the specified step: EINTR (-4) on a pending signal |
| `Pipes.PipeInfo.WakeWriter` | fs/pipe.c:77-78 | takes the specified step: on a pending signal the bytes put so far, or EINTR (-4) |
| `Pipes.PipeInfo.DropReader` | fs/pipe.c:84-87 | takes the specified step: one reader less, ring and calls as they were |
| `Pipes.PipeInfo.DropWriter` | fs/pipe.c:96-99 | takes the specified step: one writer less, ring and calls as they were |
| `FilesSpec.StepKeeps` | fs/vfs.c:106-122 | each atomic step keeps every count equal to the slots naming the file plus the references in hand |
| `FilesSpec.RefcountsInEveryRun` | fs/vfs.c:537-613 | so does every run of steps of any number of tables |
| `FilesSpec.AliveIffReferenced` | fs/vfs.c:106-122 | a file is alive if and only if some slot names it or kernel code holds it |
| `FilesSpec.PipeFreedOnce` | fs/pipe.c:84-106 | over every run a pipe is freed exactly once, when neither end can be reached, and whoever reaches an end finds the pipe alive |
| `FilesSpec.EofExact` | fs/pipe.c:27-49 | whatever happens to a pipe, a read of nonzero length comes to report 0 if and only if one of its sections finds the ring empty while nobody can reach the write end |
| `FilesSpec.CountsDetermined` | kernel/process.c:58-79 | tables and references in hand determine all counts, so cloning and destroying a table restores them |
| `Files.OpenThenPut` | fs/vfs.c:537-544 | an open without a free descriptor leaves files, tables and pipes as they were |
| `Files.Descriptors.FileGet` | fs/vfs.c:113-116 | one more reference, in hand |
| `Files.Descriptors.FilePut` | fs/vfs.c:106-122 | one reference less; the last one releases the file and its pipe end |
| `Files.Descriptors.ReleaseEnd` | fs/pipe.c:84-106 | the end's counter goes down and the pipe goes when both are zero |
| `Files.Descriptors.VfsPipe` | fs/pipe.c:118-157 | a pipe and one file for each end, or ENOMEM without memory, and then no change |
| `Files.Descriptors.FilesAllocFd` | kernel/process.c:81-86 | the lowest empty slot; EMFILE if and only if there is none |
| `Files.Descriptors.FilesFreeFd` | kernel/process.c:88-93 | empties exactly that slot and drops its reference; nothing for a bad descriptor |
| `Files.Descriptors.FilesClone` | kernel/process.c:58-70 | a new table naming the same file in every slot, with every count adjusted |
| `Files.Descriptors.FilesDestroy` | kernel/process.c:72-79 | every reference of the table is dropped and the table is gone |
| `Files.Descriptors.SysOpen` | fs/vfs.c:537-544 | the lowest free descriptor names a new file, or nothing changed and the error says why |
| `Files.Descriptors.SysClose` | fs/vfs.c:546-551 | empties the slot; EBADF, and no change, exactly for a descriptor not in use |
| `Files.Descriptors.SysDup` | fs/vfs.c:585-590 | the lowest free descriptor names the same file; each error exactly in its case, changing nothing |
| `Files.Descriptors.SysDup2` | fs/vfs.c:592-599 | the target names the same file and nothing else changes; equal descriptors and errors change nothing |
| `Files.Descriptors.SysPipe` | fs/vfs.c:601-613 | the two lowest free descriptors name the two ends; EMFILE if and only if fewer than two are free, ENOMEM without memory, with files, tables and pipes as before |
| `PathSpec.DepthSuffices` | fs/vfs.c:209-224 | past as many nested links as there are dentries no lookup result changes |
| `PathSpec.EndsIff` | fs/vfs.c:209-224 | a lookup ends if and only if it does within that many nested links and one more |
| `PathSpec.AllEndIff` | fs/vfs.c:209-224 | in a tree every lookup ends if and only if every link resolves within as many levels as there are dentries |
| `PathSpec.LoopNeverEnds` | fs/vfs.c:209-224 | a tree with one link and a path whose lookup no depth of nesting finishes |
| `PathSpec.WalkDeeper` | fs/vfs.c:209-224 | a result is the same for every larger bound on nesting |
| `PathSpec.PartsJoin` | fs/vfs.c:163-172 | the components of p/q are those of p followed by those of q |
| `PathSpec.LookupComposes` | fs/vfs.c:151-229 | looking up p/q is looking up q from where p leads, errors included, unless p ends at a symbolic link |
| `PathSpec.DotDot` | fs/vfs.c:174-182 | ".." leads to the parent and stays at the root, "." stays everywhere |
| `PathSpec.PathThenUp` | fs/vfs.c:174-182 | a path to anything but a link, followed by "/..", leads to the directory that is in |
| `PathSpec.DownThenUp` | fs/vfs.c:174-207 | down to a child and up again is where one was |
| `PathSpec.AbsolutePath` | fs/vfs.c:154-159 | an absolute path starts at the root wherever one is |
| `PathSpec.ThroughLink` | fs/vfs.c:209-224 | behind a link the rest of the path is looked up from where the target leads, and the target from the directory the link is in |
| `PathSpec.ReadLinkExact` | fs/vfs.c:211-218 | at most 4095 bytes of a target are followed |
| `PathSpec.NameExact` | fs/vfs.c:151-207 | an ordinary name: EINVAL, ENOENT, ENOTDIR and the missing name each exactly in its case, otherwise the first child of that name, even if it is a link |
| `PathSpec.PrintedRoundTrip` | fs/vfs.c:625-641 | looking up the printed path of any dentry of a tree gives that dentry |
| `PathSpec.PrintedPlain` | fs/vfs.c:625-641 | the printed path starts with a slash, has no two in a row and, but for the root, none at its end |
| `Paths.SkipSlashes` | fs/vfs.c:165-167 | skipping slashes loses no component |
| `Paths.ComponentEnd` | fs/vfs.c:169-172 | splits off exactly the next component and knows whether the path goes on |
| `Paths.Dcache.DentryAlloc` | fs/vfs.c:51-67 | a new dentry without inode, with one reference, the last child of its parent if it has one |
| `Paths.Dcache.DentryPut` | fs/vfs.c:69-84 | one reference less; the last one unlinks and frees the dentry |
| `Paths.Dcache.LookupChild` | fs/vfs.c:86-93 | the first child of that name, or none |
| `Paths.Dcache.NoSuchChild` | fs/vfs.c:194-202 | a missing name leaves the tree and all counts as they were, and reports ENOENT, or ENOMEM without memory |
| `Paths.Dcache.LookupWithin` | fs/vfs.c:151-229 | the loop and its self-call compute the fold over components up to a bound on nesting; every reference taken on the way is given back, except one on a successful result |
| `Paths.Dcache.VfsLookup` | fs/vfs.c:151-229 | computes the fold over components for every sufficient nesting, and tells a lookup that never ends from one that does; the tree is unchanged, and only a successful result carries one more reference |
| `Paths.Dcache.SysGetcwd` | fs/vfs.c:625-641 | the caller's buffer holds the printed path, cut or zero-filled to its size |
| `ElfImage.SegmentBytes` | kernel/elf.c:165-184 | a loaded segment shows the file's bytes up to filesz and zeros up to memsz |
| `ElfImage.LoadEndSpec` | kernel/elf.c:186-192 | the break is page-aligned, at or above every segment end, and less than a page above one of them |
| `UserBytes.LittleEndian` | kernel/elf.c:173-182 | the bytes a program finds in a word of memory are its base-256 digits, the lowest first |
| `UserBytes.MemoryAfterMap` | kernel/elf.c:155-163 | mapping the pages adds zero pages to what the program sees and changes none |
| `UserBytes.MemoryAfterWrite` | kernel/elf.c:173-182 | a store through the page tables changes one page of one directory |
| `Elf.StoreBytes` | kernel/elf.c:174-178 | the bytes land behind the translation of the address; an unmapped address hits physical page 0 and nothing visible |
| `Elf.CopyFile` | kernel/elf.c:165-184 | the chunked copy equals one flat copy of the segment's file part |
| `Elf.LoadSegment` | kernel/elf.c:143-184 | pages, flags and bytes of the segment are in place if and only if enough frames were free for its pages and missing tables; otherwise what fitted is mapped, and the exact result |
| `Elf.LoadSegments` | kernel/elf.c:141-192 | with enough free frames the whole image is in place, its pages the user's and writable as the headers say, frames are conserved and the break is set; without, at most one frame is lost, and either ENOMEM takes the directory back or no frame is left free |
| `Elf.ImageBytes` | kernel/elf.c:141-184 | at every address of a segment of type 1 the program finds the file's byte, or zero past filesz |
| `Ata.NeighboursKeptIff` | drivers/ata.c:214-222 | after a failed read the bytes around a chunk survive, for all stack contents, if and only if the chunk is the whole sector |
| `Ata.OverBelow` | drivers/ata.c:186-188 | below 2^28 sectors the store is the plain update of the flat array |
| `Ata.Addressed` | drivers/ata.c:140-144 | the four address registers hold the sector number modulo 2^28 |
| `Ata.WriteThenRead` | drivers/ata.c:180-232 | a read after a write of the same run returns what was written |
| `Ata.Drive.ReadSector` | drivers/ata.c:135-153 | the addressed sector, modulo 2^28, or EIO and the buffer as it was |
| `Ata.Drive.WriteSector` | drivers/ata.c:155-175 | replaces the addressed sector, modulo 2^28, or EIO and no change |
| `Ata.Drive.FileRead` | drivers/ata.c:180-202 | the flat array's bytes up to the first unreadable sector, for any position and length |
| `Ata.Drive.WriteChunk` | drivers/ata.c:214-226 | read, patch and write of one sector |
| `Ata.Drive.FileWrite` | drivers/ata.c:204-232 | the bytes land, other sectors are untouched, and with the partial sectors readable no other byte changes, for any position and length |

## Left out

- Booting, interrupts, CR3 and TLB handling, context switching: hardware. A context switch is setting `current`.
- Port I/O of the ATA driver, serial, keyboard, VGA, timer: device plumbing; sector transfers are the model's primitive.
- Kernel half of the page tables after a directory is created or cloned, and `paging_init`.
- MmStruct.AddressSpace.SetBreak: breaks inside the user half, because the code would go on into the kernel's entries.
- MmStruct.AddressSpace.SysBrk: breaks inside the user half, as above.
- MmStruct.AddressSpace.SysMmap: aligned ranges inside the user half, as above.
- MmStruct.AddressSpace.Mmap: aligned ranges inside the user half, as above.
- MmStruct.AddressSpace.Munmap: aligned ranges inside the user half, as above.
- Heap.KernelHeap.Kmalloc: sizes up to 0x2BFE0000 only, because beyond that the rounded extension wraps around 32 bits.
- Heap.KernelHeap.Kfree: pointers to block payloads only, because the code reads a header in front of any address it is given.
- Heap.KernelHeap.Krealloc: live payloads and sizes up to 0x2BFE0000 only, for the same two reasons.
- SlabCache.KmemCache.AddNewSlab: slabs up to 0x2BFE0000 bytes only, as for kmalloc.
- SlabCache.KmemCache.Alloc: slabs up to 0x2BFE0000 bytes only, as for kmalloc.
- SlabCache.KmemCache.Free: live objects, NULL and addresses outside every slab only, because a second free of an object overwrites the free stack.
- SlabSpec.NewCache: object sizes above 0 only, because the code divides by the rounded size.
- Slab headers: kept as fields of the cache object, not as words of the heap block, so their layout is not modelled.
- `kcalloc`, `kmalloc_aligned`, `kmem_cache_destroy`: easy members.
- `sys_fork` when it fails: its error path frees what the child's record still shares with the parent.
- Files.Descriptors.VfsPipe: the dentries and files are allocated, because the code does not test for failure there.
- Waiting tasks woken by `wake_up_process`: it does not unlink a sleeper from its wait queue.
- Liveness of blocked pipe calls: the lock is dropped before sleeping, so only safety is claimed. SIGPIPE is not delivered.
- Mounts, `O_CREAT`, mkdir, rename, link, unlink: their dentry discipline keeps no whole-run invariant.
- Paths.Dcache.VfsLookup: takes names of any length; the C buffer holds 255 bytes.
- Paths.Dcache.SysGetcwd: paths of at most 4095 bytes, because a longer one runs off the front of the C buffer.
- Elf.LoadSegments: segments with disjoint pages inside the user half, filesz at most memsz and file data in range.
- The ELF header checks, argument strings, auxiliary vector and user stack of `sys_exec`.
- procfs, ramfs file data, device registration, signals, waitpid, CPIO and Multiboot parsing.
