# Verified models of the kernel's algorithms

This project models the self-contained algorithms of a hobby x86 kernel and its small
libc, and proves what they are for. The state that the C++ code changes in place is changed
in place here too: words of memory behind the allocators, sectors of a disk, linked nodes,
descriptor tables, line arrays. Each method is tied by its contract to a pure
specification, and the theorems are about those specifications, for every input, every
reachable state or every run.

`dafny verify dfyconfig.toml` checks everything (Dafny 4.11).

## The parts

**Kernel heap** (`Dyadic`, `Tiling`, `Ram`, `FreeList`, `Buddy`, `HeapLayout`, `Heap`). Memory is
a map from addresses to 32-bit words. The buddy allocator keeps its seventeen free lists in the
free blocks themselves. In every reachable state the free and the live blocks tile the covered
region without overlap, and no two joinable buddies are both free. From that alone follows that
the free set is a function of the live set, so freeing everything gives back exactly what
initialisation built, whatever happened in between, and that a request fails exactly if no aligned
gap of its size exists. No larger block is cut while a smaller one fits. On top of it `kmalloc`
writes headers and hidden back-pointers, and slabs thread index lists through free objects; small
requests come from slabs as long as those can serve them. Live payloads never overlap and never
contain a word of metadata, and `kfree` sends each pointer back to the allocator it came from. A
"page-aligned" allocation starts 4 bytes after a page boundary, as in the code.

**FAT16** (`Bytes`, `Fat16Layout`, `Fat16Chains`, `Fat16Names`, `Fat16Directory`, `Fat16`). A
volume is a sequence of 512-byte sectors; `Fat16Layout` says at which byte of the disk each FAT
entry, directory entry and data sector lies, for every boot sector, and that writing one of them
leaves the others alone and keeps both FAT copies equal. Above it, chains stay terminated, acyclic
and disjoint, and the root directory is a map from upper-case names to byte strings that create,
write and delete update at one key. Three promises hold only under a condition, which is proved to
be exact: a written file reads back if and only if it fits (and a write of nothing leaves the old
size), a new file is found under its name if and only if the name is a well-formed 8.3 name that
does not start with the mark of deleted entries, and names stay unique if and only if the name as
stored is new.

**Inode file system** (`KernelFs`). Live (inode, index) pairs map injectively to used blocks
and the used-block count is the population count of the bitmap. A write stores exactly the
front of the buffer that 12 blocks and the free blocks can hold, and touches no other file. A
ranged read returns the matching slice unless the 32-bit sum of offset and length wraps into
the file; the exact condition is proved, and a read that copies 4095 bytes where 9 are left.
Rewriting a file does not give its old blocks back; the contracts say so.

**Scheduling and waiting** (`Scheduler`, `ProcessRing`, `Barrier`, `RwLock`, `Counting`).
`ProcessRing` is `schedule()` on linked process records; it refines the specification in
`Scheduler`, where only the current process can be running, no ready process is better after a
switch, every turn begins with a whole slice, and a ready process of the best priority waits for
an exactly known number of ticks. `Barrier` interleaves single C statements of any number of
threads; besides safety, a phase can be completed from every reachable state with enough callers.
`RwLock` says of every call in every run whether it is admitted: readers share the lock, writers
hold it alone, and nobody gets it once a writer has unlocked it, because the unlock increments the
writer count (`src/kernel/pthread.cpp:822-824`).

**Shared kernel objects** (`FdTable`, `MessageQueue`). Every reference count is exactly the
number of descriptor slots plus the slots lost through `sys__exit`, so no slot refers to a
freed description. The message list is a stable priority queue, and sent messages are the
received and the pending ones together.

**Libraries** (`Regex`, `BlockHash`, `Sha256`, `Md5`, `Checksum`, `Calendar`, `TextBuffer`). The
backtracking matcher accepts exactly the denoted language. For every compression function,
streaming SHA-256 and MD5 hash the padded message whatever the split into updates, with the
padding, initial words and byte orders of their standards. The three Internet checksums agree
wherever 32 bits suffice. Zeller's formula counts days. The line editor is a flat string with a
cursor.

`Collections` and `Counting` hold what several models need. Where a promise fails, a lemma or
a client method gives an input on which it does, beside the exact condition: `NeverEnds`,
`Misrouted`, `LongNames`, `HiddenName`, `EmptyWrite`, `ClusterLost`, `WrappedRead`,
`OneWriterIsTheLast`, `CountLost`, `TooLong`, `ReturnLost`. The client methods also show that
the contracts compose over a run, from the constructor on.

## Conventions

Pointers are numbers or object references; 0 or `null` is the null pointer. 32-bit
arithmetic is written out with `% 2^32` where it can wrap; preconditions that keep it from
wrapping are listed under "Left out". The results of `kmalloc`, where
a caller handles failure, are parameters. Ghost fields record history (who was handed a
block, what was sent) and are used in specifications only.

## Model

| member | source | states |
|---|---|---|
| Dyadic.XorIsBuddy | src/kernel/buddy.cpp:113-115 | XOR of a block's offset with its size is the offset of its buddy, for every block |
| Dyadic.Nested | src/kernel/buddy.cpp:67-84 | two aligned power-of-two blocks that meet are nested |
| FreeList.FreeLists.Push | src/kernel/buddy.cpp:47-49 | a block becomes the head of its list, the list links through the block's own first word, all other lists and words stay |
| FreeList.FreeLists.Pop | src/kernel/buddy.cpp:68-70 | the head leaves its list; the other lists stay |
| FreeList.FreeLists.Unlink | src/kernel/buddy.cpp:118-131 | a searched address is removed exactly when it is in the list, wherever it stands |
| Buddy.GetOrder | src/kernel/buddy.cpp:5-13 | the least order whose blocks hold the size |
| Buddy.GetOrderFloor | src/kernel/buddy.cpp:16-24 | the largest order whose blocks fit, for sizes below 2^31 |
| Buddy.NeverEnds | src/kernel/buddy.cpp:5-24 | above 2^31 the first doubling loop goes on after any number of rounds, from 2^31 on the second one too |
| Buddy.BuddyAllocator.constructor | src/kernel/buddy.cpp:26-56 | the initial blocks tile a range of less than 2^31 bytes up to less than a page, with no two joinable buddies |
| Buddy.BuddyAllocator.Fill | src/kernel/buddy.cpp:34-53 | the loop that lays blocks from the low end keeps the tiling canonical |
| Buddy.BuddyAllocator.SplitDown | src/kernel/buddy.cpp:72-79 | the in-place split loop computes the specified free set and writes only inside the block |
| Buddy.BuddyAllocator.TakeBuddy | src/kernel/buddy.cpp:113-131 | the XOR address is found in the list exactly when the buddy is free |
| Buddy.BuddyAllocator.Coalesce | src/kernel/buddy.cpp:104-144 | the coalescing loop computes the specified join and ends at a block whose buddy is not free |
| Buddy.BuddyAllocator.Alloc | src/kernel/buddy.cpp:58-87 | the result is a fresh zeroed block of the requested order, cut from the start of the head of the least non-empty list that fits, so no larger block is cut while a smaller one would do; live blocks keep their bytes; null exactly if no aligned gap of that order exists, and then nothing changes |
| Buddy.BuddyAllocator.Free | src/kernel/buddy.cpp:89-158 | exactly the freed block stops being live; the state stays canonical; other live blocks keep their bytes; what the block has been joined to heads its list, and it is joined exactly if its buddy is free |
| Buddy.BuddyAllocator.OwnerMayWrite | src/kernel/buddy.cpp:81-82 | whatever the owner writes into its block, the free lists stay intact |
| Buddy.BuddyAllocator.AllFreed | src/kernel/buddy.cpp:26-158 | when everything is freed, the free set is the one buddy_init built |
| Buddy.SmallThenLarge | src/kernel/buddy.cpp:26-87 | a client run: of five pages one page is taken from the small block at the end, and the next request for four gets the start of the range |
| Buddy.FreeThenAlloc | src/kernel/buddy.cpp:58-158 | a client run: a freed block that cannot be joined is handed out again by the next request of its size |
| Tiling.FreeIsMaximalGap | src/kernel/buddy.cpp:104-157 | the free blocks are exactly the maximal aligned gaps between live blocks |
| Tiling.FreeDeterminedByLive | src/kernel/buddy.cpp:104-157 | two states with the same live blocks have the same free blocks, whatever their histories |
| Tiling.GapHasFreeBlock | src/kernel/buddy.cpp:67-86 | every aligned gap lies inside one free block |
| Tiling.AllocKeeps | src/kernel/buddy.cpp:67-84 | taking and splitting a free block keeps tiling and coalescing canonical |
| Tiling.FreeKeeps | src/kernel/buddy.cpp:104-157 | joining a freed block upwards keeps tiling and coalescing canonical |
| Tiling.CoverNext | src/kernel/buddy.cpp:35-53 | one step of initialisation keeps the covered prefix tiled by blocks of non-increasing order |
| HeapLayout.ObjIndex | src/kernel/slab.cpp:159-169 | the byte offset of an object is divisible by the object size and gives back its index |
| HeapLayout.ObjCountIs | src/kernel/slab.cpp:61-65 | each cache has objects twice as large as the one before, from 32 bytes on, and as many as fit behind the header of a page |
| HeapLayout.TakenOk | src/kernel/slab.cpp:133-141 | taking the first free object leaves a well-formed slab with the rest of the list |
| HeapLayout.ReturnedOk | src/kernel/slab.cpp:171-175 | putting an object back leaves a well-formed slab with it at the head |
| Heap.KernelHeap.constructor | src/kernel/heap.cpp:20-33 | an empty heap, in fresh objects, that covers the whole page-aligned range |
| Heap.GetSlabIndex | src/kernel/slab.cpp:42-58 | the smallest cache whose objects hold the size, or -1 above 2048 |
| Heap.KernelHeap.LargeAlloc | src/kernel/heap.cpp:56-89 | header, hidden pointer and zeroed payload of a large or aligned allocation, in a best-fitting block of the buddy allocator; null exactly if there is no gap for it |
| Heap.KernelHeap.SlabCreate | src/kernel/slab.cpp:86-130 | a new slab page has all objects on its index list and heads its cache |
| Heap.KernelHeap.FindSlab | src/kernel/slab.cpp:77-83 | the first slab of the cache with a free object, or 0 exactly if all its slabs are full |
| Heap.KernelHeap.TakeObject | src/kernel/slab.cpp:133-143 | one more live object, zeroed; every other payload keeps its bytes |
| Heap.KernelHeap.SlabAlloc | src/kernel/slab.cpp:69-144 | the first free object of the first slab of the right cache that has one, or else the first object of a new slab; null exactly if no slab of its cache has a free object and no page for another one is free |
| Heap.KernelHeap.StartSlabs | src/kernel/slab.cpp:60-67 | switching the slabs on keeps the heap valid, so every later call may rely on either allocator |
| Heap.KernelHeap.KmallocReal | src/kernel/heap.cpp:37-90 | with the slabs on, a small unaligned request is served by them as long as they have an object or room for a new page, and only otherwise by a block of exactly its size; one new live payload, at a word address and zeroed, all others at their addresses with their bytes; null exactly if nothing fits, in a slab or outside |
| Heap.KernelHeap.Routing | src/kernel/slab.cpp:150-157 | the inspected word is the slab magic if and only if the pointer is a slab object or an aligned payload that starts with that value |
| Heap.KernelHeap.SlabFree | src/kernel/slab.cpp:146-182 | handles exactly slab objects, and puts each back into its own slab |
| Heap.KernelHeap.FreeLarge | src/kernel/heap.cpp:120-124 | the block behind a large allocation goes back to the buddy allocator |
| Heap.KernelHeap.Kfree | src/kernel/heap.cpp:92-126 | exactly the freed payload stops being live: an object becomes the first free one of its slab, a large block goes; every other one keeps address, length and bytes; with the slabs on, an aligned payload must not start with the slab magic |
| Heap.KernelHeap.WordAligned | src/kernel/heap.cpp:62-84 | every live payload starts at a multiple of 4 |
| Heap.KernelHeap.OwnerWrites | src/kernel/heap.cpp:69-84 | a write to any word of a live payload keeps the whole heap valid |
| Heap.KernelHeap.OwnerWritesByte | src/kernel/heap.cpp:69-84 | so does a write to any byte of it, and no other byte of memory changes |
| Heap.KernelHeap.NothingInUse | src/kernel/heap.cpp:92-126 | once everything is freed, the free blocks are those that initialisation built |
| Heap.AllocateAndFree | src/kernel/heap.cpp:20-126 | a client run: a new heap that allocates and frees is back in its initial state |
| Heap.AllocateAgain | src/kernel/heap.cpp:20-126 | the run goes on with slabs: the next allocation is the only live one |
| Heap.AllocateAndWrite | src/kernel/heap.cpp:37-90 | a client writes to what it was just given, in any heap state |
| Heap.OnePage | src/kernel/heap.cpp:37-90 | a client run: of a heap of one page a request without slabs gets start + 24 if and only if it is for 1 to 4072 bytes |
| Heap.TwoSmall | src/kernel/slab.cpp:69-144 | a client run: on an empty megabyte with the slabs on, two requests for 32 bytes get the objects at start + 4096 + 28 and 32 bytes behind it |
| Heap.Misrouted | src/kernel/slab.cpp:150-157 | an aligned payload that starts with the slab magic passes kfree's test for slab objects |
| Heap.PayloadsDisjoint | src/kernel/heap.cpp:37-126 | distinct live payloads are disjoint and lie inside the heap behind their headers |
| Fat16Layout.BootBytes | src/drivers/fat16.h:7-26 | the five fields of the boot sector lie at the offsets, and in the byte order, of section "Boot Sector and BPB" of the FAT specification |
| Fat16Layout.Regions | src/drivers/fat16.cpp:302-305 | for every boot sector the root directory has the least number of sectors that hold its entries, starts behind the last FAT, and cluster 2 starts right behind it |
| Fat16Layout.FatBytes | src/drivers/fat16.cpp:37-45 | an entry of the FAT is the two bytes of the disk at its offset behind the reserved sectors, low byte first |
| Fat16Layout.DirBytes | src/drivers/fat16.cpp:98-117 | entry i of the root directory is the 32 bytes at 32 * i behind the last FAT |
| Fat16Layout.DataBytes | src/drivers/fat16.cpp:30-32 | byte j of sector k of cluster c is the byte of the disk that the section "FAT Data Structure" says it is |
| Fat16Layout.SetFatImage | src/drivers/fat16.cpp:47-61 | writing a FAT entry changes that entry only and no directory or data sector |
| Fat16Layout.SetFatMirrored | src/drivers/fat16.cpp:57-60 | the second FAT stays equal to the first |
| Fat16Layout.SetDirImage | src/drivers/fat16.cpp:272-276 | rewriting one 32-byte entry changes that entry only |
| Fat16Layout.SetDataImage | src/drivers/fat16.cpp:455-465 | writing a sector of a cluster changes no other cluster, FAT entry or directory entry |
| Fat16Layout.SetFatManaged | src/drivers/fat16.cpp:47-61 | no sector outside the two FATs, the root directory and the clusters is touched, neither here nor, with the two lemmas beside it, by any other write |
| Fat16Chains.ChainUnique | src/drivers/fat16.cpp:477-482 | the chain from a start cluster is determined by the FAT |
| Fat16Chains.StartChain | src/drivers/fat16.cpp:441-446 | a freshly allocated cluster is a chain disjoint from all others |
| Fat16Chains.ExtendChain | src/drivers/fat16.cpp:474-479 | linking a fresh cluster keeps all chains terminated, acyclic and disjoint |
| Fat16Chains.TakenMore | src/drivers/fat16.cpp:63-72 | step by step a growing chain takes the lowest free clusters in ascending order and changes no other entry of the FAT |
| Fat16Chains.FreedChain | src/drivers/fat16.cpp:403-408 | deleting a well-formed chain zeroes exactly its entries |
| Fat16Chains.DropChain | src/drivers/fat16.cpp:403-408 | the other chains survive a delete |
| Fat16Chains.FreedCount | src/drivers/fat16.cpp:403-408 | a delete gives back as many clusters as the chain had |
| Fat16Chains.OverlayBytes | src/drivers/fat16.cpp:454-466 | sector-by-sector writing with a partial last sector is writing the bytes over the front of the content |
| Fat16Chains.StoredPrefix | src/drivers/fat16.cpp:323-332 | the clusters of a chain in order hold its content in order |
| Fat16Names.RoundTrip | src/drivers/fat16.cpp:242-266 | a name survives parsing and printing, in capitals, if and only if it is a well-formed 8.3 name |
| Fat16Names.StoredKey | src/drivers/fat16.cpp:242-266 | a new entry is compared under the requested name if and only if that name is well-formed |
| Fat16Names.Example | src/drivers/fat16.cpp:242-266 | readme.txt is stored as README, two spaces, TXT |
| Fat16Names.TruncatedAlike | src/drivers/fat16.cpp:260-265 | two different long names are stored alike, and neither is well-formed |
| Fat16Names.ToName | src/drivers/fat16.cpp:74-87 | the loops print the stored bytes without spaces, with a dot if there is an extension |
| Fat16Names.SameName | src/drivers/fat16.cpp:171-186 | the comparison loop decides equality up to case of the NUL-terminated strings |
| Fat16Names.ParseInto | src/drivers/fat16.cpp:244-266 | the parsing loop computes the stored name |
| Fat16Directory.FindFirst | src/drivers/fat16.cpp:151-196 | the scan that stops at an end marker finds the first visible entry with the name, if there is any |
| Fat16Directory.FindAfterAdd | src/drivers/fat16.cpp:215-279 | a new entry is found under its key, every other search is unchanged |
| Fat16Directory.AddUnique | src/drivers/fat16.cpp:227-231 | names stay unique if and only if the stored name is new |
| Fat16Directory.LongNames | src/drivers/fat16.cpp:227-279 | creating AAAAAAAAB and then AAAAAAAAC: neither is found, and the directory has two entries of one name |
| Fat16Directory.HiddenName | src/drivers/fat16.cpp:227-279 | a file created as the well-formed name 0xE5 is not found |
| Fat16Directory.FindAfterDelete | src/drivers/fat16.cpp:410-415 | a deleted name is gone, every other search is unchanged |
| Fat16Directory.ReadsBack | src/drivers/fat16.cpp:318-333 | stored data reads back into every buffer if and only if all of it was stored |
| Fat16Directory.LookupAfterWrite | src/drivers/fat16.cpp:335-371 | a rewritten file has the front of the buffer, every other file its old bytes |
| Fat16Directory.LookupAfterEmptyWrite | src/drivers/fat16.cpp:351-352 | writing nothing changes no file |
| Fat16Directory.LookupAfterDelete | src/drivers/fat16.cpp:393-418 | the files are those before without the deleted one |
| Fat16Directory.LookupAfterAdd | src/drivers/fat16.cpp:227-279 | the files are those before and a new empty one |
| Fat16.Volume.GetFatEntry | src/drivers/fat16.cpp:37-45 | the little-endian entry of the cluster |
| Fat16.Volume.SetFatEntry | src/drivers/fat16.cpp:47-61 | one entry changes, in both copies |
| Fat16.Volume.AllocCluster | src/drivers/fat16.cpp:63-71 | the lowest free cluster, marked as the end of a chain; 0 exactly when none is free |
| Fat16.Volume.FreeChain | src/drivers/fat16.cpp:403-408 | the delete loop stops on every FAT, cyclic or not |
| Fat16.Volume.WriteCluster | src/drivers/fat16.cpp:454-471 | one cluster is overlaid with the next part of the buffer, nothing else changes |
| Fat16.Volume.WriteChain | src/drivers/fat16.cpp:452-485 | the write loop stores as much as chain and free clusters can hold and grows the chain no more than needed |
| Fat16.Volume.WriteVfs | src/drivers/fat16.cpp:432-486 | content, growth and byte count of a write; clusters are conserved; other chains and their contents stay |
| Fat16.Volume.ReadFile | src/drivers/fat16.cpp:318-333 | whole sectors of the content up to the recorded size, the rest of the buffer untouched |
| Fat16.Volume.FindEntry | src/drivers/fat16.cpp:98-121 | the nested loops over sectors and entries perform the specified scan |
| Fat16.Volume.FindFree | src/drivers/fat16.cpp:215-225 | the first unused or deleted slot |
| Fat16.Volume.CreateFile | src/drivers/fat16.cpp:373-375 | error codes; one new empty file; found again, and unique, under the exact conditions |
| Fat16.Volume.WriteFile | src/drivers/fat16.cpp:335-371 | the map of files changes at one key; the file reads back as the data if and only if it fits, and an empty write leaves the old size; the lowest free clusters go to the file in ascending order, no more than needed, and no other FAT entry changes |
| Fat16.Volume.DeleteFile | src/drivers/fat16.cpp:393-418 | one file fewer; exactly the entries of its chain become 0, everything else is as before |
| Fat16.Volume.constructor | src/drivers/fat16.cpp:297-308 | the geometry is that of the boot sector; from then on every valid state holds its image where that geometry says, and no sector outside its regions changes |
| Fat16.BlankVolume | src/drivers/fat16.cpp:297-308 | a disk that is zero behind its reserved sectors is a valid empty volume with the geometry of its boot sector |
| Fat16.ClusterLost | src/drivers/fat16.cpp:335-371 | a client run: writing nothing to an empty file costs a cluster that no entry records |
| Fat16.TwoFiles | src/drivers/fat16.cpp:318-371 | a client run: two files are created, both are written, and both read back |
| Fat16.FirstFile | src/drivers/fat16.cpp:297-371 | a client run on a literal boot sector: the one byte of the first file is in sector 545, its 32-byte entry at the start of sector 513, the mark of cluster 2 in both FATs, and the boot sector is as it was |
| Fat16.EmptyWrite | src/drivers/fat16.cpp:335-371 | a client run: a file of one byte still has it after nothing has been written over it |
| KernelFs.PopSet | src/kernel/kernel_fs.cpp:41-43 | marking a free block raises the population count by one |
| KernelFs.Injective | src/kernel/kernel_fs.cpp:160-165 | live (inode, index) pairs map injectively to blocks marked used |
| KernelFs.ReadsSlice | src/kernel/kernel_fs.cpp:178-209 | a ranged read returns the matching slice if and only if the 32-bit range does not wrap into the file or the file fills its last block |
| KernelFs.WrappedRead | src/kernel/kernel_fs.cpp:178-209 | offset 1 and the largest length on a file of 10 bytes: 4095 bytes are copied, where 9 are left |
| KernelFs.ChunksHold | src/kernel/kernel_fs.cpp:160-174 | blocks written chunk by chunk hold the buffer |
| KernelFs.SearchAfterAdd | src/kernel/kernel_fs.cpp:98-106 | a new directory entry is found unless an earlier one has the name; other names are looked up as before |
| KernelFs.NameKept | src/kernel/kernel_fs.cpp:101-102 | names are kept up to 127 bytes |
| KernelFs.EntryLayout | src/include/kernel_fs_internal.h:29-32 | an entry is 132 bytes: the inode number, low byte first, and the name up to a NUL |
| KernelFs.FileSystem.constructor | src/kernel/kernel_fs.cpp:353-378 | an empty file system with a root directory |
| KernelFs.FileSystem.AllocBlock | src/kernel/kernel_fs.cpp:39-50 | the first free block, all before it in use, zeroed and counted; -1 exactly when the disk is full |
| KernelFs.FileSystem.StoreBlocks | src/kernel/kernel_fs.cpp:160-172 | the block loop fills fresh blocks in order |
| KernelFs.FileSystem.WriteInternal | src/kernel/kernel_fs.cpp:136-176 | the file is the stored front of the buffer, the byte count is exact, every other inode and file stays, old blocks stay counted |
| KernelFs.FileSystem.ReadInternal | src/kernel/kernel_fs.cpp:178-209 | which bytes of the file's blocks land in the buffer, for every length, with the 32-bit sum as it is; the buffer need only hold what is copied |
| KernelFs.FileSystem.Write | src/kernel/kernel_fs.cpp:322-342 | the one-block write: error cases, content, used-block count, other files unchanged |
| KernelFs.FileSystem.AllocInode | src/kernel/kernel_fs.cpp:59-77 | the first unused inode, all before it in use, reset; -1 exactly when there is none |
| KernelFs.FileSystem.DirAdd | src/kernel/kernel_fs.cpp:83-108 | the entry goes to the first empty slot, or nothing happens when there is no room |
| KernelFs.FileSystem.Lookup | src/kernel/kernel_fs.cpp:110-124 | the inode of the first entry with the name, or -1 |
| KernelFs.FileSystem.Create | src/kernel/kernel_fs.cpp:126-134 | a fresh inode, and exactly which names lead to it afterwards |
| Scheduler.BestIsFirstBest | src/kernel/process.cpp:297-307 | the pick is eligible, of the best priority, and the first such behind the current process |
| Scheduler.SchedulePick | src/kernel/process.cpp:272-331 | only the current process can be running; with an eligible process, afterwards it runs and no ready one is strictly better |
| Scheduler.ScheduleIs | src/kernel/process.cpp:272-331 | with somebody to run, a call either takes one tick from a running process that has more and nobody better behind it, or gives a whole slice to the first process of the best priority, the running one included; nothing else changes |
| Scheduler.RunTurns | src/kernel/process.cpp:272-331 | over every run with positive slices the running process has at least one tick and at most its slice left |
| Scheduler.RunSafe | src/kernel/process.cpp:272-331 | over every run of ticks, blocking, waking, insertion and reaping nobody but the current process runs, and after every call of schedule() with an eligible process no ready one is strictly better |
| Scheduler.OneTick | src/kernel/process.cpp:272-331 | one tick brings a waiting process of the best priority one tick closer |
| Scheduler.WaitsExactly | src/kernel/process.cpp:272-331 | it first runs after exactly the rest of the running turn plus the full slices of its peers ahead in the ring |
| Scheduler.WholeSlice | src/kernel/process.cpp:310-320 | a peer woken just after a turn has begun anew runs exactly after the whole slice |
| Scheduler.Renewed | src/kernel/process.cpp:310-313 | the only process, with one tick left, gets a new slice |
| ProcessRing.ProcessTable.constructor | src/kernel/process.cpp:26-52 | one running process linked to itself |
| ProcessRing.ProcessTable.FoundHigher | src/kernel/process.cpp:279-290 | the ring walk finds a strictly better ready process exactly when there is one |
| ProcessRing.ProcessTable.FindBest | src/kernel/process.cpp:293-307 | the ring walk finds the specified pick |
| ProcessRing.ProcessTable.Schedule | src/kernel/process.cpp:272-331 | schedule() on linked records computes the specified next state |
| ProcessRing.ProcessTable.InsertAfterCurrent | src/kernel/process.cpp:416-418 | a child is linked in behind its parent |
| ProcessRing.ProcessTable.Unlink | src/kernel/process.cpp:462-472 | a zombie leaves the ring by a walk from ready_queue, which stays a member of the ring and moves on from the zombie |
| Barrier.StepInv | src/kernel/pthread.cpp:864-889 | every C statement of every thread keeps the invariant of barrier, mutex and condition variable |
| Barrier.RunInv | src/kernel/pthread.cpp:864-889 | it holds in every reachable state |
| Barrier.NoEarlyReturn | src/kernel/pthread.cpp:864-889 | no call returns from a phase before count threads have arrived in it |
| Barrier.ExactlyOneSerial | src/kernel/pthread.cpp:873-888 | at most one call per phase is the serial one and at most count return; exactly one and count once all callers are out |
| Barrier.LastIsSerial | src/kernel/pthread.cpp:873-881 | a caller becomes the serial thread if and only if it is the last of count to arrive |
| Barrier.Wakes | src/kernel/pthread.cpp:682-690 | only the broadcast changes the signal count, by one for every waiting thread |
| Barrier.NoLostWakeup | src/kernel/pthread.cpp:642-663 | with the lock free, a waiter sees its recorded signal count if and only if it is in the current phase |
| Barrier.HolderProgress | src/kernel/pthread.cpp:498-572 | whoever holds the mutex gives it back after a bounded number of its own statements |
| Barrier.OwnerRun | src/kernel/pthread.cpp:498-572 | in every reachable state the owner field names the holder, but for the moments just after taking and just before giving back the lock |
| Barrier.CanComplete | src/kernel/pthread.cpp:864-889 | from every reachable state in which count threads have arrived in the phase or are willing to call, some schedule completes it, and no other thread has to call |
| Barrier.NeverStuck | src/kernel/pthread.cpp:864-889 | with count threads willing to call, every run can be continued to the end of its phase |
| Barrier.CanReturn | src/kernel/pthread.cpp:864-889 | from every reachable state a thread whose phase is over can be scheduled to return |
| RwLock.Exclusion | src/kernel/pthread.cpp:738-832 | in every run a writer holds the lock alone |
| RwLock.NeverAgain | src/kernel/pthread.cpp:816-832 | once a writer has unlocked, nobody is admitted in any continuation |
| RwLock.Admission | src/kernel/pthread.cpp:742-832 | in every run each call changes its own thread only, as the others decide: a reader is admitted if and only if nobody writes or waits to write and no writer has ever unlocked, whoever else reads; a writer if and only if nobody is inside and no writer has ever unlocked |
| RwLock.ReadersShare | src/kernel/pthread.cpp:742-754 | any number of threads that take a new lock for reading hold it together |
| RwLock.AdmitsIff | src/kernel/pthread.cpp:742-754 | in particular, in every run a lock nobody holds or waits for admits a thread if and only if no writer has ever unlocked it |
| RwLock.WritersSince | src/kernel/pthread.cpp:816-832 | the writer count is 2 exactly from the first unlock of a writer on |
| RwLock.OneWriterIsTheLast | src/kernel/pthread.cpp:816-832 | taking and giving back the lock once for writing leaves two writers counted |
| RwLock.UnlockStep | src/kernel/pthread.cpp:816-832 | a reader's unlock makes room, a writer's ends the lock |
| FdTable.NoDangling | src/kernel/process.cpp:428-439 | a non-null slot refers to a description that is not freed and whose count is at least its slots |
| FdTable.ExactWhenClean | src/kernel/process.cpp:428-439 | without sys__exit every count is exactly the number of slots |
| FdTable.Kernel.Open | src/kernel/kernel_vfs_phase4.cpp:56-82 | the lowest free slot gets a fresh description with count 1, or -EMFILE |
| FdTable.Kernel.DupFd | src/kernel/file_ops.cpp:415-435 | the lowest free slot from the argument on shares the description; error codes |
| FdTable.Kernel.Close | src/kernel/kernel_vfs_phase4.cpp:112-130 | the description is freed exactly with its last slot |
| FdTable.Kernel.Exit | src/kernel/process.cpp:424-440 | every description loses one reference per slot; it is freed exactly when these were all, and otherwise keeps node, offset and flags |
| FdTable.Kernel.Fork | src/kernel/process.cpp:379-383 | the child shares every slot and the counts grow by it |
| FdTable.Kernel.ImmediateExit | src/kernel/process.cpp:721-732 | the table is left as it is |
| FdTable.Kernel.Reap | src/kernel/process.cpp:458-479 | a zombie disappears; what its table still held stays counted as lost |
| FdTable.CountLost | src/kernel/process.cpp:721-732 | a client run: after a child has ended through sys__exit and been reaped, the count is 2 and one slot is left |
| FdTable.ChildExits | src/kernel/process.cpp:379-479 | a client run: what a parent has opened survives fork, exit and reaping of a child with offset and count |
| FdTable.SixteenFiles | src/kernel/kernel_vfs_phase4.cpp:56-82 | a client run: sixteen opens get the descriptors 0 to 15, the next one -24 |
| MessageQueue.InsertSorted | src/kernel/posix_ipc.cpp:403-417 | a later message keeps the list sorted by priority and age |
| MessageQueue.Queue.Predecessor | src/kernel/posix_ipc.cpp:404-412 | the node behind which the message belongs |
| MessageQueue.Queue.LinkIn | src/kernel/posix_ipc.cpp:403-419 | the relinking inserts at the place and keeps head, tail and count right |
| MessageQueue.Queue.Send | src/kernel/posix_ipc.cpp:379-422 | error cases; the message is pending behind all of the same or a higher priority |
| MessageQueue.Queue.Receive | src/kernel/posix_ipc.cpp:430-461 | the oldest message of the highest pending priority, cut to the buffer; the rest of the list stays linked |
| MessageQueue.SentIsReceivedOrPending | src/kernel/posix_ipc.cpp:379-461 | in every valid queue the sent messages are the multiset union of the received and the pending ones |
| MessageQueue.UrgentFirst | src/kernel/posix_ipc.cpp:379-461 | a client run: the more urgent of two messages is received first, the other one waits before a third |
| Regex.AcceptsStar | apps/include/regex.h:20-26 | `c*` followed by the rest accepts a text exactly when some run of matching characters leads to a text the rest accepts |
| Regex.Operators | apps/include/regex.h:42-52 | what a pattern with `*`, `+` or `?` behind its first character accepts, in terms of the rest of the pattern as it is written |
| Regex.Plain | apps/include/regex.h:38-55 | what it accepts when it starts with any other character, `.` and `$` included |
| Regex.EndIsLast | apps/include/regex.h:40-41 | only a final `$` means the end of the text |
| Regex.MatchStar | apps/include/regex.h:20-26 | the loop decides membership for `*` |
| Regex.MatchPlus | apps/include/regex.h:28-35 | the loop decides membership for `+` |
| Regex.MatchHere | apps/include/regex.h:37-56 | accepts exactly when a prefix of the text is in the denoted language, the whole text if the pattern ends in `$` |
| Regex.Match | apps/include/regex.h:58-66 | the same for some suffix of the text, or the text itself after `^` |
| BlockHash.AbsorbFirst | apps/include/crypto.h:224-225 | completing the buffered block continues the fold over the message |
| Sha256.Padded | apps/include/crypto.h:237-250 | the padding of section 5.1.1 of FIPS 180-4 byte by byte: a one bit, fewer than 64 zero bytes, the length in bits in network order |
| Sha256.DigestWords | apps/include/crypto.h:253-255 | each four bytes of the digest are a word of the state in network order |
| Sha256.InitialWords | apps/include/crypto.h:202-210 | section 5.3.3 of FIPS 180-4: the initial words are the first 32 fractional bits of the square roots of the first eight primes |
| Sha256.ShortHash | apps/include/crypto.h:237-256 | a message of less than 56 bytes takes one compression of its padded form |
| Sha256.Context.Update | apps/include/crypto.h:214-235 | the context absorbs the data: state and buffer are those of the longer message |
| Sha256.Context.Final | apps/include/crypto.h:237-256 | the digest is the fold over the message padded as in section 5.1.1 of FIPS 180-4 |
| Sha256.HashAll | apps/include/crypto.h:258-264 | one-shot hashing |
| Sha256.HashParts | apps/include/crypto.h:214-256 | every split into updates gives the hash of the whole |
| Md5.CountedBits | apps/include/crypto.h:87-91 | the two-word counter with its carry is 8 times the length modulo 2^64 |
| Md5.CountedIndex | apps/include/crypto.h:87 | the low word gives the number of buffered bytes |
| Md5.Padded | apps/include/crypto.h:105-117 | the padding of sections 3.1 and 3.2 of RFC 1321 byte by byte, with the length low byte first |
| Md5.DigestWords | apps/include/crypto.h:119-121 | section 3.5 of RFC 1321: each four bytes of the digest are a word of the state, low byte first |
| Md5.InitialWords | apps/include/crypto.h:77-81 | section 3.3 of RFC 1321: the initial words are the bytes 01 23 45 67 and so on |
| Md5.ShortHash | apps/include/crypto.h:105-122 | a message of less than 56 bytes takes one compression of its padded form |
| Md5.Context.Update | apps/include/crypto.h:85-103 | the context absorbs the data |
| Md5.Context.Final | apps/include/crypto.h:105-122 | the digest is the fold over the message padded as in sections 3.1 and 3.2 of RFC 1321 |
| Md5.HashAll | apps/include/crypto.h:124-130 | one-shot hashing, for every 32-bit length |
| Md5.HashParts | apps/include/crypto.h:85-122 | every split into updates gives the hash of the whole |
| Checksum.NetChecksum | src/kernel/net_stack.cpp:176-194 | the one's-complement checksum for every length; the 32-bit accumulator never wraps |
| Checksum.SimpleChecksum | src/kernel/net.cpp:16-28 | right if and only if the plain word sum fits 32 bits |
| Checksum.TooLong | src/kernel/net.cpp:16-28 | 131076 bytes of 0xFF have a word sum that does not fit |
| Checksum.PseudoFields | src/kernel/net_stack.cpp:198-204 | the fields of the pseudo-header of section 3.1 of RFC 9293: addresses as they lie in memory, zero, protocol 6, length in network order |
| Checksum.Example | src/kernel/net_stack.cpp:176-194 | the example of section 3 of RFC 1071 |
| Checksum.TcpChecksumCopied | src/kernel/net_stack.cpp:196-217 | the checksum of pseudo-header and segment, or 0 without memory |
| Checksum.TcpChecksumInPlace | src/kernel/tcp.cpp:137-170 | the same value, summed in place, for every segment length |
| Checksum.Recheck | src/kernel/net_stack.cpp:261-261 | storing the checksum in its zeroed field makes the re-check 0 |
| Calendar.NextDayOfWeek | apps/include/userlib.h:375-392 | the next day has the next weekday, over months, leap days, years and centuries |
| Calendar.Counting | apps/include/userlib.h:383-392 | counting from Monday, 1 January of year 1, gives the formula's weekday for every date |
| Calendar.Reached | apps/include/userlib.h:375-380 | day-by-day counting reaches every valid date |
| Calendar.MonthLengths | apps/include/userlib.h:375-380 | thirty days have April, June, September and November, February has 28 or in a leap year 29, the others have 31 |
| Calendar.NewYear | apps/include/userlib.h:375-380 | counted day by day, y years have 365 * y + y / 4 - y / 100 + y / 400 days |
| TextBuffer.TypedFlat | apps/notepad.cpp:291-310 | inserting into a line is inserting into the flat string |
| TextBuffer.SplitFlat | apps/notepad.cpp:337-355 | splitting a line is typing a newline |
| TextBuffer.MergedFlat | apps/notepad.cpp:313-320 | joining two lines is erasing a newline |
| TextBuffer.TypeThenErase | apps/notepad.cpp:291-335 | on the flat string, typing and then erasing restores text and cursor |
| TextBuffer.Buffer.TypeAndErase | apps/notepad.cpp:291-356 | in the editor, a character or a newline typed and erased leaves lines, row and column as they were |
| TextBuffer.FlatInjective | apps/notepad.cpp:157-165 | flat string and position determine lines, row and column |
| TextBuffer.LoadAfterSave | apps/notepad.cpp:245-280 | loading what was saved restores the lines if and only if the text has at most 32768 characters and no carriage return |
| TextBuffer.ReturnLost | apps/notepad.cpp:245-280 | a line that is a carriage return comes back empty |
| TextBuffer.Buffer.InsertLineAt | apps/notepad.cpp:207-223 | growth and shifting insert one line |
| TextBuffer.Buffer.RemoveLineAt | apps/notepad.cpp:225-233 | shifting removes one line; out of range nothing happens |
| TextBuffer.Buffer.InsertChar | apps/notepad.cpp:291-310 | the flat string and cursor after typing a character |
| TextBuffer.Buffer.Backspace | apps/notepad.cpp:312-335 | the flat string and cursor after erasing |
| TextBuffer.Buffer.Newline | apps/notepad.cpp:337-356 | the flat string and cursor after a newline |
| TextBuffer.Buffer.Load | apps/notepad.cpp:245-266 | the lines of the first 32768 characters without carriage returns and NULs |
| TextBuffer.Buffer.Save | apps/notepad.cpp:268-280 | the lines joined by newlines |

## Left out

- GetOrder: sizes above 2^31 are excluded, because the source's doubling loop does not end for them; the same bound is on KmallocReal, Alloc and Free.
- GetOrderFloor: sizes of 2^31 and more are excluded for the same reason, and with them ranges of 2 GiB and more in Fill and both constructors.
- Free, Kfree: only live pointers are freed; the slab has no double-free check, so a second free is outside the model.
- SlabCreate: the `prev` pointers of slabs are written as in the source (LinkPrev says where), but nothing reads them and no invariant speaks of them; the cache pointer in a slab header is modelled as the cache's index.
- Memory is word-addressed: the allocators' own writes and memset are modelled on words; owners may write single bytes.
- Interrupt enabling and disabling in the allocators; each call is sequential.
- WriteVfs: the offset argument is ignored by the source and is no parameter here; the directory lookup whose result the source drops is left out.
- ReadFile: the buffer must have room for whole sectors, as the caller in the source allocates it.
- Subdirectories, mkdir, readdir, rename and the VFS node wrappers of the FAT16 driver.
- Constructor of Volume: mounting requires a volume whose chains and directory are well-formed; a damaged one is covered only by FreeChain.
- Create: the parent must be a directory in use; the source does not check it.
- fs_create_secure, journaling and the VFS wrappers of the inode file system; block freeing, which nothing calls.
- Step (Barrier): the mutex has the default type, thread ids are at least 1, counters are mathematical integers; `schedule()` inside the spin loops is the freedom to run any thread next.
- Step (RwLock): one step is a whole section under the inner mutex, which Barrier's model shows to be exclusive; counters are mathematical integers.
- Context switching, kernel stacks and page directories in schedule(); sleeping and signals appear only as events that change states.
- Open: path resolution and the node's hooks; the address that kmalloc returns is a parameter.
- AddRef: reference counts are mathematical integers; their 32-bit wrap-around is not modelled.
- dup and dup2 (`src/kernel/syscall.cpp`), pipes, sockets and terminals, which create descriptions in the same way as v_open.
- DupFd: the argument is not negative; the source would index below the table.
- mq_open, mq_close, mq_unlink and the search by name; the model is one open queue.
- The compression functions of SHA-256 and MD5: every theorem holds for an arbitrary one. base64, SHA-1 and hex helpers.
- Update: lengths for which the 32-bit sum in a guard wraps are excluded, exactly; the source then leaves its buffers.
- regex_find, whose end is not a longest match, regex_replace and glob_match.
- InsertChar: NUL and newline are not typed as characters; the application sends newlines to newline() and types printable characters only.
- Drawing, scrolling and the rest of the editor application; drivers, GUI and stub layers.
