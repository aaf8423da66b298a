# Models of the Linux 0.11 kernel

Linux 0.11 is small C over fixed tables. This project models five of its cores in Dafny and proves
what each of them is for. `dafny verify dfyconfig.toml` checks everything.

| core | files |
|---|---|
| paging and copy-on-write | `PageTables`, `PageSteps`, `AddressSpaces`, `FreeFrames`, `KernelMemory`, `MemoryManager` |
| storage: zone trees, files, truncation | `ZoneTree`, `FileBytes`, `Truncation`, `FileRuns`, `FileSystem` |
| storage: buffer cache and block requests | `CacheProtocol`, `LinkedLists`, `BufferCache`, `Elevator`, `RequestPool` |
| scheduler, wait queues, pipes | `Scheduler`, `WaitQueues`, `Pipes` |
| kernel allocator | `BucketPages`, `Malloc` |
| terminal, console, argument packing | `TtyQueues`, `LineDiscipline`, `Terminal`, `ControlSequences`, `VideoMemory`, `Console`, `ExecArgs` |

Code that updates tables in place is a class over arrays (or sequences that grow) with one method per
C routine; its contracts tie the new state to a function of the old one, and the properties are proved
of those functions. Where tasks interleave at sleep points (buffer cache, wait queues, pipes) the model
is a transition system: the kernel is not preempted, so a step is what runs between two such points, and
any interleaving of steps is a run.

How the state is represented:

- A word of memory is a record of the bit fields the paging code uses; frames and pages are numbers.
- Pointers into tables (buffer heads, request slots, bucket descriptors, tasks) are indices, NULL is -1.
- Console addresses count cells of two bytes from the start of video memory; columns come in pairs,
  because the scrolling code copies two cells at a time.
- The page-table model keeps a set `held` of frames the kernel itself got and has not mapped.

Where the code differs from what it seems to mean, the model follows the code:

- Copy-on-write does not protect a page against stores by the kernel. `verify_area` (`kernel/fork.c:25-38`)
  unshares pages ahead of a system call, but the store comes later, after the task may have slept
  (`fs/read_write.c:64`), and ignores the read-only bit, since `boot/head.s:53-61` leaves the write-protect
  bit of cr0 clear. A page that was absent at verification can be shared in by the fault of the store
  (`mm/memory.c:261-265`), and a page that was verified can be shared out by another task
  (`mm/memory.c:292-335`); either way the store changes the other task's page.
  AddressSpaces.StoreAfterSharingIn, StoreAfterSharingOut and KernelStoreLeaks are those inputs,
  KernelStoreExact says when a store is right, and CopyOnWriteIsEager is about runs whose kernel stores are.
- `fs/buffer.c:166` writes through `b_next` without a null test; the model adds that test.
- `fs/exec.c:128` tests an unsigned value for being negative, so it never fires; "the strings fit" is a
  precondition here.
- A `#!` script started with no argv[0] ends with argc one too small (`fs/exec.c:263`).
- After ESC, `kernel/chr_drv/console.c:505-508` look at the cursor column (55 and 56) where the
  characters 7 and 8 are meant.
- A canonical read in `kernel/chr_drv/tty_io.c` does not stop at a newline; it stops at an end-of-file
  character, at nr, or when the queue is empty.

## Model

| member | source | states |
|---|---|---|
| PageTables.CountAtMost63 | linux.0.11.code/mm/memory.c:57 | all mappings of a pageable frame share one task-relative address, so its one-byte count never exceeds 63 and cannot wrap or reach the 100 of a reserved frame |
| PageTables.BootedInv | linux.0.11.code/mm/memory.c:400-412 | the table mem_init leaves, free in [start, end) and USED elsewhere, meets the paging invariant when no task but task 0 has a page table |
| PageSteps.GetFreeInv | linux.0.11.code/mm/memory.c:63-84 | a page handed out was mapped nowhere, comes zeroed and shows in no task; none is returned only when every count is non-zero; counts, exclusiveness of writable pages and table well-formedness survive |
| PageSteps.CopyEntryInv | linux.0.11.code/mm/memory.c:171-190 | sharing one page at fork shows the parent page to the child and changes no other view, while counts stay equal to mappings plus holds |
| PageSteps.FreeEntryInv | linux.0.11.code/mm/memory.c:120-135 | dropping one mapping takes the page from that task only and keeps the counts exact |
| PageSteps.UnWpInv | linux.0.11.code/mm/memory.c:221-239 | after a write fault the page is writable and private with the words it had; on failure nothing changed and no page was free |
| PageSteps.PutPageInv | linux.0.11.code/mm/memory.c:197-219 | a held page becomes visible at exactly one address, with its words |
| PageSteps.PageInInv | linux.0.11.code/mm/memory.c:274-283 | demand loading shows the loaded words at the address and nothing else changes |
| PageSteps.ShareInv | linux.0.11.code/mm/memory.c:292-339 | sharing a clean page of another task shows that page, keeps all counts and leaves both mappings read-only |
| PageSteps.StoreInv | linux.0.11.code/mm/memory.c:221-259 | a store through a writable entry is seen by the one task that owns the page: writable means sole mapping |
| PageSteps.StoreShows | linux.0.11.code/boot/head.s:53-61 | a store through a present entry, writable or not, shows at every page that maps the frame, and nowhere else; counts and holds stay |
| AddressSpaces.CopyDirsInv | linux.0.11.code/mm/memory.c:150-195 | copying a range of page tables either shows the whole range to the child or stops for lack of memory; in both cases every invariant holds and no other view changed |
| AddressSpaces.FreeDirsInv | linux.0.11.code/mm/memory.c:105-141 | freeing a range empties exactly that range |
| AddressSpaces.ForkRollback | linux.0.11.code/kernel/fork.c:54-61 | a fork that runs out of memory and is rolled back restores every count, every held frame, every mapping target and every view of every task |
| AddressSpaces.VerifyRefines | linux.0.11.code/mm/memory.c:261-272 | write_verify changes nothing a task reads, and leaves a page that is present writable |
| AddressSpaces.VerifiedStoreIsPrivate | linux.0.11.code/kernel/fork.c:25-38 | a kernel store right after its verification, with nothing in between, is into a page of the task alone |
| AddressSpaces.KernelStoreExact | linux.0.11.code/boot/head.s:53-61 | a kernel store keeps the paging invariant and is the store of a machine that never shares if and only if the frame is pageable and is either mapped once or already holds the word |
| AddressSpaces.StoreAfterSharingIn | linux.0.11.code/mm/memory.c:261-265 | false of the code, first input: a page absent at verification is shared in by the fault of the store, and the store changes the other task too |
| AddressSpaces.StoreAfterSharingOut | linux.0.11.code/mm/memory.c:292-335 | false of the code, second input: a page verified or writable is shared out by another task before the store, and the store shows there too |
| AddressSpaces.KernelStoreLeaks | linux.0.11.code/fs/read_write.c:64 | a concrete run from boot in which a verified store of task 2 changes what task 1 reads |
| AddressSpaces.StepRefines | linux.0.11.code/mm/memory.c:105-283 | each kernel step on shared pages, but a kernel store into a shared one, is on what tasks read the step of a machine that never shares anything |
| AddressSpaces.CopyOnWriteIsEager | linux.0.11.code/mm/memory.c:150-272 | over any run of forks (the first, from task 0, included), exits, loads, shares, user writes, verifications, kernel stores and puts of held pages, in which each kernel store is private when it happens, every page of every task reads as if each fork had copied every page at once |
| AddressSpaces.CopyOnWriteFromBoot | linux.0.11.code/mm/memory.c:400-412 | the same for every such run from the state mem_init leaves |
| AddressSpaces.FirstForkRefines | linux.0.11.code/mm/memory.c:164-188 | a fork of task 0 shows its child the 160 pages of the kernel's first 640 kB, uncounted, and nothing else, or leaves no trace |
| KernelMemory.TaskZeroCanFork | linux.0.11.code/boot/head.s:225-239 | after any such run from boot the kernel's own slots and low memory are as the boot code left them, so task 0 can be forked into any free slot |
| FreeFrames.ShareAnswers | linux.0.11.code/mm/memory.c:292-335 | a page is shared if and only if the other task has it present, clean and pageable, unless a table is needed and every count is non-zero; both entries end up read-only |
| FreeFrames.StoredNotShared | linux.0.11.code/mm/memory.c:310-312 | after a store into a page, of its task or of the kernel, no other task is given it |
| FreeFrames.ForkKeepsBits | linux.0.11.code/mm/memory.c:174-184 | fork copies an entry bit by bit but for the writable bit, which goes in both tasks |
| FreeFrames.UnWpAnswers | linux.0.11.code/mm/memory.c:221-239 | a write fault fails only for a page that others have too and only without a free frame; a sole owner keeps its frame, any other gets one that was free |
| FreeFrames.PageInAnswers | linux.0.11.code/mm/memory.c:274-283 | a page comes in if and only if there is a free frame for it and one for a table when there is none |
| FreeFrames.CopyMemAnswers | linux.0.11.code/kernel/fork.c:40-64 | copy_mem succeeds if and only if there are as many free frames as the parent has page tables; then the child has the parent pages, else no count and no view has changed |
| FreeFrames.ForkAnswers | linux.0.11.code/mm/memory.c:150-189 | a range copy succeeds if and only if there are as many free frames as present tables in the range |
| MemoryManager.Memory.constructor | linux.0.11.code/mm/memory.c:400-412 | the loops mark all frames used and then free [start, end), which establishes the invariant |
| MemoryManager.Memory.GetFreePage | linux.0.11.code/mm/memory.c:63-84 | the backward scan of mem_map finds the last zero byte, marks it and clears the page |
| MemoryManager.Memory.FreePageTables | linux.0.11.code/mm/memory.c:105-141 | the nested loops compute the range release, with no count underflow (the "trying to free free page" panic is never reached) |
| MemoryManager.Memory.CopyPageTables | linux.0.11.code/mm/memory.c:150-195 | the nested loops compute the range copy, including the 640 KB special case of the first fork and the failure return |
| MemoryManager.Memory.CopyMemory | linux.0.11.code/kernel/fork.c:40-64 | copy_mem leaves either a full copy or the rolled-back state |
| MemoryManager.Memory.UnWpPage | linux.0.11.code/mm/memory.c:221-239 | both branches (sole owner, shared) compute the value-level step |
| MemoryManager.Memory.WriteVerifyPage | linux.0.11.code/mm/memory.c:261-272 | the tests on table and entry compute the value-level step |
| MemoryManager.Memory.LoadPageAt | linux.0.11.code/mm/memory.c:274-283 | the page is taken, filled and entered, or given back when there is none for a table |
| MemoryManager.Memory.TryToShare | linux.0.11.code/mm/memory.c:292-339 | the checks on both tables and the protection of both entries compute the value-level step |
| ZoneTree.NewBlockKeeps | linux.0.11.code/fs/bitmap.c:75-105 | a new zone was unmarked, becomes marked and zeroed, and no tree or byte of any file changes |
| ZoneTree.NewBlockFinds | linux.0.11.code/fs/bitmap.c:84-98 | a zone is found if and only if the bit of some zone of the device is clear, and it is the lowest such |
| ZoneTree.NewBlockMarks | linux.0.11.code/fs/bitmap.c:84-96 | new_block sets the lowest clear bit, past the last zone too, and no other |
| ZoneTree.CreateAtKeeps | linux.0.11.code/fs/inode.c:72-138 | creating a place of the zone tree, with the indirect zones on its way, keeps all zones of all inodes pairwise distinct, in range and marked; only places on that way get zones |
| ZoneTree.CreateBlockMaps | linux.0.11.code/fs/inode.c:72-148 | after create_block the block maps to the returned zone, a failure (zone 0) leaves every mapping as it was, and no other (inode, block) mapping moves |
| ZoneTree.OnDisk | linux.0.11.code/fs/inode.c:80-138 | which bytes of which blocks name the zone of a logical block: seven in the inode, 512 in one block, the rest two levels down, low byte first |
| ZoneTree.CreateAtAgain | linux.0.11.code/fs/inode.c:140-148 | a place that has a zone keeps returning it and changes nothing |
| FileBytes.PutBytesSpec | linux.0.11.code/fs/file_dev.c:66-82 | storing into one zone changes the bytes of one block of one file |
| FileBytes.FileWriteSpec | linux.0.11.code/fs/file_dev.c:48-90 | a write refines the sparse byte array: the first k bytes land at their positions, every other byte of every file keeps its value (new zones read as zero around them) and the size becomes the maximum |
| FileBytes.ReadAfterWrite | linux.0.11.code/fs/file_dev.c:17-90 | reading back gives what was written; reads elsewhere in the file or of other files are unchanged |
| FileBytes.WriteFails | linux.0.11.code/fs/file_dev.c:63-65 | a write ends early only with every zone of the device marked, and without changing any content |
| Truncation.TruncateSpec | linux.0.11.code/fs/truncate.c:47-64 | the bits of exactly the zones of this inode go from set to clear, every other bit and every other tree is kept, and the forest stays well formed |
| Truncation.TruncateContents | linux.0.11.code/fs/truncate.c:47-64 | the file reads as empty with size 0, all other files read as before |
| Truncation.FreedFile | linux.0.11.code/fs/truncate.c:11-64 | the zones cleared one field at a time are together the zones the inode owned |
| FileRuns.FilesFromEmpty | linux.0.11.code/fs/file_dev.c:48-90 | over any run of writes and truncations from a device without files, every file reads as the plain array with the same bytes put in, has that array's size, and is zero past it |
| FileSystem.Device.constructor | linux.0.11.code/fs/super.c:142-162 | a mounted device is the disk with bit 0 of the zone bitmap set, and well formed when that is, as it is when no inode names a zone (EmptyForest) |
| FileSystem.Device.FindFirstZero | linux.0.11.code/fs/bitmap.c:31-45 | the word-wise scan finds the lowest clear bit of a bitmap block |
| FileSystem.Device.NewZone | linux.0.11.code/fs/bitmap.c:75-105 | the scan over eight bitmap blocks and the range test compute the allocation step: 0 exactly when no bit of a zone is clear |
| FileSystem.Device.CreateZone | linux.0.11.code/fs/inode.c:72-148 | the branches of _bmap compute the recursive tree creation |
| FileSystem.Device.Bmap | linux.0.11.code/fs/inode.c:72-143 | lookup without creation returns the zone of the place, 0 when any level is missing |
| FileSystem.Device.WriteFile | linux.0.11.code/fs/file_dev.c:48-90 | the chunk loop computes the byte-level write, appends included, and advances f_pos; the size grows to where it got, and it gets less far than asked only when no zone is left |
| FileSystem.Device.ReadFile | linux.0.11.code/fs/file_dev.c:17-46 | the chunk loop returns the bytes of the sparse array, zeros in holes |
| FileSystem.Device.FreeInd | linux.0.11.code/fs/truncate.c:11-27 | each entry and then the block itself is freed once; the "bit already cleared" panic is never reached |
| FileSystem.Device.Truncate | linux.0.11.code/fs/truncate.c:47-64 | directories and regular files are emptied, anything else is left alone |
| CacheProtocol.StepKeeps | linux.0.11.code/fs/buffer.c:186-284 | every step between two sleep points, of any task or of the disk, keeps: one buffer per device block, counts equal to holders, buffers transparent over the disk |
| CacheProtocol.RunKeeps | linux.0.11.code/fs/buffer.c:186-284 | the same three facts hold after any run of such steps |
| CacheProtocol.ReadersSeeLatest | linux.0.11.code/fs/buffer.c:270-284 | what bread returns is the last data a client put in that block, else what the disk has, however tasks and transfers interleave, and no second buffer has the block |
| CacheProtocol.ReadCompletes | linux.0.11.code/fs/buffer.c:206-284 | a read of a block gets its buffer: from the cache with no transfer when it is up to date, else by one transfer, through any unused, clean and unlocked buffer when the block is not cached |
| CacheProtocol.LookupGoes | linux.0.11.code/fs/buffer.c:210-230 | a lookup counts itself in at the buffer of the block when there is one, goes for an unused buffer when not, and sleeps exactly when all are in use |
| CacheProtocol.VictimTaken | linux.0.11.code/fs/buffer.c:231-253 | the buffer waited for is taken exactly when it is unused and clean and the block has not come in meanwhile |
| CacheProtocol.SyncCompletes | linux.0.11.code/fs/buffer.c:62-85 | writing a dirty buffer out leaves it clean, the disk with its data, and every other block as it was |
| CacheProtocol.HitKeeps | linux.0.11.code/fs/buffer.c:186-199 | the re-check after waiting in get_hash_table succeeds: a held buffer is never re-keyed |
| CacheProtocol.RekeyedOnlyWhenFree | linux.0.11.code/fs/buffer.c:231-252 | a buffer changes its block only when unused, clean and unlocked |
| CacheProtocol.ClaimKeeps | linux.0.11.code/fs/buffer.c:240-253 | taking a victim after the second find_buffer keeps one buffer per block |
| LinkedLists.RingRemove | linux.0.11.code/fs/buffer.c:146-149 | unlinking a buffer leaves the other buffers a ring in the same order |
| LinkedLists.RingInsert | linux.0.11.code/fs/buffer.c:155-158 | the buffer becomes the last of the ring |
| LinkedLists.ChainRemove | linux.0.11.code/fs/buffer.c:137-142 | unlinking from a hash chain leaves the other buffers of the chain in order |
| LinkedLists.ChainInsert | linux.0.11.code/fs/buffer.c:160-166 | the buffer becomes the first of the chain |
| BufferIndex.UnhashKeeps | linux.0.11.code/fs/buffer.c:137-142 | every other keyed buffer stays in exactly the chain of its own hash |
| BufferIndex.HashKeeps | linux.0.11.code/fs/buffer.c:160-166 | the buffer joins the chain of its new key; a buffer without a device joins none |
| BufferCache.Cache.constructor | linux.0.11.code/fs/buffer.c:351-384 | the table starts as one ring of unkeyed, clean, unlocked buffers and empty chains |
| BufferCache.Cache.FindBuffer | linux.0.11.code/fs/buffer.c:169-177 | a buffer is found exactly when some buffer has the key |
| BufferCache.Cache.PickVictim | linux.0.11.code/fs/buffer.c:208-226 | no victim exactly when every buffer is in use; a dirty one only when all idle ones are, a locked one only when no idle one is unlocked and as clean; and the first such in ring order |
| BufferCache.Cache.RemoveFromQueues | linux.0.11.code/fs/buffer.c:134-150 | the buffer leaves its chain and the ring; everything else stays linked |
| BufferCache.Cache.InsertIntoQueues | linux.0.11.code/fs/buffer.c:152-167 | the buffer goes to the end of the ring and the front of its chain |
| BufferCache.Cache.Hit | linux.0.11.code/fs/buffer.c:194-198 | after the wait the buffer is still for the block, or the hold is given back |
| BufferCache.Cache.Victim | linux.0.11.code/fs/buffer.c:231-253 | from the wake-up to the return, whatever happened meanwhile: repeat exactly when the victim is held, or clean and the block cached by now; sync exactly when it is idle and dirty; else it is taken, and the cache stays valid |
| BufferCache.Cache.Getblk | linux.0.11.code/fs/buffer.c:209-253 | up to the first sleep point or the return: a cached block is held; else the first clean and unlocked idle buffer is taken at once if there is one, a dirty one is synced only if all idle ones are dirty, a locked one waited for only if none is clean and unlocked; nothing idle exactly when all are held |
| BufferCache.Cache.Claim | linux.0.11.code/fs/buffer.c:244-253 | re-keying keeps the ring, the chains and one buffer per block; count is 1, dirt and uptodate are clear |
| Elevator.AddKeepsSweeps | linux.0.11.code/kernel/blk_drv/ll_rw_blk.c:72-84 | insertion keeps at most one descent in a queue of distinct keys: two ascending sweeps |
| Elevator.PopKeepsSweeps | linux.0.11.code/kernel/blk_drv/blk.h:123-124 | serving the head keeps the two sweeps |
| Elevator.SweepIsSorted | linux.0.11.code/kernel/blk_drv/blk.h:35-43 | within a sweep reads are served before writes, and each kind by device and sector |
| Elevator.AddPlaces | linux.0.11.code/kernel/blk_drv/ll_rw_blk.c:78-84 | the exact place of an insertion: after the first request that it follows in order, or that ends the first sweep, and whose successor it precedes; else at the end |
| Elevator.ServeNearer | linux.0.11.code/kernel/blk_drv/blk.h:109-125 | serving another request brings a waiting one strictly nearer |
| Elevator.ArriveSame | linux.0.11.code/kernel/blk_drv/ll_rw_blk.c:72-84 | an arrival never pushes a waiting request further away |
| Elevator.Fair | linux.0.11.code/kernel/blk_drv/ll_rw_blk.c:64-86 | while a request waits, whatever arrives, at most the first head, the keys above it and the keys below its own are served before it, and each one served lowers what is left of that bound |
| RequestQueues.JoinKeeps | linux.0.11.code/kernel/blk_drv/ll_rw_blk.c:78-85 | splicing a filled slot keeps every slot free or in exactly one queue once, and writes out of the upper third |
| RequestQueues.ServeKeeps | linux.0.11.code/kernel/blk_drv/blk.h:121-124 | popping the head frees exactly its slot |
| BlockRequests.DisjointSectors | linux.0.11.code/kernel/blk_drv/ll_rw_blk.c:133-137 | a queued request is for its buffer's device and the two sectors of its block, and no two for one device overlap |
| BlockRequests.RoomForReads | linux.0.11.code/kernel/blk_drv/ll_rw_blk.c:110-122 | at most 21 slots hold writes; when nothing is free the other 11 all hold reads |
| BlockRequests.QueueKeepsLocks | linux.0.11.code/kernel/blk_drv/ll_rw_blk.c:132-142 | queueing a locked buffer keeps: locked exactly while it has one queued request or its maker waits for a slot |
| BlockRequests.ServeKeepsLocks | linux.0.11.code/kernel/blk_drv/blk.h:109-125 | end_request unlocks exactly the buffer it served |
| BlockRequests.JoinKeepsSweeps | linux.0.11.code/kernel/blk_drv/ll_rw_blk.c:72-85 | the keys along a device queue change exactly as the elevator inserts |
| BlockRequests.BlockLayer.FindSlot | linux.0.11.code/kernel/blk_drv/ll_rw_blk.c:115-122 | a free slot is found exactly when one is free below the limit of the command, the highest such |
| BlockRequests.BlockLayer.AddRequest | linux.0.11.code/kernel/blk_drv/ll_rw_blk.c:64-86 | the queue gets the elevator insertion, the buffer is clean, all invariants hold |
| BlockRequests.BlockLayer.LlRwBlock | linux.0.11.code/kernel/blk_drv/ll_rw_blk.c:88-155 | for each command: refused, ignored, nothing to do, dropped, asleep or queued, exactly when, and with which state afterwards; when queued, a slot that was free holds a read or write of 512 * sector = 1024 * block on the buffer's device |
| BlockRequests.BlockLayer.EndRequest | linux.0.11.code/kernel/blk_drv/blk.h:109-125 | the head leaves its queue and its buffer is unlocked with the given status |
| Scheduling.CountersBounded | linux.0.11.code/kernel/sched.c:136-139 | over any run of ticks, schedule calls, forks and other changes, every counter stays below twice the priority as long as those changes (nice) keep it so in their slot |
| Scheduling.SettledSlot | linux.0.11.code/kernel/sched.c:111-139 | what schedule() leaves in each slot: slot 0 as it was, any other woken, with half its counter and its priority on top exactly when somebody can run and nobody who can has time left |
| Scheduling.WokenRest | linux.0.11.code/kernel/sched.c:113-116 | an alarm that is over sets the alarm signal and is switched off; nothing else of the task changes |
| Scheduling.WokenExactly | linux.0.11.code/kernel/sched.c:111-120 | an interruptible task becomes runnable if and only if a signal it does not block is pending or its alarm is over and the alarm signal is not blocked; a kill signal always counts; no other task changes state |
| Scheduling.WaitBound | linux.0.11.code/kernel/sched.c:104-142 | a task that stays runnable with time left is kept waiting for no more charged ticks than the others have time at first and are given meanwhile by forks and changes |
| Scheduling.NextIsReady | linux.0.11.code/kernel/sched.c:104-142 | when the others have no time left it is the next choice |
| Scheduling.Scheduler.constructor | linux.0.11.code/kernel/sched.c:385-401 | only task 0 is there, and it runs |
| Scheduling.Scheduler.Schedule | linux.0.11.code/kernel/sched.c:104-142 | the loops terminate after at most one recharge and pick the highest-numbered runnable task of maximal counter, task 0 when none; no other choice meets that |
| Scheduling.Scheduler.DoTimer | linux.0.11.code/kernel/sched.c:305-336 | a tick charges the running task and reschedules exactly when its time is up outside the kernel, and leaves a state in which the next tick can follow |
| WaitQueues.StepKeeps | linux.0.11.code/kernel/sched.c:151-194 | entering, resuming and waking keep the sleepers in disjoint acyclic tmp chains, each headed by a queue pointer or a woken task |
| WaitQueues.NobodyLost | linux.0.11.code/kernel/sched.c:151-194 | after any run from the state in which nobody sleeps, every sleeper hangs in one place, off its own queue or behind a runnable task that still has to resume |
| WaitQueues.WakeUpReachesAll | linux.0.11.code/kernel/sched.c:188-194 | after one wake_up the k-th sleeper is runnable after exactly k resumes along its chain, and until then a runnable task has the next of them to do |
| PipeRing.Ring.ReadChunk | linux.0.11.code/fs/pipe.c:24-35 | the copy loop takes exactly that chunk: bytes delivered followed by what stays are what was there |
| PipeRing.Ring.WriteChunk | linux.0.11.code/fs/pipe.c:54-65 | the copy loop stores exactly that chunk: what was there followed by the bytes taken is there now |
| PipeProtocol.ReadGoesOn | linux.0.11.code/fs/pipe.c:17-38 | a read is over exactly when it has all it wanted or the ring is empty and the writer gone; with bytes there it takes the oldest, with none and a writer it sleeps; it returns how many it got |
| PipeProtocol.WriteGoesOn | linux.0.11.code/fs/pipe.c:45-68 | a write is over exactly when all is written or the ring is full and the reader gone; with room it goes on behind all bytes there, with none and a reader it sleeps; it returns how many went in, or raises SIGPIPE with no reader and then returns -1 for none |
| PipeProtocol.CloseWakes | linux.0.11.code/fs/inode.c:157-160 | closing one end wakes the sleeper, keeps the bytes and the calls under way, and nobody goes to sleep from then on |
| PipeProtocol.Fifo | linux.0.11.code/fs/pipe.c:13-69 | over all interleavings of readers and writers on one ring from its creation, bytes written are bytes read followed by the at most 4095 in the ring |
| PipeProtocol.FreshPair | linux.0.11.code/fs/inode.c:228-243 | a new pipe meets the invariant of a reader and a writer |
| PipeProtocol.NeverBothAsleep | linux.0.11.code/fs/pipe.c:13-69 | from the creation of the pipe on, one reader and one writer never sleep in it at once; a sleeper's partner can go on, or has left with the pipe empty (full) |
| BucketPages.TakeFirst | linux.0.11.code/lib/malloc.c:168-170 | popping the threaded list yields its first object and leaves the rest threaded |
| BucketPages.PutFirst | linux.0.11.code/lib/malloc.c:205-206 | an object put back heads the list |
| BucketPages.LiveCount | linux.0.11.code/lib/malloc.c:52-58 | free list and live objects partition the page |
| KernelMalloc.LiveApart | linux.0.11.code/lib/malloc.c:117-173 | live blocks never overlap and none crosses a page |
| KernelMalloc.RefcntCounts | linux.0.11.code/lib/malloc.c:170-207 | refcnt is the number of live objects of the page |
| KernelMalloc.TakeKeeps | linux.0.11.code/lib/malloc.c:168-170 | one new live block; page ownership and all free lists stay right |
| KernelMalloc.PutKeeps | linux.0.11.code/lib/malloc.c:205-207 | one live block less, nothing else |
| KernelMalloc.StoreKeeps | linux.0.11.code/lib/malloc.c:168-172 | whatever a client stores in its block, the allocator is unharmed |
| KernelMalloc.MoveKeeps | linux.0.11.code/lib/malloc.c:213-227 | moving a descriptor between lists keeps every descriptor on exactly one list |
| KernelMalloc.CloseKeeps | linux.0.11.code/lib/malloc.c:225-227 | a page without live objects goes back and no page is lost or owned twice |
| KernelMalloc.Allocator.InitBucketDesc | linux.0.11.code/lib/malloc.c:97-115 | a page becomes 256 free descriptors |
| KernelMalloc.Allocator.OpenBucket | linux.0.11.code/lib/malloc.c:150-167 | a free page becomes a bucket with all objects threaded in order |
| KernelMalloc.Allocator.Malloc | linux.0.11.code/lib/malloc.c:117-173 | a block that was not live, of the smallest of 16, 32 ... 4096 bytes that fits; too large exactly above 4096; no memory exactly when no bucket page of that size has room and there is no page for one, or none besides the descriptors'; pages are taken only then |
| KernelMalloc.Allocator.FindPage | linux.0.11.code/lib/malloc.c:189-202 | the search ends at the descriptor of the block's page, with its predecessor |
| KernelMalloc.Allocator.Free | linux.0.11.code/lib/malloc.c:182-231 | exactly this block dies, and its page goes back exactly when it was the last on it |
| TtyQueues.TtyQueue.Getch | linux.0.11.code/include/linux/tty.h:31-32 | takes the oldest character |
| TtyQueues.TtyQueue.Putch | linux.0.11.code/include/linux/tty.h:33-34 | appends a character to a queue that is not full |
| LineEditing.FeedShows | linux.0.11.code/kernel/chr_drv/tty_io.c:149-226 | one typed character does to the queue what it does to a line editor, and finished lines never change |
| LineEditing.CookIsEdit | linux.0.11.code/kernel/chr_drv/tty_io.c:145-228 | the queue is the line editor's text for the consumed input, data counts its marks, erase and kill never cross a mark, and input is left only when the queue is full |
| LineEditing.Translations | linux.0.11.code/kernel/chr_drv/tty_io.c:151-160 | carriage return, newline and capitals become what the flags say, all else is taken as typed |
| LineEditing.Typings | linux.0.11.code/kernel/chr_drv/tty_io.c:161-225 | what each kind of typed character does to queue, count, stop flag and signals |
| LineEditing.NothingTyped | linux.0.11.code/kernel/chr_drv/tty_io.c:149-157 | a full queue takes nothing, and an ignored carriage return does nothing |
| LineEditing.MarksCount | linux.0.11.code/kernel/chr_drv/tty_io.c:223-224 | data counts the newlines and end-of-file characters |
| LineEditing.ReadEnds | linux.0.11.code/kernel/chr_drv/tty_io.c:261-272 | a read ends after nr characters, with an empty queue, or in canonical mode at the first end of file, which is taken and not delivered |
| LineEditing.SomeEditor | linux.0.11.code/kernel/chr_drv/tty_io.c:162-190 | any queue splits into finished lines and a line without marks, and kill leaves the former |
| LineEditing.ReadKeepsCount | linux.0.11.code/kernel/chr_drv/tty_io.c:261-272 | a read lowers data by the marks it takes |
| LineEditing.CanonicalRead | linux.0.11.code/kernel/chr_drv/tty_io.c:256-272 | a canonical read goes ahead only on a mark or an almost full queue, and delivers nothing only at an end-of-file character |
| LineEditing.RunShows | linux.0.11.code/kernel/chr_drv/tty_io.c:145-272 | over any mix of typing and reading from the empty terminal on, processes have read what a line editor with reads handed out, the queue is the text it still has and data counts its marks |
| LineEditing.Tty.CopyToCooked | linux.0.11.code/kernel/chr_drv/tty_io.c:145-228 | the loop over the ring queues computes the fold and keeps data the number of marks |
| LineEditing.Tty.Drain | linux.0.11.code/kernel/chr_drv/tty_io.c:261-272 | delivers up to nr characters and, in canonical mode, stops at an end-of-file character that it takes and does not deliver; data stays the number of marks |
| PackedStrings.ParsesBack | linux.0.11.code/fs/exec.c:59-68 | packing strings and parsing them undo each other |
| ArgPages.ViewStore | linux.0.11.code/fs/exec.c:132-146 | a byte stored through the page table shows at its address only |
| ArgPages.ArgArea.PutByte | linux.0.11.code/fs/exec.c:132-146 | the byte shows at p and nothing else changes, also when it is the first on its page and the page is new |
| ArgPages.ArgArea.CopyStrings | linux.0.11.code/fs/exec.c:104-152 | the strings lie packed below p across page boundaries and nothing else changed; 0 only without pages |
| ExecTables.FillTable | linux.0.11.code/fs/exec.c:59-68 | a zero-ended table whose pointers read back the strings |
| ExecTables.CreateTables | linux.0.11.code/fs/exec.c:46-70 | argc, argv and envp on the stack, tables below the strings, reading back exactly the strings |
| ExecTables.BuildStack | linux.0.11.code/fs/exec.c:310-334 | an ordinary program finds exactly its arguments and environment |
| ExecTables.SplicedIs | linux.0.11.code/fs/exec.c:261-286 | place by place: interpreter name, its argument if any, script, and the old argv from 1 on |
| ExecTables.BuildScriptStack | linux.0.11.code/fs/exec.c:261-286 | a script's interpreter finds [name, optional argument, script, old argv from 1] and the environment if and only if the caller passed an argv[0]; otherwise argc is one too small and what it finds instead is stated |
| ExecTables.ParseBang | linux.0.11.code/fs/exec.c:235-256 | the interpreter, its name after the last slash and the rest of the line, or none exactly when the line does not end or is blank |
| Terminals.StepsOk | linux.0.11.code/kernel/chr_drv/console.c:445-604 | for every byte stream x <= columns, y < lines, top < bottom <= lines |
| ControlSequences.CsiReads | linux.0.11.code/kernel/chr_drv/console.c:511-526 | ESC [ with up to sixteen decimal parameters hands the last letter their values modulo 2^32 |
| ControlSequences.QuestionSkipped | linux.0.11.code/kernel/chr_drv/console.c:511-517 | a question mark before the parameters makes no difference |
| ControlSequences.MovesUp | linux.0.11.code/kernel/chr_drv/console.c:532-535 | ESC [ A: so many rows up, at least one, or nowhere when that is off the screen; all else as before |
| ControlSequences.MovesDown | linux.0.11.code/kernel/chr_drv/console.c:536-539 | ESC [ B and e: the same downwards |
| ControlSequences.MovesRight | linux.0.11.code/kernel/chr_drv/console.c:540-543 | ESC [ C and a: to the right |
| ControlSequences.MovesLeft | linux.0.11.code/kernel/chr_drv/console.c:544-547 | ESC [ D: to the left |
| ControlSequences.MovesToLineStart | linux.0.11.code/kernel/chr_drv/console.c:548-555 | ESC [ E and F: to the start of a line further down or up, or nowhere |
| ControlSequences.MovesTo | linux.0.11.code/kernel/chr_drv/console.c:528-564 | ESC [ G, `, d, H and f: to a column, a row or both, counted from one, or nowhere |
| ControlSequences.SavesAndRestores | linux.0.11.code/kernel/chr_drv/console.c:596-601 | ESC [ s keeps the cursor's place and ESC [ u brings it back |
| ControlSequences.SetsRegion | linux.0.11.code/kernel/chr_drv/console.c:586-595 | ESC [ r sets the scrolling region when it is one inside the screen |
| ControlSequences.SetsAttribute | linux.0.11.code/kernel/chr_drv/console.c:299-311 | ESC [ m: the last parameter that names an attribute decides |
| ControlSequences.ErasesCells | linux.0.11.code/kernel/chr_drv/console.c:239-266 | ESC [ J, cell by cell |
| ControlSequences.ErasesInRow | linux.0.11.code/kernel/chr_drv/console.c:268-297 | ESC [ K, cell by cell |
| ControlSequences.InsertsLines | linux.0.11.code/kernel/chr_drv/console.c:350-361 | ESC [ L, cell by cell |
| ControlSequences.DeletesLines | linux.0.11.code/kernel/chr_drv/console.c:378-389 | ESC [ M, cell by cell |
| ControlSequences.DeletesCharacters | linux.0.11.code/kernel/chr_drv/console.c:363-376 | ESC [ P, cell by cell |
| ControlSequences.InsertsCharacters | linux.0.11.code/kernel/chr_drv/console.c:336-348 | ESC [ @, cell by cell |
| ControlSequences.OthersDoNothing | linux.0.11.code/kernel/chr_drv/console.c:525-603 | any other letter ends the sequence and does nothing |
| ControlSequences.Prints | linux.0.11.code/kernel/chr_drv/console.c:455-466 | a printable character with its attribute goes into the cursor's cell, after a line feed when the cursor is behind the last column |
| ControlSequences.FeedsLine | linux.0.11.code/kernel/chr_drv/console.c:467-468 | line feed, vertical tab, form feed and ESC D: a row further down, or the region scrolls |
| ControlSequences.FeedsBack | linux.0.11.code/kernel/chr_drv/console.c:499-500 | ESC M: a row further up, or the region scrolls down |
| ControlSequences.MovesBack | linux.0.11.code/kernel/chr_drv/console.c:469-479 | carriage return and backspace |
| ControlSequences.ErasesBack | linux.0.11.code/kernel/chr_drv/console.c:471-473 | the erase key goes back and blanks the cell |
| ControlSequences.Tabs | linux.0.11.code/kernel/chr_drv/console.c:480-488 | a tab goes to the next multiple of eight, on the next line when that is off the screen |
| ControlSequences.OthersAreIgnored | linux.0.11.code/kernel/chr_drv/console.c:455-491 | any other single character does nothing |
| ControlSequences.OtherEscapes | linux.0.11.code/kernel/chr_drv/console.c:494-509 | ESC E, ESC Z, and every other character after ESC in columns 55 and 56 |
| VideoMemory.UpShows | linux.0.11.code/kernel/chr_drv/console.c:141-167 | copying the region up and blanking its last row shows the rows moved up |
| VideoMemory.DownShows | linux.0.11.code/kernel/chr_drv/console.c:170-202 | copying the region down and blanking its first row shows the rows moved down |
| VideoMemory.OriginShows | linux.0.11.code/kernel/chr_drv/console.c:112-114 | moving the origin and blanking the new row shows the same as copying |
| VideoMemory.WrapShows | linux.0.11.code/kernel/chr_drv/console.c:115-129 | copying the screen back to the start of video memory, with a blank last row, shows the same as copying the rows up in place |
| Console.Display.ScrUp | linux.0.11.code/kernel/chr_drv/console.c:107-168 | the shown rows of the region move up one and the last is blank, on every adapter, whether by copying, by moving the origin or by wrapping; no cell outside the screen changes |
| Console.Display.ScrDown | linux.0.11.code/kernel/chr_drv/console.c:170-202 | the shown rows of the region move down one and the first is blank; no cell outside the screen changes |
| Console.Display.PutChar | linux.0.11.code/kernel/chr_drv/console.c:456-466 | prints at the cursor, wrapping and scrolling first when it is past the last column |
| Console.Display.CsiJ | linux.0.11.code/kernel/chr_drv/console.c:239-266 | erases rows exactly from, to, or regardless of the cursor |
| Console.Display.InsertCharacter | linux.0.11.code/kernel/chr_drv/console.c:336-348 | the row from the cursor on moves right one cell, a blank comes in and the last cell is lost |
| Console.Display.Repeat | linux.0.11.code/kernel/chr_drv/console.c:391-429 | a line or character is inserted or deleted the capped number of times; every cell that changed was on the screen at the time |
| Console.Display.Take | linux.0.11.code/kernel/chr_drv/console.c:453-603 | one byte moves the display to the terminal's next state; every cell that changed was on the screen at the time |
| Console.Display.ConWrite | linux.0.11.code/kernel/chr_drv/console.c:445-604 | any byte stream shows what the grid terminal shows, with pos = origin + y*row + x and scr_end = origin + lines*row throughout, and changes no cell outside the windows on video memory the screen has had meanwhile, each a hardware scroll from the one before (without that hardware, the one window) |

## Left out

- Concurrent copies: each chunk copy of a file or pipe transfer is one step, although `fs/file_dev.c:71`
  marks the buffer dirty before the copy and `fs/pipe.c:62` moves the head before it.
- Stray bitmap bits: `fs/bitmap.c:90-95` sets a bit before testing it against the device size; allocation
  facts are about zones in range.
- ZoneTree and FileSystem run one operation at a time; concurrent `_bmap` calls on one inode are not modelled.
- FileSystem.Device.ReadFile: reads as file_read does, which knows no file size; the trimming to i_size is in sys_read.
- I/O errors, and what happens after oom or a panic.
- `block_write`, which dirties a buffer it never marked up to date, and `breada`, which submits the wrong
  buffer: CacheProtocol has the clients of bread and new_block.
- `interruptible_sleep_on`, where a newcomer between wake-up and resume can strand a sleeper; WaitQueues
  has `sleep_on` and `wake_up` only, and task states other than asleep or not are not part of it.
- `add_timer`, whose deltas go wrong for later timers, and the floppy timers in do_timer.
- Pages below LOW_MEM, except that fork leaves their counts alone and nobody can write them through a task.
- PageSteps.ShareInv: does not say that the shared page equals the executable file, because a fresh entry
  (`mm/memory.c:235`) has its dirty bit clear.
- MemoryManager.Memory.CopyMemory: one limit for code and data; the base and limit registers of the
  descriptors are not part of the model.
- BufferCache.Cache.constructor: for a table of at least two buffers, so the ring never empties.
- BlockRequests.BlockLayer.LlRwBlock: starts where lock_buffer has seen the buffer unlocked; the wait before
  that belongs to WaitQueues, and the call of the driver on an empty queue is a later EndRequest.
- KernelMalloc.Allocator.Free: nothing runs between the search and the unlinking, so `prev` is never stale.
- ExecTables.CreateTables: the longs of the tables are kept apart from the bytes of the strings; the contract
  says that they lie below them.
- LineEditing.Tty.CopyToCooked: no echo, and no waking of readers; tty_read is modelled as the loop that empties
  the queue, without its sleeping, alarms and signals.
- Console.Display.ConWrite: no reply to ESC Z, no bell, no hardware cursor; the write queue is a sequence of
  characters.
- `invalidate_buffers` (`fs/buffer.c:87-100`), which clears uptodate and dirt of buffers somebody may hold, so a
  holder's data is no longer what CacheProtocol calls latest; it runs on a floppy change only.
- `bread_page`, whose four reads are the `words` of LoadPage; and `free_block` keeping the zone when its buffer
  is held (`fs/bitmap.c:57-61`): Truncation frees zones whose buffers nobody holds.
- FileSystem.Device.constructor: mkfs is not part of this repository, so the disk to mount is a parameter.
- The inode cache (`iget`, `iput`, `get_empty_inode`), inode bitmaps, super blocks, path walking, permissions,
  mount, signals beyond waking, ids, ioctl, stat, system call wrappers, boot code and assembly.
