# Models and proofs for the ver05 kernel

This project models the parts of the `ver05` kernel (a Linux 0.12 study) whose state is the
hardest to keep right, and proves what they promise. `dafny verify dfyconfig.toml` checks it.

The kernel is not preempted while it runs: `do_timer` returns at once when the tick hit kernel
mode (ver05/kernel/sched.c:239). A stretch of code between two sleep points is therefore one
atomic step, and the concurrent parts are proved over every interleaving of such steps.

- **Paging** (`paging_*.dfy`): frames, page tables shared by up to 64 tasks, byte-sized reference
  counts, copy-on-write, demand loading, sharing of executables and swapping. Every frame count
  equals the number of its uses, every swap slot has one owner, and all tasks together see what
  they would see if each had private memory, over any run that takes none of four steps, all of
  them told by tests that can be made before the step (below). When a call fails memory is out, and
  `fork` takes just the frames it needs. The class `MemoryManager` is
  `mm/memory.c`, `mm/swap.c` and `copy_mem`, word by word, proved against those steps.
- **Files** (`blocks_*.dfy`): zone bitmap, direct, indirect and double-indirect pointers. Reading
  and writing are those of a sparse byte array, the trees stay disjoint, and `truncate` frees
  exactly what the file had, once, over any number of busy retries.
- **Buffer cache** (`buffer_*.dfy`): the hash chains and the ring through the same nodes, as a
  class; and `getblk`, `bread`, `brelse` and `sync_dev` as a protocol in which all other processes
  and the disk act at every sleep point. The cache is invisible over every run.
- **Waiting and scheduling** (`sleep.dfy`, `sched.dfy`): the stack of sleepers hidden in saved
  locals loses no wake-up, and a runnable task with credit waits for a bounded number of ticks.
- **Bucket allocator** (`malloc_pages.dfy`, `malloc.dfy`): free links stored in the free objects.
- **Elevator** (`elevator.dfy`), **pipes** (`pipe.dfy`), **exec's argument block** (`exec.dfy`) and
  **directories with link counts** (`namei_state.dfy`, `namei_links.dfy`, `namei.dfy`).

## Where the code does not do what it is for

Each of these is proved with the exact condition under which the code is right.

- `un_wp_page` gives its old frame back twice when the reclaim inside `get_free_page` picks the very
  entry it is working on (ver05/mm/memory.c:270-279): counts stay exact if and only if it does not
  (`UnWpExactIff`). It cannot while a frame is free or the page is below LOW_MEM
  (`UnWpExactBefore`); it can whenever no frame is free and two tasks share a clean page
  (`UnWpCanHit`), and there are such memories (`TightExists`). `try_to_share` has the same hole for
  its source entry (`ShareExactIff`, `ShareExactBefore`, `ShareCanHit`).
- The private copy that `un_wp_page` makes is marked clean, also of a dirty page
  (ver05/mm/memory.c:280). Others may run before it is written: a timer tick before the faulting
  store is retried, or all of a system call after `write_verify`; `sys_read` verifies the whole
  buffer and may then write nothing (ver05/fs/read_write.c:63-75). Until it is written, reclaim
  drops such a page and the task gets its executable's page back (`VerifiedPageLost`), and
  `try_to_share` takes it for a page of the executable and gives it to another task
  (`VerifiedPageLeaks`). The copy is safe if and only if it equals the executable's page, as the
  copy of a clean page does (`CopyAtRisk`).
- The kernel's own stores to a task's memory pass a read-only entry, as the write-protect bit of
  CR0 is never set (ver05/boot/head.s:152-154): that is what `verify_area` is for. But `write_verify`
  does nothing for a page that is not there (ver05/mm/memory.c:316-321), and what it has made
  writable may be shared again while the system call sleeps. If the page is then mapped read-only
  from another task that runs the same program, the store changes that task's memory
  (`WrittenThroughShare`), or it reaches the one that took the share (`WrittenAfterShare`); there are
  such memories in which nothing else is wrong (`SharedExists`). Below LOW_MEM it changes the kernel
  itself (`LowStore`). The store is private if the page is writable at that moment; `write_verify`
  gives that for a page that is there (`VerifyGives`), and it is lost in exactly four steps: reclaim
  takes the page, its owner frees it, or another task maps it by `try_to_share` or `fork`
  (`ProtectedIff`, `VerifiedStore`).
- Nothing refuses to write a file that is being executed (ETXTBSY occurs in
  ver05/include/errno.h:45 only). A page still to be loaded then changes for a task that runs it,
  and a clean one already loaded is no longer what reclaim and `try_to_share` take it for.
- These four are all: a step follows private memories if and only if it does not reclaim or share
  out a clean page unlike its image, change by the kernel a byte of a page that others map, or
  change the file of a page still to be loaded (`StepExactIff`). So every run does that keeps off the
  places where such pages may be, which `Open` follows (`OpenStep`), and whose kernel stores find the
  page writable (`RunFollowsPrivate`).
- The mask in `copy_page_tables` (ver05/mm/memory.c:151-152) gives the right length of the last table
  if and only if the page count is at most 1024 modulo 4096 (`LastCountRight`).
- `swap_out` stops before it has looked at everything (ver05/mm/swap.c:127-165): its counter allows
  for one turn of the hand, but is also charged 1024 for each directory without a table. If the hand
  stands on page p of a directory that has no table, the first p + 1 pages of the next table are not
  looked at; if it stands on page 0 of one that has, nor is that page in case the directory before
  has none. It fails if and only if nothing can be evicted but such pages (`Missed`, in the
  contract of `SwapOut`), and then `get_free_page` reports that memory is out although a frame could
  be had (`SweepMisses`).
- `IN_ORDER` does not compare the commands in its third clause, so a read and a write can each come
  before the other (`BothWays`). The queue still never turns back twice in its own order
  (`RunOneWay`), but with reads and writes mixed the arm may (`MixedArm`, `ArmExact`).
- Swap requests are meant to go before all others (ver05/kernel/blk_drv/ll_rw_blk.c:55-56), but
  a later buffer request is compared with them by sector and may pass them (`SwapsFirstExact`).
- The test for argument strings that do not fit is on an unsigned number and never true
  (ver05/fs/exec.c:150): it is right exactly about strings that fit (`TestExactIff`). Longer ones are
  copied until `p` has wrapped around, and all bytes go to entries of `page[]` if and only if the
  strings fit (`InsideIff`); one argument of 128 kB reaches entry 1048575 of 32 (`Overlong`).
  `CopyStrings` and `Exec` say for all strings which of the two happens.
- A script called with an empty argument vector gets its argument count one too low: its own name
  slips from the arguments into the environment (`ScriptExact`).
- A directory that `mknod` makes has no entries, can get none, and can neither be unlinked nor
  removed, because `empty_dir` demands "." and "..": every call leaves it as it is (`BareStay` in
  each contract), over any sequence of calls (`BareForever`).

## Model

| member | source | states |
|---|---|---|
| PagingOps.RetargetInv | ver05/mm/memory.c:212-234 | changing one page-table word, with the counts and slot bits settled accordingly, keeps every invariant: exact frame counts, exclusive writers, exact swap bitmap |
| PagingSteps.WritableIsSole | ver05/mm/memory.c:266-283 | a user entry that is writable is the only use of its frame, among all tables, directories and the kernel |
| PagingSteps.EvictStep | ver05/mm/swap.c:94-120 | try_to_swap_out keeps the invariants, changes one entry, and nobody's view if the page is dirty or equals its image |
| PagingSteps.InstallStep | ver05/mm/memory.c:419-479 | a page mapped at an empty entry is seen there and changes no other view |
| PagingSteps.SwapInStep | ver05/mm/swap.c:68-92 | swap_in changes no view, maps the fresh frame writable and dirty, and returns the one slot |
| PagingSteps.UnshareStep | ver05/mm/memory.c:266-283 | un-sharing makes the entry writable and changes no view, its own included |
| PagingSteps.StoreByteStep | ver05/mm/memory.c:292-310 | a byte stored through a writable entry is seen by that task alone |
| PagingSteps.KernelStoreStep | ver05/lib/segment.c:27-30 | a byte the kernel stores through any present entry is seen by all that map the frame and by nobody else, one entry becomes dirty, and the invariants hold |
| PagingSteps.MapBothStep | ver05/mm/memory.c:191-200 | a page mapped read-only for a second task as well is seen by both; only its two entries change |
| PagingSteps.CopyEntryStep | ver05/mm/memory.c:179-201 | one turn of fork's inner loop: the child sees the parent's page, present, swapped or empty, and no other view changes |
| PagingSteps.ClearEntryStep | ver05/mm/memory.c:100-112 | freeing one word of a table keeps counts and slots exact and touches no other view |
| PagingPossible.EvictIff | ver05/mm/swap.c:94-120 | an eviction is possible exactly for a present page of main memory that is clean, or is dirty, used once, and finds a free slot |
| PagingPossible.SwapInIff | ver05/mm/swap.c:68-92 | swap_in of a swapped page succeeds exactly if there is a free frame |
| PagingPossible.InstallIff | ver05/mm/memory.c:419-479 | mapping a page at an empty place of a table succeeds exactly if there is a free frame |
| PagingPossible.UnshareIff | ver05/mm/memory.c:266-283 | a present page can be kept exactly if its frame is used once, and copied exactly if there is a free frame |
| PagingPossible.StoreByteIff | ver05/mm/memory.c:292-310 | a task can store exactly where its entry is writable |
| PagingPossible.CopyEntryIff | ver05/mm/memory.c:179-201 | one turn of the copy loop fails exactly for a swapped page without a free frame |
| PagingNeed.EntryTakes | ver05/mm/memory.c:179-201 | one turn takes one frame if the page is swapped, and none otherwise |
| PagingNeed.AmpleTable | ver05/mm/memory.c:161-166 | as long as a fork that began with enough free frames has taken only what it needed, there is one for the next table, and that is all it takes |
| PagingNeed.AmpleEntry | ver05/mm/memory.c:179-201 | the same for the next entry: the parent's entries still to come are swapped or not as at the beginning |
| PagingClock.SweepTried | ver05/mm/swap.c:160-161 | the page the hand is on has now been tried, or is evicted and none of those the sweep misses |
| PagingClock.NextDirectory | ver05/mm/swap.c:146-159 | on the way to the next table nothing that could be evicted is passed over; if the counter runs out there, only missed pages are left |
| PagingClock.SweepDone | ver05/mm/swap.c:143-164 | if the counter runs out at a page, nothing but missed pages is left to evict |
| PagingWitness.SweepMisses | ver05/mm/swap.c:127-165 | a memory in which swap_out fails, wherever on a page of the directory its hand stands, although an eviction would free a frame |
| PagingRuns.StepExactIff | ver05/mm/memory.c:266-385 | one step, from any good memory, changes the tasks' views as the same step on fully private memories if and only if it is none of these: reclaim or sharing of a clean page unlike its image, a kernel store that changes a byte of a page others map, a change to the file of a page still to be loaded |
| PagingRuns.OpenStep | ver05/mm/memory.c:266-283 | after any step, the only clean pages that may be unlike their image are those of places un-shared from a dirty page and not stored to since, or forked or shared from such, those whose page the kernel changed through another's entry, and those loaded before their file was changed |
| PagingRuns.StepFollowsPrivate | ver05/mm/memory.c:266-385 | one step that keeps off those places, and stores for the kernel to writable pages only, changes the tasks' views as the same step on fully private memories |
| PagingRuns.RunFollowsPrivate | ver05/mm/memory.c:137-385 | over any run of such steps, write_verify and the kernel's own stores included, all tasks see what private memories would hold: copy-on-write, swapping, demand loading and sharing are invisible |
| PagingRuns.QuietRuns | ver05/kernel/fork.c:23-36 | there is no such place in a run whose write_verifys copy no dirty page, whose kernel stores find writable pages and whose file changes find dirty ones |
| PagingKernel.VerifyGives | ver05/mm/memory.c:312-323 | after write_verify a present page is writable, and none below LOW_MEM |
| PagingKernel.ProtectedIff | ver05/mm/memory.c:360-385 | a writable page stops being so in exactly four steps: reclaim takes it, its owner frees it, try_to_share or fork maps it for another task |
| PagingKernel.StaysWritable | ver05/mm/memory.c:137-385 | so over any run without these it stays writable |
| PagingKernel.VerifiedStore | ver05/kernel/fork.c:23-36 | after write_verify on a present page and any run without these, the kernel's store changes one byte of one task's memory and nothing else |
| PagingKernel.LowStore | ver05/boot/head.s:152-154 | through an entry below LOW_MEM the kernel's store changes the kernel's own memory exactly if the byte differs, and the view of all that map it |
| PagingWitness.WrittenThroughShare | ver05/mm/memory.c:312-323 | from any memory in which a task may share another's page: write_verify before that does nothing, and the kernel's store after it changes the other's memory |
| PagingWitness.WrittenAfterShare | ver05/mm/memory.c:360-385 | or a page made writable is shared before the store, which then changes the sharer's memory |
| PagingWitness.SharedExists | ver05/mm/memory.c:196-198 | there are such memories with every clean page backed |
| PagingRuns.CowIsolation | ver05/mm/memory.c:266-323 | a page that no step of a run as in RunFollowsPrivate writes for its owner is unchanged at the end |
| PagingReclaim.ReclaimsKeep | ver05/mm/swap.c:127-165 | any sequence of reclaims keeps the invariants and every view but those of clean pages unlike their image |
| PagingReclaim.ReclaimLosesIff | ver05/mm/swap.c:116-119 | a page is lost if and only if reclaim picks it while it is clean and unlike its image |
| PagingReclaim.UnWpExactIff | ver05/mm/memory.c:266-283 | un_wp_page keeps the counts exact if and only if the reclaim inside it does not pick its own entry |
| PagingReclaim.UnWpExactBefore | ver05/mm/memory.c:266-283 | it does whenever a frame is free before the call or the page is below LOW_MEM |
| PagingWitness.UnWpCanHit | ver05/mm/memory.c:266-283 | whenever no frame is free and two tasks alone share a clean page, a reclaim of that page makes un_wp_page lose count |
| PagingWitness.TightExists | ver05/mm/memory.c:266-283 | three frames of tables and one shared page are such a memory |
| PagingReclaim.ShareExactIff | ver05/mm/memory.c:343-385 | try_to_share keeps the counts exact if and only if the reclaim inside it does not pick the source entry |
| PagingReclaim.ShareExactBefore | ver05/mm/memory.c:343-385 | it does whenever a frame is free before the call or the target has a page table |
| PagingWitness.ShareCanHit | ver05/mm/memory.c:343-385 | in such a memory a task without a table that asks for the page makes try_to_share lose count |
| PagingReclaim.CopyAtRisk | ver05/mm/memory.c:277-282 | after a private copy all clean pages equal their image if and only if the copied page did before the call, as it does if it was clean; dropped, the copy turns into the image |
| PagingWitness.VerifiedPageLost | ver05/kernel/fork.c:23-36 | from any memory with a free frame, a shared dirty page that is verified for writing and reclaimed before it is written is lost |
| PagingWitness.VerifiedPageLeaks | ver05/mm/memory.c:360-364 | or is given to another task as the page of the executable |
| PagingWitness.ForkedExists | ver05/mm/memory.c:196-198 | there are such memories |
| PagingReclaim.SwapRoundTrip | ver05/mm/swap.c:68-120 | a dirty page swapped out and in again has the same bytes and leaves the same slots free |
| PagingReclaim.CountBound | ver05/include/linux/mm.h:8 | a frame's count is at most 63, so it never reaches the USED marker or wraps its byte |
| PagingFork.LastCountRight | ver05/mm/memory.c:149-153 | the masked length of the last table is right if and only if the page count modulo 4096 is at most 1024 |
| PagingFork.CopyOutside | ver05/mm/memory.c:179-201 | copying an entry gives the child the parent's page and leaves every entry and view outside the child as it was |
| PagingFork.ForkIsPrivateCopy | ver05/kernel/fork.c:38-64 | after a fork, over any run as in RunFollowsPrivate, every task sees what it would see if the fork had copied all of the parent's memory; only clean pages unlike their image may have been lost to the fork's own reclaims |
| PagingFork.ForkIsolation | ver05/mm/memory.c:137-204 | over any such run, a page of the child that nobody writes for it stays as the fork left it, which is the parent's page unless that was clean and unlike its image |
| MemoryManagement.MemoryManager.constructor | ver05/mm/memory.c:481-494 | mem_init: exact counts, USED outside main memory, zero inside |
| MemoryManagement.MemoryManager.FreePage | ver05/mm/memory.c:72-82 | counts one use less, and panics exactly for a frame above memory or already free |
| MemoryManagement.MemoryManager.GetSwapPage | ver05/mm/swap.c:45-55 | takes the first free slot from 1 on, or 0 if there is none |
| MemoryManagement.MemoryManager.SwapFree | ver05/mm/swap.c:57-66 | frees the slot, and complains exactly about a bad or free one |
| MemoryManagement.MemoryManager.TryToSwapOut | ver05/mm/swap.c:94-120 | evicts the entry exactly when it is present in main memory and is clean, shared or not, or is dirty, its frame has no other use and a slot is free; otherwise changes nothing |
| MemoryManagement.MemoryManager.SwapOut | ver05/mm/swap.c:127-165 | ends; evicts exactly one user entry when it returns 1, and changes nothing when it returns 0, which it does if and only if nothing can be evicted but the pages its sweep misses |
| MemoryManagement.MemoryManager.GetFreePage | ver05/mm/swap.c:171-196 | some reclaims, none if a frame is free, then the last free frame, cleared, counted once and owned by the kernel; or no frame, and then none is free and nothing can be evicted but what a sweep misses |
| MemoryManagement.MemoryManager.SwapInPage | ver05/mm/swap.c:68-92 | swap_in after the reclaims of get_free_page; or those reclaims alone, exactly when memory is out after them |
| MemoryManagement.MemoryManager.UnWriteProtect | ver05/mm/memory.c:266-283 | un_wp_page word by word, its double give-back included: one bit and nothing else if the frame is used once; it fails only with memory out, never while a frame is free |
| MemoryManagement.MemoryManager.WriteVerify | ver05/mm/memory.c:312-323 | if reclaim leaves the entry alone, as it must while a frame is free, a present page ends up writable, its view stays, all others but clean pages unlike their image are kept, and clean pages equal their images afterwards exactly if the page was not copied or did; nothing at all changes for absent or writable ones; it fails only with memory out |
| MemoryManagement.MemoryManager.PutFsByte | ver05/lib/segment.c:27-30 | the kernel's store on a present page, whatever its write permission |
| MemoryManagement.MemoryManager.PutPageAt | ver05/mm/memory.c:212-264 | put_page and put_dirty_page: the page is mapped where asked and every other is kept, unless clean and unlike its image; 0 only with memory out, and not if the table is there or a frame is free |
| MemoryManagement.MemoryManager.ShareWith | ver05/mm/memory.c:343-385 | try_to_share word by word: 0 exactly if the source has no clean page of main memory there, or a table was needed and memory was out; unless reclaim takes the source, as it cannot while a frame is free, the target sees the source's page and the invariants hold |
| MemoryManagement.MemoryManager.CopyTurn | ver05/mm/memory.c:178-201 | one turn of the inner loop, with the reclaims that a swapped page needs; -1 only for a swapped page with memory out |
| MemoryManagement.MemoryManager.CopyPageTables | ver05/mm/memory.c:137-204 | on success the child sees all of the parent's pages; in any case the invariants hold and every page of everybody else is kept; excepted are clean pages unlike their image, which its reclaims may drop. -1 only with memory out; if a frame is free for each table and each swapped page of the range it succeeds and takes exactly these |
| MemoryManagement.MemoryManager.FreePageTables | ver05/mm/memory.c:88-118 | from any good memory, every table of the range is gone, no complaint is heard, and no entry and no view outside has changed |
| MemoryManagement.MemoryManager.CopyMem | ver05/kernel/fork.c:38-64 | the child sees the parent's memory, or after the roll-back has no table at all; the parent's pages and all others are kept either way, with the same exception. It rolls back only from a state in which memory is out, and never if a frame is free for each table and each swapped page of the parent |
| BlockState.DataSlotInjective | ver05/fs/inode.c:73-139 | different file blocks use different slots of the tree |
| BlockState.TreePath | ver05/fs/inode.c:80-139 | the pointer of a file block, level by level: seven zones of the inode, 512 words of the block of the eighth, 512 times 512 words of the blocks that the ninth's names, low byte first |
| BlockState.PtrAfterStore | ver05/fs/inode.c:80-139 | storing one block number changes that pointer of that file and no other pointer of any file |
| BlockOps.AttachPtr | ver05/fs/inode.c:80-139 | giving an empty slot a fresh block changes only that pointer |
| BlockOps.AttachWF | ver05/fs/inode.c:80-139 | it keeps the tree well formed: pointers distinct, in the data zone, and marked exactly |
| BlockOps.AttachBytes | ver05/fs/bitmap.c:101-103 | it changes no byte of any file, as the new block is zero |
| BlockOps.DetachPtr | ver05/fs/truncate.c:22-33 | emptying a slot with nothing below changes only that pointer |
| BlockOps.DetachWF | ver05/fs/truncate.c:22-33 | it keeps the tree well formed and frees just that block |
| BlockOps.FillBytes | ver05/fs/file_dev.c:64-80 | data written into a file's block is seen at that place of that file and nowhere else |
| FileDevice.FlatAt | ver05/fs/bitmap.c:62-96 | bit j of map i is bit i*8192+j of the device, both ways |
| FileDevice.Device.NewBlock | ver05/fs/bitmap.c:76-106 | the first free zone, now marked and zero; 0 exactly when all are marked, and then at most the first clear bit, one that stands for no zone, has been set |
| FileDevice.Device.FreeBlock | ver05/fs/bitmap.c:47-74 | frees a marked zone unless somebody else holds its buffer; the complaint about a cleared bit is never made |
| FileDevice.Device.Bmap | ver05/fs/inode.c:73-149 | bmap and create_block: i_zone[block] for the first seven, then the word of two bytes, low one first, in the block of i_zone[7], then that in the block which a word of i_zone[8]'s names, 0 where a block is missing; creating sets it when there is space, changes no other index, and leaves a well-formed tree when it fails half-way; every zone it took is reachable from the file |
| FileDevice.Device.FileRead | ver05/fs/file_dev.c:16-45 | exactly the bytes of the file from f_pos on, zeros in holes, past the end too, and in the first seven blocks those of the zones named in the inode, in order; nothing is changed |
| FileDevice.Device.FileWrite | ver05/fs/file_dev.c:47-89 | exactly the bytes [pos, pos+i) of this file become the source's, the size is the larger of the old one and pos+i, no other file changes and no zone is lost; short only when the device is full |
| FileDevice.Device.FreeInd | ver05/fs/truncate.c:10-35 | frees what hangs below a pointer block and then the block, unless something there is busy |
| FileDevice.Device.FreeDind | ver05/fs/truncate.c:37-62 | the same one level up |
| FileDevice.Device.Truncate | ver05/fs/truncate.c:64-97 | over any retries every state has freed a part of the file's blocks, each once; when done, exactly those reachable at entry are free and all nine zones are zero |
| BufferLists.UnlinkRing | ver05/fs/buffer.c:114-121 | the two stores that take a buffer off the free ring leave the ring without it, in order |
| BufferLists.LinkRing | ver05/fs/buffer.c:126-131 | the four stores that put a buffer at the end of the ring |
| BufferQueues.RemoveQueued | ver05/fs/buffer.c:106-122 | remove_from_queues takes a buffer off both lists and leaves all others in place and order |
| BufferQueues.InsertQueued | ver05/fs/buffer.c:124-143 | insert_into_queues puts it last on the ring and first on the chain of its key |
| BufferQueues.FreshLists | ver05/fs/buffer.c:327-360 | buffer_init's links are a ring of all buffers and empty chains |
| BufferQueues.NoneChosen | ver05/fs/buffer.c:192-202 | getblk finds no candidate only if every buffer is in use |
| BufferQueues.ChosenZero | ver05/fs/buffer.c:198-200 | breaking off at badness zero gives the same buffer as the whole search |
| BufferQueues.ChosenIs | ver05/fs/buffer.c:184-202 | least badness means: clean before dirty, then unlocked before locked, then first on the ring |
| BufferQueues.BufferTable.BufferInit | ver05/fs/buffer.c:327-360 | after it the lists are consistent and every buffer is free |
| BufferQueues.BufferTable.RemoveFromQueues | ver05/fs/buffer.c:106-122 | the pointer stores do what RemoveQueued describes |
| BufferQueues.BufferTable.InsertIntoQueues | ver05/fs/buffer.c:124-143 | the pointer stores do what InsertQueued describes, filing the buffer only if it has a device |
| BufferQueues.BufferTable.FindBuffer | ver05/fs/buffer.c:145-153 | the buffer that holds the block, found exactly if there is one |
| BufferQueues.BufferTable.ChooseVictim | ver05/fs/buffer.c:184-202 | the first on the ring among the unreferenced buffers of least badness: a dirty one only if all are dirty, a locked one only if all as dirty are locked |
| BufferQueues.BufferTable.Reassign | ver05/fs/buffer.c:222-229 | the buffer becomes that of the new block, last on the ring, filed under its key, and no block gets two |
| BufferProtocol.StepInv | ver05/fs/buffer.c:162-230 | every step of any process or the disk keeps: no block in two buffers, dirty implies up to date, a clean unlocked up-to-date buffer equals its disk block |
| BufferProtocol.IdentityStable | ver05/fs/buffer.c:203-229 | a buffer that changes its block was unreferenced, unlocked, clean, and equal to the disk if it was up to date |
| BufferProtocol.StepContent | ver05/fs/buffer.c:57-80 | no step but a modification changes what any block logically contains |
| BufferProtocol.RunContent | ver05/fs/buffer.c:185-260 | over every interleaving the cache is unique per block and every block in use reads as if written straight to the disk |
| BufferProtocol.InitialContent | ver05/fs/buffer.c:327-360 | the run may start with buffer_init's empty cache, which shows the disk |
| BufferProtocol.OthersRelied | ver05/fs/buffer.c:34-40 | whatever others do during a sleep, the buffers a process holds keep their identity and stay up to date, and a read it waits for goes on until done |
| BufferProtocol.DirtyUntilGiven | ver05/kernel/blk_drv/ll_rw_blk.c:65-66 | over any run a dirty buffer stays dirty, keeps its block, and if locked for writing stays so, until the disk is given its write |
| BufferProtocol.StillDirty | ver05/fs/buffer.c:57-80 | over any run in which nobody modifies a buffer of the device, one that is dirty at the end was so at the beginning and has not been given to the disk |
| BufferProtocol.CleanAfterSync | ver05/fs/buffer.c:57-80 | so if all dirty ones have been given to the disk none is left |
| BufferProtocol.Process.GetHashTable | ver05/fs/buffer.c:162-175 | the buffer of the block, unlocked and held once more, without a sleep if it was unlocked, and its re-check never fails; or no buffer has the block |
| BufferProtocol.Process.LlRwBlock | ver05/kernel/blk_drv/ll_rw_blk.c:88-143 | locks, waits for a slot and queues without disturbing what this process relies on; after asking for a read of a held buffer it is up to date or being read, and after asking for a write of a dirty one that has been given to the disk |
| BufferProtocol.Process.SyncDev | ver05/fs/buffer.c:57-80 | every buffer of the device that was dirty has since been given to the disk, and if nobody modified one meanwhile none is dirty; nothing this process relies on is disturbed |
| BufferProtocol.Process.GetBlk | ver05/fs/buffer.c:185-230 | the block's buffer, unlocked and held once more, whatever happened at its sleep points; without a sleep if it was cached and unlocked, or not cached while some buffer was unreferenced, unlocked and clean |
| BufferProtocol.Process.Bread | ver05/fs/buffer.c:246-260 | an up-to-date buffer whose data is the block's logical content, without a sleep if it was cached, unlocked and up to date; the NULL return is unreachable |
| BufferProtocol.Process.Brelse | ver05/fs/buffer.c:232-240 | after waiting, one reference fewer of this process and no other change it could notice |
| WaitQueues.StepKeepsChain | ver05/kernel/sched.c:129-171 | every step keeps the list from *p through the saved tmps acyclic and complete; sleepers leave from the head only and "*P = NULL" cannot be printed |
| WaitQueues.StepKeepsAwake | ver05/kernel/sched.c:129-171 | once a sleeper is runnable, some sleeper is runnable until the queue is empty |
| WaitQueues.NoLostWakeup | ver05/kernel/sched.c:129-171 | after a wake_up, over any steps of anybody, some sleeper is runnable as long as the queue has not been empty |
| WaitQueues.WakeMakesAwake | ver05/kernel/sched.c:162-171 | wake_up on a queue with sleepers makes one runnable |
| WaitQueues.ResumeProgress | ver05/kernel/sched.c:129-150 | each turn of a woken sleeper makes progress in a well-founded measure |
| WaitQueues.Drains | ver05/kernel/sched.c:129-171 | without newcomers the queue empties within that many turns |
| WaitQueues.RunnableIff | ver05/kernel/sched.c:129-171 | after a step a sleeper is runnable if and only if it was and has not gone back to sleep, or the step is a wake_up with it on top, the turn of another that finds or leaves it on top, or a signal to it while interruptible |
| WaitQueues.SleepState | ver05/kernel/sched.c:135-149 | a newcomer is in the state it asked for and not runnable; one that must go back to sleep is uninterruptible |
| WaitQueues.StaysAsleep | ver05/kernel/sched.c:129-171 | over any run without such a step for it, a sleeper stays in the queue and is not runnable |
| WaitQueues.WaitQueue.SleepOn | ver05/kernel/sched.c:129-141 | the newcomer is on top of the chain, in the state it asked for and unable to go on; no other state has changed |
| WaitQueues.WaitQueue.Continue | ver05/kernel/sched.c:139-150 | a sleeper leaves exactly if it is on top, and the next one becomes runnable; else the one on top becomes runnable and it sleeps on, uninterruptibly; its warning is never printed |
| WaitQueues.WaitQueue.WakeUp | ver05/kernel/sched.c:162-171 | the top of the chain is runnable, no other state and not the chain has changed |
| Scheduling.BestUnique | ver05/kernel/sched.c:102-119 | the choice is determined by the task table |
| Scheduling.BestIs | ver05/kernel/sched.c:102-113 | chosen is a running task of greatest counter, the highest-numbered of those; 0 exactly if no other is running |
| Scheduling.NoRecharge | ver05/kernel/sched.c:102-119 | while a runnable task has credit, no credit is recomputed and the chosen task has some |
| Scheduling.WaitingStep | ver05/kernel/sched.c:214-241 | while a task with credit waits, every user tick is paid by one unit of credit |
| Scheduling.BoundedWaiting | ver05/kernel/sched.c:77-120 | a runnable task with credit is chosen before more user ticks than all credits together, and before any recomputation |
| Scheduling.Scheduler.Select | ver05/kernel/sched.c:102-113 | the runnable task of greatest counter, the highest-numbered of those; 0 exactly if none of 1..63 can run |
| Scheduling.Scheduler.Schedule | ver05/kernel/sched.c:77-120 | an expired timeout is 0 and its interruptible task runnable; an expired alarm is 0 and SIGALRM pending; an interruptible task is runnable exactly if its timeout had expired or a signal that is unblocked, SIGKILL or SIGSTOP is pending; no other state, timeout, alarm or signal has changed. It ends after at most one recomputation, keeps 0 <= counter < 2*priority, and chooses as Select does |
| Scheduling.SettledFields | ver05/kernel/sched.c:85-118 | the first loop and at most one recomputation, field by field |
| Scheduling.Scheduler.Recharge | ver05/kernel/sched.c:114-118 | every task's counter is half of what it was plus its priority, and every runnable task has credit |
| Scheduling.Scheduler.Tick | ver05/kernel/sched.c:214-241 | takes one unit from the running task, and reschedules only when its credit is gone and it was in user mode |
| BucketPages.LiveObjects | ver05/lib/malloc.c:166-173 | live objects lie inside one page, not one of the free pages, and no two overlap |
| BucketPages.AllBack | ver05/lib/malloc.c:206-209 | refcnt is 0 only if nobody has an object of the bucket |
| BucketPages.StoreBuckets | ver05/lib/malloc.c:148-153 | whatever users store in their objects, all free lists stay intact |
| BucketPages.TakeOwned | ver05/lib/malloc.c:166-169 | the object handed out was nobody's |
| BucketPages.PutBuckets | ver05/lib/malloc.c:206-208 | the object given back heads its bucket's list; list length and refcnt still make up the page |
| BucketPages.NewBuckets | ver05/lib/malloc.c:133-161 | a freshly carved page is a bucket of all its objects, and no other bucket is touched |
| BucketLists.ChainRemove | ver05/lib/malloc.c:220-227 | one store takes a descriptor out of its chain |
| BucketLists.CutIdle | ver05/lib/malloc.c:97-115 | a new page of 256 linked descriptors comes before the idle ones |
| BucketAllocator.Allocator.InitBucketDesc | ver05/lib/malloc.c:97-115 | descriptors stay the 256 of each descriptor page, none lost; false only without a free page |
| BucketAllocator.Allocator.Malloc | ver05/lib/malloc.c:117-173 | an object of the smallest size that is at least len, less than twice that, new to everybody; a page is taken exactly if no bucket of that size has room, and a second if no descriptor is left; it fails exactly for more than 4096 bytes or without those pages; no page is lost |
| BucketAllocator.Allocator.FreeS | ver05/lib/malloc.c:182-231 | exactly that object is given up; it fails exactly if the caller claims a larger size than the object has; the page goes back exactly when no live object is left in it |
| BucketAllocator.Allocator.StoreWord | ver05/lib/malloc.c:148-153 | a user's store inside its object keeps the allocator's invariant |
| Elevator.BothWays | ver05/kernel/blk_drv/ll_rw_blk.c:233-243 | IN_ORDER holds both ways exactly for a read and a write of one device whose read has the higher sector |
| Elevator.InsertOneWay | ver05/kernel/blk_drv/ll_rw_blk.c:74-85 | an insertion keeps the queue to at most one turn in IN_ORDER, for any mix of different requests |
| Elevator.CompleteOneWay | ver05/kernel/blk_drv/hd.c:45-60 | so does taking the finished request off the front |
| Elevator.RunOneWay | ver05/kernel/blk_drv/ll_rw_blk.c:58-86 | so does any run of completions and insertions other than of swap requests |
| Elevator.InsertTurnsBound | ver05/kernel/blk_drv/ll_rw_blk.c:74-85 | a buffer's request adds no turn but the first; a swap request, put in without regard to sectors, at most two |
| Elevator.RunTurns | ver05/kernel/blk_drv/ll_rw_blk.c:58-86 | over any run the turns are at most one, or those of the beginning, and two for each swap request added |
| Elevator.OneCommandArm | ver05/kernel/blk_drv/ll_rw_blk.c:74-85 | with one command and one device the sectors themselves turn back at most once |
| Elevator.OneCommandDevices | ver05/kernel/blk_drv/ll_rw_blk.c:233-243 | with one command and several devices, devices and the sectors of each are gone through in ascending order with at most one turn back |
| Elevator.ArmExact | ver05/kernel/blk_drv/ll_rw_blk.c:233-243 | sectors turn back where the queue turns, and else exactly where a write follows a read of a higher sector |
| Elevator.MixedArm | ver05/kernel/blk_drv/ll_rw_blk.c:233-243 | three mixed requests that turn the arm back twice |
| Elevator.InsertKeeps | ver05/kernel/blk_drv/ll_rw_blk.c:66-85 | the request in service is not displaced, and the pending requests are exactly the old ones and the new one |
| Elevator.SwapsInTurn | ver05/kernel/blk_drv/ll_rw_blk.c:75-79 | swap requests go before waiting buffers and are served in the order they come |
| Elevator.SwapsFirstExact | ver05/kernel/blk_drv/ll_rw_blk.c:80-83 | a later buffer request stays behind the waiting swap requests if and only if the loop's test stops at none of them |
| Elevator.SwapOvertaken | ver05/kernel/blk_drv/ll_rw_blk.c:80-83 | a swap request that is overtaken |
| Elevator.RequestTable.FindSlot | ver05/kernel/blk_drv/ll_rw_blk.c:115-122 | a free slot, for a buffer's write one of the first 21; none only if all it may use are taken |
| Elevator.RequestTable.AddRequest | ver05/kernel/blk_drv/ll_rw_blk.c:58-86 | the linked list stays acyclic and holds the requests in the order of the specification's insertion |
| Elevator.RequestTable.Enqueue | ver05/kernel/blk_drv/ll_rw_blk.c:110-143 | the new request is in the queue, or all the slots it may use are; writes never hold the last third |
| Elevator.RequestTable.EndRequest | ver05/kernel/blk_drv/hd.c:45-60 | the slot is free and the queue is the old one without its head |
| Pipes.SizeIsDifference | ver05/include/linux/fs.h:60-64 | PIPE_SIZE is the number of bytes written and not read, so full and empty stay distinguishable |
| Pipes.PutKeeps | ver05/fs/pipe.c:61-72 | bytes copied in at the head follow the unread ones and destroy none |
| Pipes.Pipe.PutChunk | ver05/fs/pipe.c:61-72 | as many bytes as fit up to the page's end, appended to the stream; occupancy stays below 4096 |
| Pipes.Pipe.TakeChunk | ver05/fs/pipe.c:28-39 | the next bytes of the stream |
| Pipes.Pipe.ReadPipe | ver05/fs/pipe.c:15-43 | over any interleaving what has been read is a prefix of what was written; one reader gets the next bytes, and fewer than asked only when all has been read: with no writer left, or for a signal that is pending then; -ERESTARTSYS exactly for that signal with nothing read and a writer there |
| Pipes.Pipe.WritePipe | ver05/fs/pipe.c:45-73 | one writer's bytes enter the stream in order; fewer only with no reader left, with SIGPIPE, and -1 if it was none |
| ExecArguments.InsideIff | ver05/fs/exec.c:154-169 | with p counted down as an unsigned 32-bit number, all n bytes go to entries of page[] if and only if they fit below p |
| ExecArguments.Overlong | ver05/fs/exec.c:150-169 | an argument of 128 kB passes the test for strings that are too long, and its copy reaches entry 1048575 |
| ExecArguments.ArgPages.CopyStrings | ver05/fs/exec.c:126-174 | for any strings: they lie NUL-terminated, in order, just below p, nothing else is touched, and only the pages they touch have been taken; or there are too few frames for those; or, exactly if they are longer than the room below p and 32 pages could be had, the copy leaves page[] |
| ExecArguments.Moved | ver05/fs/exec.c:363-365 | the new value of p is where change_ldt has mapped the byte at p |
| ExecArguments.Program.ChangeLdt | ver05/fs/exec.c:176-198 | page i appears 32-i pages below the library |
| ExecArguments.Program.CreateTables | ver05/fs/exec.c:68-92 | argc, argv and envp lead to exactly the strings, tables end in null pointers, lie below all strings, and sp is aligned |
| ExecArguments.StackIs | ver05/fs/exec.c:68-92 | on the stack are argc, the address of argv and that of envp; word i of each table points to the bytes of string i and its NUL, and a null word ends it |
| ExecArguments.LongBytes | ver05/lib/segment.c:37-40 | put_fs_long puts the lowest byte first |
| ExecArguments.Exec | ver05/fs/exec.c:335-365 | for any lists: the new program finds exactly the arguments and environment it was called with, if and only if they leave a byte of the area free and there is a frame for each page they touch; the copy leaves page[] if and only if they are longer than the area, the environment does not fill it exactly, and there are 32 frames |
| ExecArguments.ExecScript | ver05/fs/exec.c:284-307 | a script's interpreter finds its name, its argument, the script's name and the rest, as counted, if and only if they leave a byte free and there is a frame for each page they touch; the copy leaves page[] if and only if they are longer than the area, no copy on the way fills it up exactly, and there are 32 frames |
| ExecArguments.ScriptExact | ver05/fs/exec.c:284-307 | that is the intended vector if and only if the script was called with at least one argument |
| Directories.MatchExact | ver05/fs/namei.c:70-88 | match compares whole 14-byte names |
| Directories.PlacedLookup | ver05/fs/namei.c:173-228 | a directory is a finite map: after an entry is added its name gives its inode and all other names what they gave |
| Directories.ClearedLookup | ver05/fs/namei.c:757-758 | after an entry is cleared its name gives nothing and all other names what they gave |
| LinkCounts.LinkedCounted | ver05/fs/namei.c:510-511 | a new entry and one link more keep every link count equal to the number of entries |
| LinkCounts.MadeCounted | ver05/fs/namei.c:560-585 | so do a new directory's three entries with its two links and the parent's one |
| LinkCounts.EmptyIsChild | ver05/fs/namei.c:691-696 | an entry for an empty directory, not its own, is the one in its parent, never "." or ".." |
| LinkCounts.EmptyRefs | ver05/fs/namei.c:697-698 | an empty directory has exactly two links, so rmdir's message about another number is never printed |
| LinkCounts.RemovedCounted | ver05/fs/namei.c:699-708 | removing a directory keeps every link count right |
| LinkCounts.RemovedTree | ver05/fs/namei.c:699-708 | it leaves no entry that names a freed inode, and the tree a tree |
| LinkCounts.UnlinkedTree | ver05/fs/namei.c:757-766 | taking out an inode's last name leaves no entry that names it |
| LinkCounts.Forgotten | ver05/fs/inode.c:151-194 | an inode without links is named nowhere and may be freed |
| NameSpace.FileTree.FindEntry | ver05/fs/namei.c:101-161 | finds an entry exactly if the directory has the name |
| NameSpace.FileTree.AddEntry | ver05/fs/namei.c:173-228 | the name in a free place or at the end; it fails, changing nothing, exactly if the directory has no first block, or has no free place, needs a block for one and gets none |
| NameSpace.FileTree.Mknod | ver05/fs/namei.c:468-517 | the result is decided by name, permission, lookup and space, in that order; the name gives the new inode with one link, or nothing at all has changed; a directory made so is bare |
| NameSpace.BareForever | ver05/fs/namei.c:608-622 | over any sequence of calls a bare directory stays as it is, and is never one that rmdir takes for empty |
| NameSpace.FileTree.Mkdir | ver05/fs/namei.c:519-590 | decided likewise: the name gives a new directory of "." and "..", and the parent has one link more; or nothing has changed |
| NameSpace.FileTree.EmptyDir | ver05/fs/namei.c:595-637 | true exactly of a directory with entries that are only "." and ".." |
| NameSpace.FileTree.Rmdir | ver05/fs/namei.c:639-711 | the error for each refusal, in the source's order; it succeeds if and only if the caller may, the name is that of an empty directory, and nobody holds it; then it is gone with its name, its parent one link lower; otherwise nothing has changed |
| NameSpace.FileTree.Unlink | ver05/fs/namei.c:713-769 | the error for each refusal; it succeeds if and only if the caller may and the name is that of no directory; then the name is gone and the inode has one link less, or is gone with its last link unless held; otherwise nothing has changed |
| NameSpace.FileTree.Symlink | ver05/fs/namei.c:771-839 | as mknod, but the name is looked up when inode and block are there, and every roll-back is complete |
| NameSpace.FileTree.Link | ver05/fs/namei.c:841-898 | decided likewise: a second name for an inode that is no directory, and one link more; or nothing has changed |
| NameSpace.FileTree.Close | ver05/fs/inode.c:151-194 | the last holder of an inode without links frees it |

## Left out

- MemoryManagement.MemoryManager.CopyPageTables: the first 16 directories are the kernel's fixed map and appear only as a readable source for task 0, because reclaim never visits them.
- MemoryManagement.MemoryManager.CopyMem: changing the segment bases of the new task's descriptors is not modelled.
- MemoryManagement.MemoryManager.GetFreePage: writing a page to the swap device is one atomic step, and the case of no swap bitmap at all is a bitmap with no free slot.
- MemoryManagement.MemoryManager.FreePageTables: misaligned addresses and freeing the first directories are preconditions where the source panics.
- MemoryManagement.MemoryManager.WriteVerify: the loop of verify_area over the pages of a buffer is one Verify step for each; after a reclaim that hits its own entry it promises only the words.
- PagingSteps.KernelStoreStep: put_fs_word and put_fs_long are one such store for each byte.
- PagingSteps.InstallStep: do_no_page reads the executable's page or clears a new one; which page that is comes from the model's image, and its search for a task to share with is ShareWith.
- Flushing the translation buffer, oom() and the panics themselves: they appear as false results or not at all.
- FileDevice.Device.Bmap: one piece, though the source may sleep in new_block between testing a zone and storing it (ver05/fs/inode.c:83-84, ver05/fs/bitmap.c:97), so that two writers of one file could both allocate.
- FileDevice.Device.FileWrite: one piece likewise; the copy into one buffer is atomic, though the source could sleep there after setting b_dirt.
- FileDevice.Device.FileRead: read errors are not modelled; nor are they anywhere else.
- FileDevice.Device.Truncate: nobody else writes between its retries; its test for file types without blocks and the inode times are left out.
- BufferProtocol.Process.SyncDev: its sync_inodes is one sleep in which anything may happen.
- BufferProtocol.Process.GetBlk: the search for a buffer to reuse goes by number instead of along the ring, which is ChooseVictim's. A process whose given schedule of sleeps is used up sleeps on.
- BufferProtocol.Process.Bread: a device without a driver and bytes counts of references beyond 255 are left out; so are breada, which asks for the wrong buffer (ver05/fs/buffer.c:316), bread_page and invalidate_buffers.
- BufferQueues.BufferTable.BufferInit: buffer heads are parallel arrays, and the number of buffers is given instead of computed from the end of memory.
- The whole-block path of block_write, which dirties a buffer that is not up to date.
- WaitQueues.WaitQueue.SleepOn: select's waiting on several queues at once is not modelled.
- Scheduling.BoundedWaiting: counts user-mode ticks and runs without forks; kernel-mode ticks only take credit away.
- add_timer's deadlines, signals' delivery, and switching the processor's context.
- BucketAllocator.Allocator.Malloc: being re-entered during get_free_page is not modelled, so free_s's search for a changed predecessor has nothing to do; after a panic the state is not described beyond what the contract says.
- Elevator.RequestTable.Enqueue: one device's queue uses the table; the transfer itself, its retries and READA's giving up on a full table are left out.
- Elevator.InsertOneWay: is about requests of buffers; what swap requests do to the sweeps is bounded by RunTurns.
- Pipes.Pipe.ReadPipe: one chunk is copied atomically; creating and closing a pipe and the wake-ups of the two queues are left out.
- ExecArguments.Exec: reading the header, permissions, closing files, brk and start_stack are left out, as is count.
- ExecArguments.ArgPages.CopyStrings: what the program does after a byte has gone outside page[] is not defined, and the model stops there.
- NameSpace.FileTree.FindEntry: a directory is one sequence of entries, without holes and mount points; the empty name, which match takes for ".", is excluded because its callers never pass it on.
- NameSpace.FileTree.Mknod: no sleeping in the middle of a call; link counts beyond a byte; creating a file with open, which does the same.
- Resolving whole paths (get_dir, follow_link), permissions and the in-core inode table (iget, iput's count) beyond who holds what.
- find_empty_process, tty, console, keyboard, boot code, the IDE driver and the system calls around them: hardware or plumbing.
- Some C functions are several methods here, called in the same order; the splits are only there to keep each proof small.
