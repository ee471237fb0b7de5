# A verified model of the octopos kernel core

octopos is an xv6-style kernel for RISC-V. This project models the parts of it whose correctness is
hardest to see from the code, and proves what those parts promise: the write-ahead log over the
buffer cache, address spaces with lazy allocation and copy-on-write fork, the stride scheduler and
the exit/wait protocol, inodes over the block allocator, and the virtio disk queue.

Code that updates things in place is modelled by classes and methods with loops, each proved against
a function or relation over values; protocols of several processes, the device or crashes are state
machines whose invariants are proved over every run. `dafny verify dfyconfig.toml` checks everything.

| component | files |
|---|---|
| log | `RedoLog`, `GroupCommit`, `LogDriver`, `CachedLog` |
| buffer cache | `RecencyRing`, `BufferCache` |
| memory | `Sv39`, `Division`, `AddressBits`, `PageTree`, `PageWalk`, `CowMemory`, `UserMemory`, `FlatTables` |
| processes | `StrideScheduler`, `SchedulerLoop`, `ProcessLifecycle` |
| file system | `InodeBlocks`, `Bitmap`, `FileSteps`, `FileSystem`, `Mkfs` |
| disk queue | `VirtioQueue`, `VirtioDriver`, `VirtioProtocol` |

## Main results

- **Crash atomicity.** Cut a commit between any two block writes, let recovery be cut any number of
  times, and let one recovery finish: the home blocks are all old or all new, and new exactly when the
  nonzero header landed (`RedoLog.CommitAtomicRepeated`). Over every interleaving of operations and
  crashes each operation's updates are all durable or all lost, and what is durable stays durable
  (`GroupCommit.CrashSafety`, `GroupCommit.RunKeepsDurable`). Run through the buffer cache, with pins
  as references, a commit issues the same writes (`CachedLog.CachedLog.Commit`); a transaction of any
  block updates over the cache reaches the disk whole or leaves it as it was, and takes back every pin
  that it set (`CachedLog.CachedLog.Transaction`).
- **The cache is invisible.** Every read returns the latest contents of its block. Recycling a buffer
  loses an update exactly when its last holder gave it up changed, neither written nor pinned
  (`BufferCache.BCache.Read`, `BufferCache.RecycleKeeps`).
- **Faults are invisible and fork isolates.** A fault changes nobody's memory, a forked child sees
  exactly its parent's memory, and a store is seen by its own process alone. Reference counts equal
  the number of mappings, fit in 8 bits, and a frame is freed exactly with its last mapping.
- **The page table is a flat map.** Walking, mapping and unmapping three-level tables are the
  operations of a map from pages to leaves. From the tables of a new process on, every such operation
  keeps tables and map in step (`FlatTables.CreateTable`, `FlatTables.MapInTable`), and the teardown of
  a process frees every table page once (`FlatTables.TearDown`).
- **The bounded scheduler is the unbounded one.** A busy run with 64-bit passes and normalization makes
  the choices of unbounded passes exactly when every addition of a stride fits
  (`StrideScheduler.RunMatchesIff`); unbounded passes stay within one largest stride of each other, and
  two processes that stay active are scheduled in proportion to their tickets.
- **No lost wakeup, no stray zombie** over every interleaving of fork, exit, wait and kill.
- **Each block has one owner.** The free map marks exactly the metadata and the blocks that some slot
  of some inode holds; writing splices one file and truncating frees one file's blocks. Blocks taken
  are blocks needed: a write ends exactly when the free blocks suffice, and mkfs uses exactly the
  blocks that its files need.
- **The disk queue keeps requests apart.** Chains in flight are descriptors {0,1,2} or {3,4,5}, a
  completion clears the flag of its own buffer only, and no process waiting for descriptors is forgotten.

## Where a promise needs a condition

- A log write is refused as too big exactly when the header is full, before it is seen that the block
  would only be absorbed. So operations that keep to ten different blocks have their reservation
  (`GroupCommit.ReservationHolds`) and yet can meet the panic (`GroupCommit.AbsorbedWriteCanPanic`);
  operations that keep to ten calls cannot (`GroupCommit.CallsNeverPanic`). A chunk of a file write
  keeps to 10 different blocks, but may take 16 calls. On a disk whose free map is one block, as mkfs
  makes it, a chunk keeps to 7 blocks (`FileSystem.FileSystem.WriteChunk`), and operations that keep
  below ten different blocks never meet the panic (`GroupCommit.SparingNeverPanics`).
- A commit runs out of buffers exactly when every buffer is referenced and a block of the log area is
  not cached, which needs more than NBUF - 2 references; it then stops before the header is written
  (`CachedLog.CachedLog.Commit`, `RecencyRing.CommitFindsBuffer`). One transaction of NBUF - 1 blocks,
  fewer than the log admits, takes all buffers (`BufferCache.FillWithPins`).
- The unchecked addition of the stride agrees with unbounded passes exactly when it does not wrap, or
  wraps where no other pass counts; a change of tickets while running can make it wrap
  (`StrideScheduler.SwitchOutRefines`, `StrideScheduler.TicketsCanWrap`).
- Without a refused allocation, fork's copy succeeds exactly for a size up to TRAPFRAME; beyond, it ends
  in the remap panic (`UserMemory.Vm.Fork`), and so does an eager grow exactly when the new pages hold a
  fixed page (`UserMemory.Vm.Grow`). A lazy grow does not bound the size and so leads there
  (`UserMemory.ForkBeyondTrapframe`), and shrinking from such a size frees a fixed page exactly when the
  pages given up hold one (`UserMemory.Vm.Grow`).
- The loop of a write to an open file, within the largest file, ends exactly when the memory written
  from can be read and the missing blocks of its range, with the indirect block, are no more than the
  free blocks at the start; otherwise it goes on for ever (`FileSystem.FileSystem.FileWrite`, and
  `FileSystem.EndlessWrite` on a disk of two blocks). Beyond the largest file it is refused exactly when
  memory and free blocks carry it to within a chunk of that limit (`FileSteps.WriteLoopRefused`);
  otherwise it goes on for ever too.
- A write from kernel memory copies all that is left of its source into one block's buffer. The copy
  stays within the buffer exactly when the write is refused, has no block, or lies within one block
  (`FileSystem.FileSystem.WriteFromKernel`); a directory entry does.
- Reading a file gives it the blocks that it lacks, exactly when the read meets a missing block and one
  is free. As a read begins no operation, that is the panic for a log write outside of a transaction,
  exactly when no other operation is outstanding (`FileSystem.FileSystem.FileRead`).
- mkfs does not check that its inodes fit the inode table. As long as none lands in a data block, it ends
  exactly when every file can be mapped and the blocks used are fewer than the bits of a map block. What
  it made holds every file exactly when the inodes fit the table and the blocks used fit the disk
  (`Mkfs.MakeImage`). The first inode beyond the table lies in the block of the free map, which is written
  over it (`Mkfs.LostFile`); eight files of the largest size do not fit the disk (`Mkfs.OverfullImage`).
- Rounding up the size of the root directory leaves it without holes exactly when its size was not on a
  block boundary (`Mkfs.Image.FixRoot`). If it was and a block is free, reading its end while no
  operation is outstanding is the panic above (`Mkfs.ReadRootEnd`).

One comment differs from the code: the cache's list is described as a head followed by buffer 0, but
buffer 0 is the head itself (kernel/src/buf.rs:227-233). The model follows the code.

## Model

| member | source | states |
|---|---|---|
| `RedoLog.HeadRoundTrip` | kernel/src/log.rs:110-155 | A header written over a block is read back as the same list, and the rest of the block stays. |
| `RedoLog.RecoveredAt` | kernel/src/log.rs:348-360 | After recovery every block is known: listed blocks hold their log copies, the header is empty, the rest is untouched. |
| `RedoLog.RecoveryRestarts` | kernel/src/log.rs:73-103 | A crash between any two writes of a recovery leaves a disk that recovers to the same disk. |
| `RedoLog.CommitAtomic` | kernel/src/log.rs:281-303 | For every prefix of a commit's block writes, recovery yields the old home blocks up to the header write and the new ones from it on. |
| `RedoLog.CommitAtomicRepeated` | kernel/src/log.rs:344-360 | The same with any number of interrupted recoveries in between. |
| `GroupCommit.ReservationHolds` | kernel/src/log.rs:228-244 | In every state of every run whose operations keep to ten different blocks, the header plus the unspent reservations fit in the log; the too-big guard fires exactly on a full header, and then every outstanding operation has logged ten different blocks. |
| `GroupCommit.CallsNeverPanic` | kernel/src/log.rs:228-316 | In every run whose operations keep to ten calls, an operation with fewer than ten behind it does not meet the too-big guard. |
| `GroupCommit.SparingNeverPanics` | kernel/src/log.rs:228-316 | In every run whose operations keep below ten different blocks, no operation meets the too-big guard, however often it logs them. |
| `GroupCommit.StepInv` | kernel/src/log.rs:226-342 | Begin, log, end, each block write of commit and recovery, crash and boot keep the invariant that links disk, view, header and history. |
| `GroupCommit.CrashSafety` | kernel/src/log.rs:249-303 | In every state of every run, whatever the operations log, recovering the disk gives the replay of the durable updates, whole operations at a time; nothing begins or logs during a commit. |
| `GroupCommit.RunKeepsDurable` | kernel/src/log.rs:281-303 | Durable updates stay durable to the end of every run, across crashes. |
| `GroupCommit.AbsorbedWriteCanPanic` | kernel/src/log.rs:313-334 | A run in which every operation keeps to ten different blocks and yet logging one of them again is refused. |
| `LogDriver.Log.constructor` | kernel/src/log.rs:363-376 | An empty header over an uncached disk. |
| `LogDriver.Log.WriteLog` | kernel/src/log.rs:158-179 | The loop writes the cached contents of the listed blocks to the log, in order. |
| `LogDriver.Log.WriteHead` | kernel/src/log.rs:136-155 | One block write, the encoding of the list over the old header block. |
| `LogDriver.Log.InstallTrans` | kernel/src/log.rs:73-103 | The loop writes the log copies home and, unless recovering, drops exactly one pin per listed block. |
| `LogDriver.Log.ReadHead` | kernel/src/log.rs:110-128 | Reads the list back, failing exactly on a count the array cannot hold. |
| `LogDriver.Log.Commit` | kernel/src/log.rs:281-303 | Cache and disk agree afterwards, and every prefix of the writes it issues recovers to all old or all new. |
| `LogDriver.Log.RecoverFromLog` | kernel/src/log.rs:348-360 | Leaves the recovered disk and an empty log. |
| `LogDriver.Log.Record` | kernel/src/log.rs:326-341 | The scan lists a block once; a newly listed block, and only that, is pinned. |
| `LogDriver.Log.Write` | kernel/src/log.rs:310-342 | Both panics and their conditions; otherwise every listed block carries one pin and the cache differs from the disk in listed blocks only. |
| `LogDriver.Log.EndOp` | kernel/src/log.rs:249-278 | Commits exactly when the last operation ends; the panic exactly during a commit. |
| `CachedLog.CachedLog.Fetch` | kernel/src/buf.rs:149-165 | A block of the disk in a referenced buffer, with its latest contents; fails exactly when it is not cached and every buffer is referenced. |
| `CachedLog.CachedLog.LogBlock` | kernel/src/log.rs:164-178 | Through two buffers, the log block gets the cached contents of a listed block; no reference is left over; fails exactly when the log block is not cached and every buffer is referenced. |
| `CachedLog.CachedLog.WriteLog` | kernel/src/log.rs:158-179 | The loop issues the log copies in order, all of them exactly when every log block can be fetched. |
| `CachedLog.CachedLog.WriteHead` | kernel/src/log.rs:136-155 | The header block gets the list through its buffer. |
| `CachedLog.CachedLog.InstallBlock` | kernel/src/log.rs:79-102 | The home block gets the log copy, and loses its pin and no other reference. |
| `CachedLog.CachedLog.InstallTrans` | kernel/src/log.rs:73-103 | The loop issues the installs in order; after it every listed block has one reference less and no other buffer has. |
| `CachedLog.CachedLog.WriteToLog` | kernel/src/log.rs:288-291 | The first half of a commit issues the log copies and the header, or a prefix of the copies for want of a buffer. |
| `CachedLog.CachedLog.InstallAndErase` | kernel/src/log.rs:292-301 | The second half issues the installs and the empty header, and drops exactly one reference per listed block. |
| `CachedLog.CachedLog.Commit` | kernel/src/log.rs:281-303 | The commit over the cache issues the writes of the redo log, each prefix of which recovers to all old or all new; when it runs out of buffers, and that this loses the transaction and nothing else. |
| `CachedLog.CachedLog.Write` | kernel/src/log.rs:310-342 | Logging over the cache: both panics and their conditions; a block listed for the first time, and only that, is pinned, so every buffer has the references of its holders and one more exactly if its block is listed. |
| `CachedLog.CachedLog.Update` | kernel/src/fs.rs:126-131 | Read, change, log and release: the change is seen in its block alone, the disk does not have it, no reference is left over but the pin; which panic occurs when. |
| `CachedLog.CachedLog.Transaction` | kernel/src/log.rs:281-342 | Any updates and their commit over the cache: the disk gets all of them and every pin is gone, or a panic on the way leaves a disk that recovers to the one before. |
| `RecencyRing.InitialRing` | kernel/src/buf.rs:224-233 | The initial links form one cycle through all buffers. |
| `RecencyRing.MoveToFront` | kernel/src/buf.rs:184-204 | Unlinking and relinking a buffer keeps one cycle and moves that buffer to the front of the recency order. |
| `RecencyRing.CommitFindsBuffer` | kernel/src/buf.rs:126-146 | When a commit can read a log block that is not cached: exactly when the blocks pinned and the other buffers referenced are at most NBUF - 2. |
| `BufferCache.RecycleKeeps` | kernel/src/buf.rs:126-142 | Recycling an unreferenced buffer changes what is seen of its block exactly when the buffer differs from the disk, and then its last holder gave it up so. |
| `BufferCache.FillKeeps` | kernel/src/buf.rs:157-162 | Filling a buffer from disk shows what was already shown. |
| `BufferCache.WriteKeeps` | kernel/src/buf.rs:168-171 | Writing a buffer changes the disk, not what is seen. |
| `BufferCache.ModifyKeeps` | kernel/src/buf.rs:53-62 | A holder's change is seen in its block and in no other. |
| `BufferCache.BCache.constructor` | kernel/src/buf.rs:224-233 | An empty cache shows the disk, and no block is given up unwritten. |
| `BufferCache.BCache.Find` | kernel/src/buf.rs:111-121 | Finds the buffer of a block exactly when there is one. |
| `BufferCache.BCache.Walk` | kernel/src/buf.rs:123-145 | Ends; finds the least recently released unreferenced buffer, and none only when all but the head are referenced. |
| `BufferCache.BCache.Get` | kernel/src/buf.rs:108-146 | At most one buffer per block; a miss recycles the least recent one, whose block then falls back on the disk; the panic occurs exactly when the block is not cached and every buffer is referenced. |
| `BufferCache.BCache.Read` | kernel/src/buf.rs:149-165 | Returns the latest contents of the block; no other block is seen to change unless it was given up unwritten. |
| `BufferCache.BCache.Modify` | kernel/src/buf.rs:59-61 | The holder's change becomes the latest contents of its block alone. |
| `BufferCache.BCache.Write` | kernel/src/buf.rs:168-171 | The disk gets the buffer's contents, after which the buffer may be given up. |
| `BufferCache.BCache.Release` | kernel/src/buf.rs:177-205 | The last release moves the buffer to the front of the recency order; its block joins those that recycling may lose exactly when this was the last reference to a buffer that differs from the disk. |
| `BufferCache.BCache.Pin` | kernel/src/buf.rs:208-211 | One more reference, so no recycling. |
| `BufferCache.BCache.Unpin` | kernel/src/buf.rs:214-217 | One reference less, without moving the buffer; the same holds of its block. |
| `BufferCache.FillWithPins` | kernel/src/buf.rs:108-146 | Reading, changing, pinning and releasing NBUF - 1 blocks succeeds, and the read of one more ends in the panic. |
| `Sv39.PteRoundTrip` | kernel/src/riscv.rs:530-540 | An entry gives back its page and its flags, for every aligned page and ten flag bits. |
| `Sv39.ReflagKeepsPage` | kernel/src/vm.rs:718-721 | Changing permission bits as copy and the fault handler do keeps the page and the valid bit. |
| `Sv39.SameEntrySamePage` | kernel/src/riscv.rs:542-564 | Two addresses below MAXVA have the same three indices exactly when they share a page. |
| `Sv39.RootHalf` | kernel/src/riscv.rs:559-564 | Below MAXVA only half of the root table is reached. |
| `Sv39.RoundingDown` | kernel/src/riscv.rs:516-518 | The nearest page boundary below. |
| `Sv39.RoundingUp` | kernel/src/riscv.rs:512-514 | Up to the last page, rounding up does not go down and goes up by less than a page. |
| `Sv39.RoundingUpAligns` | kernel/src/riscv.rs:512-514 | The result is a page boundary, at every address. |
| `Sv39.RoundingUpWraps` | kernel/src/riscv.rs:512-514 | Beyond the last page the sum wraps around and the result is 0. |
| `AddressBits.IndexIsDivision` | kernel/src/riscv.rs:542-557 | Shifting and masking an address gives the indices that division gives. |
| `AddressBits.RoundingIsDivision` | kernel/src/riscv.rs:512-518 | Masking an address rounds it down to the multiple of the page size. |
| `AddressBits.LimitIsValue` | kernel/src/vm.rs:353-355 | The bound on addresses, compared as words, is the bound on their values. |
| `PageTree.TranslateIsLookup` | kernel/src/vm.rs:348-378 | The hardware's three loads find what the tree of tables holds for the page. |
| `PageTree.AddTable` | kernel/src/vm.rs:366-373 | Hanging a new table under an invalid entry changes no translation. |
| `PageTree.SetLeaf` | kernel/src/vm.rs:430-430 | Writing a bottom entry changes the translation of its page and of no other. |
| `PageWalk.PxOfPage` | kernel/src/riscv.rs:545-557 | The indices of an address are those of its page. |
| `PageWalk.LeavesAreMappings` | kernel/src/vm.rs:443-460 | Some leaf is left in some table exactly when some page is mapped. |
| `PageWalk.PageTable.constructor` | kernel/src/vm.rs:312-324 | A root table without mappings. |
| `PageWalk.PageTable.TryNew` | kernel/src/vm.rs:277-288 | A page from the allocator, or none. |
| `PageWalk.PageTable.Descend` | kernel/src/vm.rs:358-374 | One level of the walk reaches the table below, creating it if asked, without changing a translation. |
| `PageWalk.PageTable.Walk` | kernel/src/vm.rs:348-378 | Reaches the bottom entry of the page; which error occurs when; without alloc nothing changes. |
| `PageWalk.PageTable.SetEntry` | kernel/src/vm.rs:424-430 | Stores a bottom entry, keeping the tree. |
| `PageWalk.PageTable.MapPages` | kernel/src/vm.rs:417-441 | Maps exactly the pages before the one that stopped it, all of them new; the remap panic only at a mapped page, an error only beyond MAXVA or for want of a table. |
| `PageWalk.PageTable.Unmap` | kernel/src/vm.rs:589-616 | Unmaps exactly the range, skipping absent pages, and lists the frames to free in order; the inner-entry panic cannot occur. |
| `PageWalk.PageTable.FreeWalk` | kernel/src/vm.rs:445-464 | Frees every table of the subtree once; panics exactly when a leaf is left. |
| `PageWalk.PageTable.Free` | kernel/src/vm.rs:686-691 | Leaves no table exactly when all mappings lie below the size. |
| `PageWalk.PageTable.ProcFree` | kernel/src/vm.rs:696-700 | The same with the two fixed pages, whose frames are kept. |
| `FlatTables.FlatAt` | kernel/src/vm.rs:383-411 | The flat map of a table holds the hardware's translation of every page. |
| `FlatTables.WalkIsUnseen` | kernel/src/vm.rs:366-373 | Tables created by a walk do not show in the flat map. |
| `FlatTables.MapIsPut` | kernel/src/vm.rs:417-441 | Mapping a page in the tables is adding one leaf to the flat map. |
| `FlatTables.UnmapIsCut` | kernel/src/vm.rs:589-616 | Unmapping a range in the tables is cutting the range out of the flat map. |
| `FlatTables.NothingElseMapped` | kernel/src/vm.rs:686-700 | Between operations a table maps nothing beyond the size of its process but the fixed pages. |
| `FlatTables.MapInTable` | kernel/src/vm.rs:417-441 | Mapping a page in tables and map together keeps the two in step; which outcome occurs when. |
| `FlatTables.UnmapInTable` | kernel/src/vm.rs:589-616 | The same for unmapping a range, which loses a fixed page exactly when the range holds one; the frames that are listed to be freed. |
| `FlatTables.SetInTable` | kernel/src/vm.rs:717-721 | The same for replacing the entry of a mapped page. |
| `FlatTables.CreateTable` | kernel/src/proc.rs:502-531 | The tables of a new process map exactly the two fixed pages; for want of a table page, all tables go back to the allocator. |
| `FlatTables.NewMirrors` | kernel/src/proc.rs:502-531 | Such tables are in step with a process without user memory. |
| `FlatTables.MirrorsHolds` | kernel/src/vm.rs:686-700 | Tables in step with the map hold what the teardown assumes. |
| `FlatTables.TearDown` | kernel/src/vm.rs:686-700 | In every state between operations the table of a process can be taken down: the panic for a leaf does not occur, and every table page goes to the allocator, which did not have it. |
| `CowMemory.CountFits` | kernel/src/kalloc.rs:16-34 | No frame is mapped more than NPROC times, so its 8-bit count cannot wrap. |
| `CowMemory.MappedFrame` | kernel/src/kalloc.rs:47-68 | The count of a mapped frame is the number of its mappings, from 1 to NPROC, and it is not free. |
| `CowMemory.MapFreshKeeps` | kernel/src/vm.rs:805-819 | A fresh frame under an absent page changes that page of that process only, and the counts stay exact. |
| `CowMemory.DropKeeps` | kernel/src/vm.rs:606-613 | Dropping a page is seen by its process only; the frame is freed exactly when this was its last mapping. |
| `CowMemory.RepermKeeps` | kernel/src/vm.rs:717-721 | Taking permissions away is seen by nobody. |
| `CowMemory.ShareKeeps` | kernel/src/vm.rs:723-730 | A page that is not writable can be shared: the child sees the parent's page and the count stays exact. |
| `CowMemory.StoreKeeps` | kernel/src/vm.rs:846-852 | A store through a writable entry is seen at one page of one process. |
| `CowMemory.TakeAndReturn` | kernel/src/vm.rs:813-817 | A frame taken and returned leaves counts, free frames and memory as they were. |
| `UserMemory.CopyIsDropAndMap` | kernel/src/vm.rs:777-800 | Replacing a shared frame by a copy is dropping the page and mapping a fresh one. |
| `UserMemory.Vm.constructor` | kernel/src/kalloc.rs:75-92 | No process, all frames outside the kernel free. |
| `UserMemory.Vm.KAlloc` | kernel/src/kalloc.rs:47-61 | A free frame with count 1, zeroed, or none. |
| `UserMemory.Vm.MapPage` | kernel/src/vm.rs:417-441 | One page of the flat map; never maps twice, nor over the fixed pages. |
| `UserMemory.Vm.UnmapPages` | kernel/src/vm.rs:589-616 | Exactly the range goes; its process sees zeros there and nobody else a change. |
| `UserMemory.Vm.MapZeroed` | kernel/src/vm.rs:805-819 | A zeroed page appears unseen, or nothing happens. |
| `UserMemory.Vm.DeallocPages` | kernel/src/vm.rs:666-681 | Exactly the whole pages beyond the new size go; a fixed page is lost exactly when they hold one. |
| `UserMemory.Vm.AllocPages` | kernel/src/vm.rs:622-658 | All new pages or none, after rollback; nobody sees a difference; unless an allocation is refused, a panic exactly when the new pages hold a fixed page. |
| `UserMemory.Vm.Grow` | kernel/src/proc.rs:763-786 | Growing, lazily or not, is unseen, and lazily it always succeeds; eagerly, unless an allocation is refused, it panics exactly when the new pages hold a fixed page; shrinking zeroes whole pages, and frees a fixed page exactly when the range holds one; pages stay below the size; errors change nothing and have their causes. |
| `UserMemory.Vm.VmFault` | kernel/src/vm.rs:759-820 | No process sees any difference; on success the page is there and writable. It is an error exactly beyond the size, on a present page that is not copy-on-write, in the fixed pages or beyond, and for want of memory; then no entry changed. |
| `UserMemory.Vm.CopyOnWrite` | kernel/src/vm.rs:777-803 | The process gets its own writable frame with the same contents. |
| `UserMemory.Vm.ShareOne` | kernel/src/vm.rs:717-733 | One page shared with the child, write-protected on both sides. |
| `UserMemory.Vm.CopyOne` | kernel/src/vm.rs:711-735 | One more page of the parent is seen by the child; or, for want of memory, the child is empty again and nobody sees a difference. |
| `UserMemory.Vm.Copy` | kernel/src/vm.rs:705-737 | The child sees what the parent saw; a failed copy is seen by nobody, although entries of the parent stay write-protected; it completes only up to TRAPFRAME and panics only beyond. |
| `UserMemory.Vm.ProcFree` | kernel/src/vm.rs:696-700 | At any size, the process is gone with all its mappings; the others see no change. |
| `UserMemory.Vm.Fork` | kernel/src/proc.rs:790-808 | The child sees exactly the parent's memory, everyone else what they saw; a fork ends in an error only for want of memory and is then not seen, and in the panic only beyond TRAPFRAME, where it does not succeed. |
| `UserMemory.Vm.NewProc` | kernel/src/proc.rs:502-531 | A process without user memory, seen by nobody; refused only for want of memory. |
| `UserMemory.ForkBeyondTrapframe` | kernel/src/proc.rs:763-808 | A process grown lazily beyond TRAPFRAME forks into the remap panic, unless an allocation is refused. |
| `UserMemory.Vm.Resolve` | kernel/src/vm.rs:834-837 | A page for the kernel to use, unseen; refused, from the state before, exactly when the page is out of reach or for want of memory. |
| `UserMemory.Vm.WritePage` | kernel/src/vm.rs:827-856 | Bytes arrive in one page of one process; refused exactly when the page refuses or for want of memory, and then nothing changes. |
| `UserMemory.Vm.CopyTo` | kernel/src/vm.rs:823-859 | Exactly the first done bytes arrive at the destination, in this process only; all of them exactly on success. In terms of the state before, no page up to there refuses, as a present copy-on-write page does, and it stops only where one does or for want of memory. |
| `UserMemory.Vm.CopyFrom` | kernel/src/vm.rs:862-886 | The bytes the process sees, or the prefix up to the first page that is out of reach in the state before, or for want of memory; nobody's memory changes. |
| `UserMemory.Vm.Clear` | kernel/src/vm.rs:742-746 | The page leaves the user's reach with its contents kept. |
| `StrideScheduler.StrideExact` | kernel/src/proc.rs:555-565 | stride * tickets is LARGE_NUMBER for every accepted ticket count. |
| `StrideScheduler.MinPass` | kernel/src/proc.rs:702-713 | The first process with the least pass among the given states, or none. |
| `StrideScheduler.BaselineBounds` | kernel/src/proc.rs:1181-1185 | The baseline is not behind the running process, not ahead of a Runnable one, and within one largest stride of all active ones. |
| `StrideScheduler.FairStep` | kernel/src/proc.rs:958-1013 | Every step of a busy hart keeps active passes within LARGE_NUMBER / 10. |
| `StrideScheduler.NormalizeRefines` | kernel/src/proc.rs:979-996 | One normalization moves a common offset, keeps the choice and removes the overflow. |
| `StrideScheduler.SwitchOutRefines` | kernel/src/proc.rs:1000-1007 | The addition of the stride agrees with unbounded passes, for some offset, exactly when it fits: it does not wrap, or the process exits, or no other pass counts. |
| `StrideScheduler.StepRefines` | kernel/src/proc.rs:971-1003 | Every step of the bounded scheduler that fits is the step of the unbounded one, up to the offset. |
| `StrideScheduler.RunRefines` | kernel/src/proc.rs:958-1013 | Every busy run of the bounded scheduler whose switches fit makes the choices of the unbounded one. |
| `StrideScheduler.RunMatchesIff` | kernel/src/proc.rs:958-1013 | A busy run of the bounded scheduler is a run of the unbounded one exactly when every switch fits. |
| `StrideScheduler.RunStaysClose` | kernel/src/proc.rs:836-845 | In every such run active passes stay within LARGE_NUMBER / 10 of each other, new and woken processes included. |
| `StrideScheduler.ProportionalShare` | kernel/src/proc.rs:958-1013 | Two processes active throughout with unchanged tickets have schedule counts times stride within 2 * LARGE_NUMBER / 10. |
| `StrideScheduler.TicketsCanWrap` | kernel/src/proc.rs:555-561 | A run in which a change of tickets leaves a switch that does not fit, and another process is picked. |
| `SchedulerLoop.ProcTable.constructor` | kernel/src/proc.rs:582-596 | All slots unused, with the least tickets. |
| `SchedulerLoop.ProcTable.SubtractAll` | kernel/src/proc.rs:988-993 | The loop subtracts the baseline from every pass, saturating at zero. |
| `SchedulerLoop.ProcTable.Dispatch` | kernel/src/proc.rs:958-1000 | Starts the first Runnable process with the least pass after at most one retry, as the machine's step does. |
| `SchedulerLoop.ProcTable.SwitchOut` | kernel/src/proc.rs:1000-1007 | The process is charged its stride, modulo 2^64. |
| `SchedulerLoop.ProcTable.Wakeup` | kernel/src/proc.rs:1176-1200 | The loop wakes exactly the sleepers on the channel, none behind the baseline. |
| `SchedulerLoop.ProcTable.SetTickets` | kernel/src/proc.rs:555-565 | Accepts exactly the multiples of 10 from 10 to 150, with an exact stride. |
| `ProcessLifecycle.HandOverInv` | kernel/src/proc.rs:851-858 | Handing a child to init keeps the protocol's invariant while init is still to be woken. |
| `ProcessLifecycle.ZombieInv` | kernel/src/proc.rs:885-899 | Becoming a Zombie under the parents lock keeps it. |
| `ProcessLifecycle.ReapInv` | kernel/src/proc.rs:912-942 | Reaping a child keeps it. |
| `ProcessLifecycle.LeaveInv` | kernel/src/proc.rs:944-950 | Going to sleep after a full scan loses no wakeup. |
| `ProcessLifecycle.StepInv` | kernel/src/proc.rs:790-952 | Every action of fork, exit, wait, kill and scheduling keeps the invariant. |
| `ProcessLifecycle.ZombiesAreAwaited` | kernel/src/proc.rs:851-952 | In every run, whenever the parents lock is free every Zombie has a living recorded parent that does not sleep in wait. |
| `ProcessLifecycle.ExitIsOrderly` | kernel/src/proc.rs:863-899 | The lock is exclusive, an exiting process has a parent to wake, and no child is left with a Zombie. |
| `InodeBlocks.WordPut` | kernel/src/fs.rs:569-580 | A word written into an indirect block is read back, the other words unchanged. |
| `InodeBlocks.UniqueSlot` | kernel/src/fs.rs:193-209 | Two slots never hold the same block. |
| `InodeBlocks.AttachDirect` | kernel/src/fs.rs:547-556 | A fresh block in a direct slot gets one owner and changes no byte outside that block of the file, and none at all if it is zeroed. |
| `InodeBlocks.AttachIndirect` | kernel/src/fs.rs:562-567 | The same for the indirect block. |
| `InodeBlocks.AttachEntry` | kernel/src/fs.rs:569-582 | The same for an entry of the indirect block. |
| `InodeBlocks.WriteData` | kernel/src/fs.rs:679-695 | Rewriting a block of a file changes those bytes of that file and no others. |
| `InodeBlocks.DetachDirect` | kernel/src/fs.rs:508-514 | Emptying a direct slot gives up its block and no other. |
| `InodeBlocks.DetachIndirect` | kernel/src/fs.rs:516-532 | Dropping the indirect block gives up it and what it lists. |
| `Bitmap.SetOneBit` | kernel/src/fs.rs:145-148 | Setting a bit sets that bit and no other. |
| `Bitmap.ClearOneBit` | kernel/src/fs.rs:169-176 | Clearing a bit clears that bit and no other. |
| `FileSteps.SpliceWrites` | kernel/src/fs.rs:679-695 | Rewriting part of a block writes those bytes of that file alone. |
| `FileSteps.NoHolesKept` | kernel/src/fs.rs:675-707 | A write leaves a file without holes without holes. |
| `FileSteps.ContentSpliced` | kernel/src/fs.rs:656-714 | Written bytes and the new size splice one file's contents, as far as the size goes, and no other's. |
| `FileSteps.FullStays` | kernel/src/fs.rs:134-163 | However a file gets its blocks, a full disk stays full. |
| `FileSteps.ChunkBound` | kernel/src/file.rs:219-233 | At any offset a chunk logs at most 4 data blocks, 4 of the free map, the indirect block and the inode block, in at most 16 calls. |
| `FileSteps.OneMapBound` | kernel/src/file.rs:219-233 | At any offset a chunk on a disk with one map block logs at most 7 blocks. |
| `FileSteps.PaysStep` | kernel/src/fs.rs:540-588 | Every block taken from the free ones for a block of a range is one that the range no longer needs. |
| `FileSteps.Sufficed` | kernel/src/fs.rs:675-703 | Having got all blocks of a range, the file needed no more than were free. |
| `FileSteps.FellShort` | kernel/src/fs.rs:134-163 | Standing before a missing block of a full disk, it needed more. |
| `FileSteps.WriteLoopRefused` | kernel/src/file.rs:219-254 | When the loop of a write that goes beyond the largest file is refused, in terms of the free blocks and the readable memory at its start; and that it is then refused within one round more than there are bytes. |
| `FileSystem.FileSystem.constructor` | kernel/src/fs.rs:113-117 | A file system as found on disk. |
| `FileSystem.FileSystem.Alloc` | kernel/src/fs.rs:134-163 | The nested scan finds the least free block, marks it alone and zeroes it; none exactly when all are taken. |
| `FileSystem.FileSystem.Free` | kernel/src/fs.rs:166-179 | Clears one bit; the panic exactly for a free block. |
| `FileSystem.FileSystem.MapDirect` | kernel/src/fs.rs:547-556 | A direct block, old or new, with ownership and free map kept; none exactly when it is missing and the disk is full; a new one takes one free block. |
| `FileSystem.FileSystem.MapIndirect` | kernel/src/fs.rs:562-567 | The same for the indirect block. |
| `FileSystem.FileSystem.MapEntry` | kernel/src/fs.rs:569-584 | The same for a block through the indirect block, whose buffer keeps a reference exactly when no block can be had. |
| `FileSystem.FileSystem.MapThrough` | kernel/src/fs.rs:558-585 | Both; blocks are taken exactly when the entry is missing and one is free, and all of them for that entry. |
| `FileSystem.FileSystem.Map` | kernel/src/fs.rs:540-588 | The block of a file, unchanged if it was there; no byte of any file changes; blocks are taken exactly when it is missing, can be mapped and one is free; fails only beyond the largest file and on a full disk. |
| `FileSystem.FileSystem.TruncDirect` | kernel/src/fs.rs:508-514 | Frees exactly the direct blocks, without the panic. |
| `FileSystem.FileSystem.FreeEntries` | kernel/src/fs.rs:521-526 | Frees exactly the listed blocks, without the panic. |
| `FileSystem.FileSystem.Trunc` | kernel/src/fs.rs:507-536 | Clears exactly the bits of the inode's blocks; no other file changes; the already-free panic cannot occur. |
| `FileSystem.FileSystem.WriteBlock` | kernel/src/fs.rs:678-699 | One block's worth of bytes arrives; or the block cannot be had and no byte changed; or the bytes that can be read from user memory arrive and are not logged. |
| `FileSystem.FileSystem.WriteNext` | kernel/src/fs.rs:677-703 | One round of the loop, with the account of what is logged and in how many calls. |
| `FileSystem.FileSystem.WriteBlocks` | kernel/src/fs.rs:675-703 | The loop writes a prefix, stopping early only where no block can be had or user memory fails; what is logged, per block touched; every block taken is for the range. |
| `FileSystem.FileSystem.SetSize` | kernel/src/fs.rs:705-707 | A new size moves no block and changes no byte. |
| `FileSystem.FileSystem.ReadBlocks` | kernel/src/fs.rs:622-649 | The loop of a read: how far it gets and when it changes the disk, from the state before it. |
| `FileSystem.FileSystem.Write` | kernel/src/fs.rs:656-714 | Splices the first r bytes of the source, whose length is taken in 32 bits, into one file, all unless a block cannot be had or user memory fails; of the block where it fails, the bytes that could be read arrive too, without counting beyond the end; refuses exactly beyond the end or the largest file. |
| `FileSystem.FileSystem.WriteFromKernel` | kernel/src/fs.rs:656-714 | When the copy from kernel memory runs beyond the buffer of its block; if it does not, the write is refused as above, or all or none of its bytes are spliced into one file. |
| `FileSystem.FileSystem.Read` | kernel/src/fs.rs:602-652 | A prefix of the bytes up to the end of the file, the length taken in 32 bits; all of them exactly when user memory takes them and the blocks are there or free; the disk changes exactly when a missing block is met and one is free; no file's contents change. |
| `FileSystem.FileSystem.FileRead` | kernel/src/file.rs:164-186 | When a read outside of any operation, of a length taken in 32 bits, is the panic for a log write outside of a transaction, and that it never is for a file without holes. |
| `FileSystem.FileSystem.WriteChunk` | kernel/src/file.rs:225-247 | A chunk logs at most MAXOPBLOCKS blocks, in at most 16 calls, for a file without holes, and at most 7 blocks, for any file, on a disk whose free map is one block. |
| `FileSystem.FileSystem.WriteRounds` | kernel/src/file.rs:225-247 | The loop, round by round: until it is stuck every round moves on, and once stuck it stays so. |
| `FileSystem.FileSystem.FileWrite` | kernel/src/file.rs:219-254 | What has arrived is a prefix, and at the end the whole source is spliced into the file; within the largest file a write ends, within one round more than there are bytes, exactly when user memory can be read and the blocks it needs are no more than are free at the start; beyond, when it is refused. |
| `FileSystem.EndlessWrite` | kernel/src/file.rs:219-254 | On a disk with one free block, a write of one byte more than a block never ends. |
| `Mkfs.Image.constructor` | mkfs/src/main.rs:121-156 | An image of zeros, all files empty. |
| `Mkfs.Image.AllocateInode` | mkfs/src/main.rs:245-255 | The next inode, empty, exactly up to the end of the map block behind the table; the one after is written over a data block, with these bytes. |
| `Mkfs.Image.MapBlock` | mkfs/src/main.rs:264-294 | The block of a file, taking exactly the missing ones, in order, with no bound; no byte changes but those of a new block. |
| `Mkfs.Image.AddIndirect` | mkfs/src/main.rs:274-277 | A zeroed indirect block, the next one, which changes no byte. |
| `Mkfs.Image.MapIndirectEntry` | mkfs/src/main.rs:279-293 | The same through the indirect block. |
| `Mkfs.Image.AppendInode` | mkfs/src/main.rs:257-309 | The file's contents grow by the data exactly when an inode can map them; no other file changes, files have exactly the blocks they need, and as many are taken as the longer file needs more. |
| `Mkfs.Image.FixRoot` | mkfs/src/main.rs:201-204 | When rounding up the root directory's size leaves a hole, and where. |
| `Mkfs.Image.AllocateBlock` | mkfs/src/main.rs:311-325 | The free map marks exactly the blocks used, if a map block has the bits, and takes the place of the inodes behind the table; on an image that fits the disk the blocks marked are metadata and owned blocks. |
| `Mkfs.FitsOnDisk` | mkfs/src/main.rs:153-156 | What the disk has of the image is in order, for some owners, exactly when no block was taken beyond it. |
| `Mkfs.ImageHolds` | mkfs/src/main.rs:121-209 | What is left of an image, once the map is written, holds every file in order exactly when the inodes fit the table and the blocks fit the disk. |
| `Mkfs.StartImage` | mkfs/src/main.rs:162-173 | The root directory holds its own two entries. |
| `Mkfs.AddFile` | mkfs/src/main.rs:175-199 | A file with its entry, or the exact reason why not; the others keep their bytes. |
| `Mkfs.FinishRoot` | mkfs/src/main.rs:201-204 | The entries and all bytes stay; where the root directory lacks a block. |
| `Mkfs.MakeImage` | mkfs/src/main.rs:121-209 | On which files the program ends, as long as no inode lands in a data block; the disk holds every file exactly when the inodes fit the table and the blocks fit the disk; the root directory has its entries, and the free map agrees with the owners. |
| `Mkfs.Mount` | mkfs/src/main.rs:121-209 | An image that fits satisfies the kernel's invariant. |
| `Mkfs.ReadRootEnd` | mkfs/src/main.rs:201-204 | A root directory whose entries fill their blocks makes the kernel's read of its end panic, when a block is free and no operation outstanding. |
| `Mkfs.OverfullImage` | mkfs/src/main.rs:121-209 | Eight files of the largest size make an image whose first FSSIZE blocks are no file system. |
| `Mkfs.LostFile` | mkfs/src/main.rs:245-255 | 207 empty files fit the disk, and yet the last of them is not in the image. |
| `VirtioQueue.ParseFormat` | kernel/src/virtio_disk.rs:299-326 | What the device reads from a formatted chain is the request. |
| `VirtioQueue.FormatChain` | kernel/src/virtio_disk.rs:299-326 | Formatting links the three descriptors in order. |
| `VirtioQueue.Alloc3Chains` | kernel/src/virtio_disk.rs:253-273 | From every reachable free map the allocation is {0,1,2}, else {3,4,5}, else none. |
| `VirtioQueue.WindowPush` | kernel/src/virtio_disk.rs:328-340 | Adding an entry to a ring with 16-bit wrapping indices adds it to the queue it stands for. |
| `VirtioQueue.WindowPop` | kernel/src/virtio_disk.rs:377-389 | Taking an entry takes the oldest; the ring is empty exactly when the indices agree. |
| `VirtioDriver.Disk.constructor` | kernel/src/virtio_disk.rs:163-193 | All descriptors free, nothing in flight. |
| `VirtioDriver.Disk.AllocDesc` | kernel/src/virtio_disk.rs:209-218 | Takes the first free descriptor, and fails exactly when there is none. |
| `VirtioDriver.Disk.FreeChain` | kernel/src/virtio_disk.rs:234-249 | Following the links frees exactly the three descriptors of the chain. |
| `VirtioDriver.Disk.Alloc3Desc` | kernel/src/virtio_disk.rs:253-273 | Three descriptors or none, a partial allocation undone. |
| `VirtioDriver.Disk.Submit` | kernel/src/virtio_disk.rs:299-340 | The chain is formatted for the request and queued, the buffer marked busy. |
| `VirtioDriver.Disk.HandleInterrupt` | kernel/src/virtio_disk.rs:364-390 | Acknowledges every completion and clears exactly those buffers' flags. |
| `VirtioDriver.Disk.Complete` | kernel/src/virtio_disk.rs:359-360 | Frees the chain and forgets the buffer. |
| `VirtioProtocol.StepInv` | kernel/src/virtio_disk.rs:276-390 | Every step of driver, device and interrupt keeps the invariant. |
| `VirtioProtocol.ChainsInFlight` | kernel/src/virtio_disk.rs:291-361 | In every run at most two requests are in flight, on disjoint chains {0,1,2} or {3,4,5}, and a waiting request implies descriptor 0 is in flight. |
| `VirtioProtocol.FinishWakes` | kernel/src/virtio_disk.rs:221-249 | In every run, a process that waits for descriptors either still waits at any later point, and then some process holds descriptor 0, or the end of such a holder's request has woken it. |
| `VirtioProtocol.AckClearsOwn` | kernel/src/virtio_disk.rs:377-389 | A completion clears the flag of its own buffer and no other. |
| `VirtioProtocol.TransferComplete` | kernel/src/virtio_disk.rs:276-361 | When rw returns, buffer and block agree, and a write stored what the buffer held. |

## Left out

- UserMemory.Vm.KAlloc: the buddy allocator is a set of free frames that may refuse at any time; refusals are counted, and errors are traced to them.
- FileSystem.FileSystem.Write: bytes left in a buffer by a failed copy are taken as seen from then on, although the cache may drop them, as `BufferCache.RecycleKeeps` says.
- FileSystem.FileSystem.WriteFromKernel: what a copy beyond the buffer overwrites is not described.
- FileSystem.FileSystem.FileWrite: the loop is watched for a given number of rounds, because it need not end.
- FileSystem.FileSystem.FileRead: the panic is stated, not the state that it leaves.
- Mkfs.Image.AllocateInode: beyond a fresh inode in a data block, the type and link count of inodes are left out.
- Mkfs.MakeImage: the image is not followed beyond the first inode in a data block, which needs more than 222 files; file names and the layout of directory entries are left out, an entry is 16 given bytes.
- FlatTables.MapInTable: tables and map are joined one page operation at a time; the operations of `UserMemory` that use them run on the map.
- CachedLog.CachedLog.Commit: recovery through the cache, which pins nothing, is modelled in `LogDriver` only.
- StrideScheduler.RunRefines: one busy hart, without kill's wakeup and without wakeups from an idle hart, which have no baseline.
- SchedulerLoop.ProcTable.SwitchOut: a change of state by the process itself and the context switch are one step.
- VirtioDriver.Disk.Submit: the 16-bit index of the available ring wraps around, as in a release build; so does the index in VirtioDriver.Disk.HandleInterrupt.
- ProcessLifecycle.ReapInv: the exit status and its copy to the waiting process are not part of the protocol.
- Inode types, link counts, the inode cache and its reference counts, directories and paths; the layout of inodes within a block, so the inode table is a sequence of inodes.
- exec, which builds a second address space for a process out of the modelled operations.
- Concurrency inside the buffer cache, file system and memory operations: each operation is one step under its locks.
- Integer widths other than those named above; block numbers, sizes and process ids are unbounded.
- Devices other than the disk, traps, the trampoline, boot, locks as memory operations, system call dispatch, pipes, the console and user programs.
