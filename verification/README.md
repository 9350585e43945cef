# RixuriOS: a Dafny model of its hard state

RixuriOS is a small x86_64 kernel written in C. This project models the parts of it whose
state is hardest to keep right, and proves what they promise over every input, every crash
or every run:

- **RixFS on disk**: the redo journal under crashes, packed directory records, and the
  file-system checker with its repair, down to the sectors of the device.
- **Memory**: four-level page tables, user address spaces, the page allocator, the kernel
  heap and the ELF loader.
- **Scheduling**: per-processor runnable masks, priority picks, thread objects, exit and
  reaping, and blocking reads of the console.
- **Block cache**: the write-back cache, one call at a time and with write-backs in flight.
- **Network**: TCP reassembly, Internet checksums, and the IPv4, TCP and UDP headers.

`dafny verify dfyconfig.toml` checks the whole project.

## How it is organised

| files | what they hold |
|---|---|
| `Common`, `Bytes` | machine words, pages, little-endian fields |
| `Disk` | a device with unflushed writes, programs of requests and every place a crash can cut them |
| `JournalFormat`, `Journal`, `JournalDriver` | header bytes, the writers' programs and the replay, and the code that sends the requests |
| `JournalAtomicity`, `JournalSingle`, `JournalRecovery` | crash safety of transactions and single writes, and both joined to the RixFS format and the driver |
| `JournalReplay`, `SectorHash` | the replay of any disk whatever, read off the header's bytes, and the checksum |
| `DirRecords`, `Directory`, `DirectoryNames` | records in a sector, the directory file, the directory as a name map |
| `Fsck`, `VolumeImage`, `FsckDevice` | the checker, the volume decoded from its sectors, check and repair on the device |
| `VolumeBytes`, `DirReading`, `VolumeSample` | inode fields, bitmap bits and directory records byte by byte, and a small volume in bytes |
| `PageTables`, `Vmm`, `PageWords` | the meaning of a tree of tables, the code that edits it, and the processor's walk over its 64-bit words |
| `UserPages`, `AddressSpace`, `SpaceClone` | user address spaces, destroying and cloning them |
| `PhysicalPages`, `Heap` | page allocator and kernel heap |
| `ElfFormat`, `ElfBytes`, `ElfImage`, `ElfLoader`, `ElfRights` | executables: the checks, the fields in the file, the image, loading it, rights on shared pages |
| `Runqueue`, `Threads`, `Scheduler`, `Dispatching`, `Reaping`, `Console` | picking, thread table, masks, where tasks wait and who runs, exit and wait, console readers |
| `BlockCache`, `WriteBack` | the cache as a sector store, and its steps interleaved |
| `TcpReceive`, `Checksum`, `Inet`, `WireFormat`, `Packet` | reassembly, one's-complement sums, header formats, their bytes on the wire, packet buffers |

Code that changes state in place is a class whose methods are proved against functions of
the old state. A crash, a failing device request and a racing step are nondeterministic.
Machine words that can wrap are written out (`% TWO64`).

## Findings

Properties the code does not have, each with an input and, where there is one, the exact
condition under which it does have them.

- **Journal, single write.** The writer accepts targets in the rest of the journal and a
  generation that wraps to zero; replay refuses both, so a crash leaves a volume that does
  not mount (`JournalSingle.SingleWriteRecoversExactlyWhen`, `JournalSingle.RefusedMount`).
- **Journal, transaction.** The header is durable before its payloads. A crash in between
  makes every later mount fail (`JournalAtomicity.MountRefusedExactlyWhen`,
  `JournalAtomicity.RefusalPersists`, `JournalAtomicity.RefusalPossibleExactlyWhen`).
- **Directory append.** With a spare sector behind the visible ones an append can report
  success and write where no reader looks (`Directory.LostAppend`); never with all sectors
  visible (`Tight` in `Directory.DirFile.Append`).
- **fsck.** The repair's size test rounds down to whole bytes, so a repair can succeed and the
  following check fail (`Fsck.RepairMissesTail`, `FsckDevice.RepairedDevice`). The size test of
  a regular file wraps for sizes near 2^64 (`Fsck.SizeTestExactlyWhen`).
- **Address space.** A root slot the kernel changed after the space borrowed it is torn down
  with the space (`AddressSpace.StaleSlot`, `AddressSpace.StraysExactlyWhen`).
- **Page allocator.** Reserving a byte range that does not start on a page leaves its first
  page out (`PhysicalPages.ReservesAllExactlyWhen`).
- **ELF loader.** On a page two segments share, the later one's rights win: an accepted file can
  end up with an entry point that cannot be executed (`ElfImage.RightsExactlyWhen`,
  `ElfRights.EntryNotExecutable`).
- **Runqueue.** `kernel/sched/runqueue.h` says normal work always drains. With five high slots
  below one normal slot it never does (`Runqueue.NormalStarved`,
  `Runqueue.NormalServedExactlyWhen`).
- **Idle loop.** A thread pinned to the processor that ran it last is never claimed again
  (`Scheduler.PinnedThreadIsLeftBehind`, `Scheduler.IdleClaimsExactlyWhen`).
- **Console.** Ctrl-C is meant to discard the unfinished line only. It takes bytes off the queue of
  complete lines, and can leave the ring's end in front of its start
  (`Console.InterruptKeepsExactlyWhen`, `Console.LineEndLost`).
- **Block cache.** A failed eviction of an entry somebody used meanwhile leaves the entry flagged
  for good, and a flush then succeeds without it (`WriteBack.StuckExactlyWhen`,
  `WriteBack.FlushedExactlyWhen`, `WriteBack.FlushMissesStuck`).
- **TCP receive.** A held segment the acknowledgment has passed keeps its slot for good; with all
  four slots so occupied every early segment is refused (`TcpReceive.ChokedForGood`,
  `TcpReceive.Choke`). From slots that are all still to come, an in-order segment leaves them so
  exactly when no held one starts inside it (`TcpReceive.Receiver.Arrive`).
- **TCP flags.** Push accepts nine flag bits, eight travel (`Inet.TcpRoundTrip`).

## Model

| member | source | states |
|---|---|---|
| `JournalAtomicity.TransactionAtomic` | kernel/fs/rixfs_ops.c:284-323 | however the transaction writer is cut, whatever unflushed writes survive, and however many mounts failed or crashed before, a mount that gets through finds every target new or every target old, nothing else outside the journal changed, and an empty journal |
| `JournalAtomicity.TransactionDurable` | kernel/fs/rixfs_ops.c:302-323 | once the payloads are flushed every later mount gets through and every target is new |
| `JournalAtomicity.MountRefusedExactlyWhen` | kernel/fs/rixfs.c:38-64 | after any crash run a mount reports -6 exactly when the header survived and some payload did not, and succeeds otherwise |
| `JournalAtomicity.RefusalPersists` | kernel/fs/rixfs.c:56-64 | a mount refused once is refused at every later attempt of the run |
| `JournalAtomicity.RefusalPossibleExactlyWhen` | kernel/fs/rixfs_ops.c:302-309 | all mounts after all crashes get through exactly when the journal's payload sectors already hold the payloads |
| `JournalSingle.SingleWriteRecovers` | kernel/fs/rixfs_ops.c:11 | after any crash every mount succeeds, leaves the target old or new and everything else outside the journal as it was, all mounts of a run come to the same, and from the header's flush on the target is new |
| `JournalSingle.SingleWriteRecoversExactlyWhen` | kernel/fs/rixfs.c:75-84 | this holds exactly when the sequence is not zero and the target lies outside the whole journal |
| `JournalSingle.RefusedMount` | kernel/fs/rixfs.c:78-84 | otherwise a crash just after the header's flush makes the mount report -7 |
| `JournalFormat.MultiRoundTrip` | kernel/fs/rixfs_ops.c:293-301 | replay reads from a transaction header the entries the writer put there |
| `JournalFormat.SingleRoundTrip` | kernel/fs/rixfs.c:75-77 | replay reads from a single-sector header the target, checksum and sequence the writer put there |
| `JournalFormat.MultiOnDisk` | kernel/fs/rixfs_ops.c:294-296 | magic, generation and count of a transaction header at their byte offsets, lowest byte first |
| `JournalFormat.EntryOnDisk` | kernel/fs/rixfs_ops.c:297-301 | target and checksum of every announced sector at their byte offsets |
| `JournalFormat.SingleOnDisk` | kernel/fs/rixfs_ops.c:11 | magic, target, generation and checksum of a single-sector header at their byte offsets |
| `Journal.ReplayOfAnnounced` | kernel/fs/rixfs.c:38-64 | replaying an announced transaction redoes its targets in order up to the first payload that is missing |
| `Journal.RecoveredIsQuiet` | kernel/fs/rixfs.c:65-74 | a replay that succeeds leaves nothing to replay |
| `JournalDriver.Volume.WriteTransaction` | kernel/fs/rixfs_ops.c:284-323 | the code sends exactly the transaction's program, stopped at the first failing request, and succeeds exactly when no request failed |
| `JournalDriver.Volume.WriteSingle` | kernel/fs/rixfs_ops.c:11 | the same for the single-sector write, with its refusals and the generation it leaves |
| `JournalDriver.Volume.ReplayJournal` | kernel/fs/rixfs.c:24-100 | the code runs the replay the crash theorems are about, cut at the first failing request, with its result code |
| `JournalReplay.ReplayAtMount` | kernel/fs/rixfs.c:26-101 | for every disk: a single-sector payload whose checksum is not the one in the header is never a success and changes nothing; every sector a replay changes holds a journal sector whose checksum the header keeps for that target, or is the erased header; success exactly when the header passes, and then the announced sectors are in place, the others as before and the header erased |
| `JournalReplay.ReplayChangesOnlyVouched` | kernel/fs/rixfs.c:56-63 | wherever a replay of any disk stops, no sector holds anything but what it held or what the header vouches for |
| `JournalReplay.SingleResult` | kernel/fs/rixfs.c:79-93 | the result on any single-sector header, from its bytes: -7 exactly for a zero sequence or a bad target, zero exactly when the checksum matches as well |
| `JournalReplay.MultiResult` | kernel/fs/rixfs.c:38-64 | the result on any transaction header, from its bytes: -4 exactly for a bad count, -5 for a bad target, zero exactly when every payload matches |
| `JournalReplay.ReplayLeaves` | kernel/fs/rixfs.c:56-101 | what a successful replay of any disk leaves in every sector |
| `JournalReplay.DamagedSingleRefused` | kernel/fs/rixfs.c:88-93 | with the checksum of RixFS: a payload with any one byte damaged is refused and the disk stays as it is |
| `JournalReplay.DamagedMultiRefused` | kernel/fs/rixfs.c:56-63 | one damaged byte in any payload of a transaction keeps the mount from getting through |
| `SectorHash.Hash64` | kernel/fs/rixfs.c:8 | the loop computes the hash, in 64 bits |
| `SectorHash.OneByteTells` | kernel/fs/rixfs.c:8 | two blocks that differ in exactly one byte never have the same checksum |
| `JournalRecovery.TransactionThenMount` | kernel/fs/rixfs.c:24-100 | for the RixFS format and the driver's own runs: all or nothing after any crash and any mounts, and all new if the writer had reported success |
| `JournalRecovery.SingleThenMount` | kernel/fs/rixfs.c:75-99 | for the RixFS format and the driver's own runs: every mount succeeds with the target old or new, the same each time |
| `DirRecords.TailFit` | kernel/fs/rixfs_ops.c:52-54 | an entry is packed behind the last record exactly when it fits, all other entries stay, and a sound sector is never called corrupt |
| `DirRecords.Place` | kernel/fs/rixfs_ops.c:49-51 | an entry staged in some bytes tiles them exactly, with a hole when a header fits |
| `Directory.Search` | kernel/fs/rixfs_dir.c:46-87 | on sound sectors the walk finds the first record of the name or proves there is none, and never reports corruption |
| `Directory.NextEntry` | kernel/fs/rixfs_dir.c:89-127 | iterating from the start yields the directory's listing, entry by entry |
| `Directory.DirFile.Lookup` | kernel/fs/rixfs_dir.c:46-87 | succeeds exactly when the name occurs, with its first entry |
| `Directory.DirFile.Remove` | kernel/fs/rixfs_dir.c:129-200 | takes the first entry of that name out of the listing, nothing else, and keeps sectors exactly tiled |
| `Directory.DirFile.Append` | kernel/fs/rixfs_ops.c:55-57 | adds exactly the one entry and keeps sectors tiled, unless the exact condition for a lost entry holds; with all sectors visible it never does and stays so |
| `Directory.LostAppend` | kernel/fs/rixfs_ops.c:55-57 | a directory where an append reports success and the entry is not there |
| `DirectoryNames.AddedName` | kernel/fs/rixfs_ops.c:55-57 | adding an entry under a new name binds that name in the name map and nothing else, wherever the entry ended up |
| `DirectoryNames.RemovedName` | kernel/fs/rixfs_dir.c:159-194 | taking an entry out unbinds its name and nothing else |
| `DirectoryNames.AddThenFind` | kernel/fs/rixfs_dir.c:46-87 | after an append every lookup sees the old name map with the one name bound |
| `DirectoryNames.RemoveThenFind` | kernel/fs/rixfs_dir.c:46-200 | after a removal every lookup sees the old name map without the one name |
| `DirReading.RecordFields` | kernel/fs/rixfs_dir.h:11 | inode, size, type, name length and name of a record at their byte offsets |
| `DirReading.ReadDirIsListing` | kernel/fs/rixfs_dir.c:89-127 | on a sound directory the checker reads exactly its entries, in order |
| `Fsck.Overlap` | kernel/fs/rixfs_fsck.c:26-29 | true exactly when the two extents share a sector |
| `Fsck.CheckInode` | kernel/fs/rixfs_fsck.c:30-67 | zero exactly when the inode is sound, shares no sector with a lower one and has every sector marked |
| `Fsck.OwnersApart` | kernel/fs/rixfs_fsck.c:39-50 | no two inodes of a volume that passes own the same sector |
| `Fsck.CheckReachable` | kernel/fs/rixfs_fsck.c:85-122 | zero exactly when every live inode is reached from the root along entries that can be followed |
| `Fsck.LinkCount` | kernel/fs/rixfs_fsck.c:69-84 | counts the entries for an inode over all directories, refusing exactly on unreadable directories or overflow |
| `Fsck.CountsDecide` | kernel/fs/rixfs_fsck.c:151-152 | with all owned sectors marked, equal counts mean exactly that the set bits are the owned sectors |
| `Fsck.Check` | kernel/fs/rixfs_fsck.c:135-162 | returns zero exactly on clean volumes: set data bits are the union of the disjoint extents, every live inode is reachable, link counts are entry counts |
| `Fsck.CleanMeans` | kernel/fs/rixfs_fsck.c:135-162 | what a clean verdict gives: a data sector is marked exactly when some extent has it, at most one extent has it, every entry names a live inode of its kind |
| `Fsck.RepairMissesTail` | kernel/fs/rixfs_fsck.c:199-200 | a sound volume whose bitmap passes the repair's size test and is not clean after it |
| `Fsck.SizeTestExactlyWhen` | kernel/fs/rixfs_fsck.c:63-64 | the size test compares bytes with sectors unless rounding up wraps, and then every size passes |
| `FsckDevice.CheckDevice` | kernel/fs/rixfs_fsck.c:135-162 | on the device, without failing requests: zero exactly when the journal replays and the recovered image, decoded from its sectors, is clean |
| `VolumeBytes.InodeInTable` | kernel/fs/rixfs.c:12 | inode i is read from the 128 bytes at 128 (i - 1) of the table |
| `VolumeBytes.InodeFields` | kernel/fs/rixfs.h:27 | number, size, links, the four starts and the four lengths of an inode, digit by digit at their byte offsets |
| `VolumeBytes.InodeKind` | kernel/fs/rixfs.h:14-17 | the type of an inode is the high half of byte 9 |
| `VolumeBytes.AllocatedBit` | kernel/fs/rixfs_fsck.c:15-25 | a sector is marked exactly when bit s mod 8 of byte s / 8 of the bitmap sectors is set |
| `VolumeSample.CheckSample` | kernel/fs/rixfs_fsck.c:135-162 | a volume written out in bytes, with different values in the inode fields, is found clean |
| `FsckDevice.RepairDevice` | kernel/fs/rixfs_fsck.c:192-233 | succeeds exactly on images that replay and have a sound structure and enough bitmap bytes; then the durable disk is the recovered one with only bitmap sectors changed, each to the rebuilt bits, and the number of wrong bits is reported |
| `FsckDevice.RepairedDevice` | kernel/fs/rixfs_fsck.c:192-233 | after a repair a mount replays nothing, inodes and directories decode as before, and the volume is clean exactly when the bitmap has a bit for every sector |
| `FsckDevice.RepairedMarks` | kernel/fs/rixfs_fsck.c:206-219 | a repair leaves marked exactly the sectors in front of the data area and those of some extent |
| `FsckDevice.RepairThenCheck` | kernel/fs/rixfs_fsck.c:135-233 | a check right after a repair returns zero exactly when the bitmap has a bit for every sector |
| `PageTables.SetLeafStep` | kernel/mm/vmm.c:127 | setting a bottom entry gives every address of its page the new mapping and every other canonical address the old one |
| `PageTables.WalkIsLookup` | kernel/mm/vmm.c:185 | the flags read off the last entry are the rights the whole walk grants |
| `Vmm.PageTableTree.EnsureTable` | kernel/mm/vmm.c:43 | a table is followed or installed without changing the meaning of any address |
| `Vmm.PageTableTree.SplitHugePage` | kernel/mm/vmm.c:44 | a 2 MiB mapping is cut into pages without changing the meaning of any address |
| `Vmm.PageTableTree.PruneEmptyPath` | kernel/mm/vmm.c:49-70 | empty tables on the path go back to the allocator, nothing changes its meaning, and none but reserved ones are left |
| `Vmm.PageTableTree.MapPage` | kernel/mm/vmm.c:127 | success gives every address of the page its place in the memory mapped with the rights and cache bits asked for and changes no other page, failure changes none, no frame is lost, and three free frames are enough |
| `Vmm.PageTableTree.UnmapPage` | kernel/mm/vmm.c:128 | success unmaps that page only, failure changes no translation, no frame is lost |
| `Vmm.PageTableTree.Translate` | kernel/mm/vmm.c:184 | the physical address of the flat map, or zero |
| `Vmm.MapThenTranslate` | kernel/mm/vmm.c:127-184 | an address of a page just mapped translates to its place in the memory mapped, any other address as before |
| `Vmm.UnmapThenTranslate` | kernel/mm/vmm.c:128-184 | an address of a page just unmapped translates to zero, any other address as before |
| `PageWords.ProcessorWalkIsLookup` | kernel/mm/vmm.c:185 | a walk over the 64-bit words, nine address bits a level, rights of all levels taken together, finds for every address what the tree means |
| `PageWords.MapThenWalk` | kernel/mm/vmm.c:127 | after a successful map the processor finds every address of the page with the rights asked for |
| `PageWords.WordRoundTrip` | kernel/mm/vmm.h:4-11 | every entry has its word: flag bits and frame come back |
| `PageWords.LeafWord` | kernel/mm/vmm.c:127 | the word written is the address plus the flag bits |
| `AddressSpace.Create` | kernel/process/address_space.c:49-64 | an empty space that borrows the kernel's shared slots, with the exact conditions of both refusals |
| `AddressSpace.Space64.Map` | kernel/process/address_space.c:65-67 | maps a free user page only, takes an owned page into the pool, and leaves everything as it was on failure |
| `AddressSpace.UserAddressExactlyWhen` | kernel/process/address_space.c:65-67 | user pages are exactly those of the second 512 GiB and of 2 TiB to 128 TiB |
| `AddressSpace.Space64.UpdateFlags` | kernel/process/address_space.c:68 | changes the rights of one owned user page and nothing else |
| `AddressSpace.Space64.Unmap` | kernel/process/address_space.c:69-82 | unmaps one page, frees it if it was owned, and keeps all tables |
| `AddressSpace.Space64.SyncKernel` | kernel/process/address_space.c:86-107 | every slot that is not the process's own becomes the kernel's as it is now |
| `AddressSpace.Space64.Destroy` | kernel/process/address_space.c:39-47 | gives back exactly the frames the space took plus those under stale borrowed slots: exactly the pool when nothing is stale |
| `AddressSpace.StraysExactlyWhen` | kernel/process/address_space.c:47 | a frame from outside the pool is freed exactly when a borrowed slot is not the kernel's any more |
| `AddressSpace.CreateThenDestroy` | kernel/process/address_space.c:39-64 | creating and destroying a space returns the frames it got |
| `AddressSpace.SyncThenDestroy` | kernel/process/address_space.c:39-107 | synchronising a space just before destroying it returns exactly its frames, whatever it had borrowed earlier |
| `AddressSpace.StaleSlot` | kernel/process/address_space.c:47 | a table of the kernel that is freed with a space |
| `SpaceClone.Clone` | kernel/process/address_space.c:109-146 | every user page of the source has the same bytes and rights on a fresh frame of its own, nothing else is mapped, other memory is untouched, and failure returns every frame; four frames a page and one more are enough |
| `UserPages.FramesOfOwner` | kernel/process/address_space.c:39-41 | the frames reached by tearing a user tree down are its tables and its owned pages, no more and no less |
| `PhysicalPages.PageAllocator.constructor` | kernel/mm/pmm.c:70-99 | after the firmware map is read, free pages are exactly the managed ones that are not reserved, with the counters right |
| `PhysicalPages.ReportedExactlyWhen` | kernel/mm/pmm.c:35-92 | for a map of whole pages the allocator manages exactly the pages below 128 GiB in regions of loader, boot-services or conventional memory |
| `PhysicalPages.PageAllocator.AllocBelow` | kernel/mm/pmm.c:100-119 | the lowest free page below the limit, never one in use or reserved |
| `PhysicalPages.PageAllocator.AllocPages` | kernel/mm/pmm.c:121-142 | the lowest run of free pages, or none exactly when there is none |
| `PhysicalPages.PageAllocator.FreePage` | kernel/mm/pmm.c:163-173 | a page comes back exactly when it is managed and not reserved |
| `PhysicalPages.PageAllocator.FreeRange` | kernel/mm/pmm.c:143-150 | exactly the managed, unreserved pages of the range come back |
| `PhysicalPages.PageAllocator.ReservePage` | kernel/mm/pmm.c:151-162 | a managed page leaves the free ones for good, counters right |
| `PhysicalPages.ReservesAllExactlyWhen` | kernel/mm/pmm.c:63-69 | reserving a byte range covers every page it touches exactly when it starts on a page |
| `Heap.KernelHeap.Kmalloc` | kernel/mm/heap.c:83-153 | a block that is aligned, inside one page and apart from all live and freed ones, refused exactly when no block, record or page is to be had |
| `Heap.KernelHeap.Kfree` | kernel/mm/heap.c:155-191 | exactly the live block at that address goes, its page with it when it was the last one, and any other address changes nothing |
| `Heap.HoldsNothingExactlyWhen` | kernel/mm/heap.c:163-183 | the heap holds no page exactly when it has no live block |
| `ElfFormat.Validate` | kernel/elf/elf.c:6-32 | accepts exactly the files with a good header, good program headers, disjoint load segments and an entry point in an executable one |
| `ElfBytes.ValidStartsWith` | kernel/elf/elf.c:9-14 | the bytes every accepted file starts with |
| `ElfBytes.HeaderFields` | kernel/elf/elf.h:14 | the fields of the file header, digit by digit at their byte offsets |
| `ElfBytes.ProgramFields` | kernel/elf/elf.h:15 | the fields of every program header, digit by digit at their byte offsets |
| `ElfBytes.SegmentRights` | kernel/elf/elf.h:15 | a segment is executable and writable by the two low flag bits, and lies where its header says |
| `ElfBytes.LoadsAreHeaders` | kernel/elf/elf.c:17 | the load segments are exactly the headers of type 1 with memory, in order |
| `ElfBytes.PowerOfTwoExactlyWhen` | kernel/elf/elf.c:17 | the alignment test accepts exactly the powers of two |
| `ElfImage.LoadedBytes` | kernel/elf/loader.c:60-101 | every byte of every load segment is the file's, or past the file's part what was there before, also on shared pages |
| `ElfImage.RightsExactlyWhen` | kernel/elf/loader.c:67-77 | a page has a segment's rights exactly when the last segment on that page asks for the same |
| `ElfLoader.LoadImage` | kernel/elf/loader.c:23-106 | a rejected file changes nothing; success shows the image in the space with the entry and range; an accepted file loads whenever no page in the way is someone else's and four frames a page are free |
| `ElfLoader.LoadedByte` | kernel/elf/loader.c:60-101 | after a load every byte of every segment is in user memory with the right value on a page that is not both writable and executable |
| `ElfRights.EntryNotExecutable` | kernel/elf/loader.c:67-77 | an accepted file whose entry page ends up not executable |
| `Runqueue.RunQueue.Pick` | kernel/sched/runqueue.c:25-58 | the first slot of the pool at or after the cursor, with the new cursor and streak |
| `Runqueue.SteppedIsPick` | kernel/sched/runqueue.c:25-58 | the function the bounds below are about is the pick itself |
| `Runqueue.StayingSlotPicked` | kernel/sched/runqueue.c:25-58 | a slot that stays in the pool is picked within 32 picks, whatever the other bits do |
| `Runqueue.StreakCapped` | kernel/sched/runqueue.c:39-58 | over every run of picks the streak of high picks never passes four |
| `Runqueue.NormalServedExactlyWhen` | kernel/sched/runqueue.h:26-46 | with fixed masks and k high slots a normal slot is picked within 5(k+1) picks if ever, and which of the two is decided by a condition on masks, cursor and streak |
| `Runqueue.NormalServed` | kernel/sched/runqueue.h:26-46 | with k not a multiple of five some normal slot is picked within 5(k+1) picks |
| `Runqueue.NormalStarved` | kernel/sched/runqueue.h:26-46 | five high slots below one normal slot: it is never picked |
| `Threads.ThreadTable.Alloc` | kernel/sched/thread.c:50-65 | ids are handed out in ascending order, and the table is full only with 64 live threads |
| `Threads.ThreadTable.DetachPid` | kernel/sched/thread.c:74-79 | exactly the active threads of the process are detached |
| `Scheduler.Scheduler.Verify` | kernel/sched/scheduler.c:315-331 | true exactly when every mask bit is set for a runnable task eligible there and no other |
| `Scheduler.Scheduler.PickFor` | kernel/sched/scheduler.c:225-268 | with right masks the pick is the runqueue's, no bit is healed and nothing is stolen |
| `Scheduler.Scheduler.Yield` | kernel/sched/scheduler.c:761-888 | keeps the masks right, so that the freeze is not reached, and takes the runqueue's pick |
| `Scheduler.Scheduler.ApIdle` | kernel/sched/scheduler.c:889-938 | one round of the idle loop keeps the masks right and claims the pick unless it is the task run last |
| `Dispatching.CreateThenWaits` | kernel/sched/scheduler.c:204-217 | a new task, whoever owns it, has its bit in the mask of the boot processor and in no other |
| `Dispatching.AllowThenWaits` | kernel/sched/scheduler.c:142-172 | a kernel thread let loose waits on every processor of its affinity |
| `Dispatching.PinThenWaits` | kernel/sched/scheduler.c:173-202 | an affinity is refused exactly when empty or when it leaves out the boot processor for a task only that may run; otherwise the bits are where it says |
| `Dispatching.YieldThenRuns` | kernel/sched/scheduler.c:761-888 | a yield that switches takes a waiting task that suits the processor and leaves the one it ran waiting; it never stays with a task that cannot go on while another could |
| `Dispatching.IdleThenRuns` | kernel/sched/scheduler.c:889-938 | the same for a round of the idle loop |
| `Dispatching.YieldUntilRuns` | kernel/sched/scheduler.c:225-268 | a waiting task with the boot processor in its affinity runs there within 32 yields, if it is high or nobody is |
| `Dispatching.FirstProcess` | kernel/sched/scheduler.c:644-888 | from an empty scheduler, the first user process is created and comes to run |
| `Dispatching.MigrationsCounted` | kernel/sched/scheduler.c:272-276 | the migration counter counts the changes of processor in a task's life |
| `Scheduler.Scheduler.Create` | kernel/sched/scheduler.c:644-740 | a new task with a new thread in a free slot, masks right; only a dead owner or a full task table makes it fail |
| `Scheduler.Scheduler.MarkDead` | kernel/sched/scheduler.c:621-631 | the thread is freed once and the task's bit leaves every mask |
| `Scheduler.Scheduler.SetAffinity` | kernel/sched/scheduler.c:173-202 | accepted exactly when some processor of the set may run the task, masks right again |
| `Scheduler.Scheduler.SetPriority` | kernel/sched/scheduler.c:295-314 | high only for kernel threads, and no mask bit moves |
| `Scheduler.Scheduler.AllowAp` | kernel/sched/scheduler.c:142-172 | only kernel threads, masks right again |
| `Scheduler.Scheduler.Wake` | kernel/sched/scheduler.c:559-587 | exactly the blocked tasks meant become runnable, masks right |
| `Scheduler.Scheduler.WaitAbort` | kernel/sched/scheduler.c:547-558 | a blocked task that gives up waiting is runnable again, masks right |
| `Scheduler.ThreadsFit` | kernel/sched/scheduler.c:651-656 | live threads match live tasks one to one, so the 64-entry table cannot fill |
| `Scheduler.IdleClaimsExactlyWhen` | kernel/sched/scheduler.c:889-938 | with a fixed table an idle processor claims a task within six rounds exactly when one other than its last is runnable and eligible there |
| `Scheduler.PinnedThreadIsLeftBehind` | kernel/sched/scheduler.c:889-938 | a run after which a runnable thread is never claimed again |
| `Scheduler.LeftBehindStays` | kernel/sched/scheduler.c:889-938 | no yield and no idle round of any processor changes that |
| `Reaping.NoThreadAfterExit` | kernel/process/process.c:463 | once exit has detached its threads no active thread names the process until the pid is given out again, whatever allocations race with it |
| `Reaping.ReapIsClean` | kernel/process/process.c:481-482 | an address space is destroyed only with no active thread left, and the check in front of it never sends the parent back |
| `Reaping.TidsNeverReused` | kernel/sched/thread.c:50-65 | a thread id given out at one step of a run is given out at no later one |
| `Reaping.NoParentForgotten` | kernel/process/process.c:484 | outside the process lock no parent is blocked in wait while a child it waits for is a zombie |
| `Reaping.ExitCompletes` | kernel/process/process.c:463 | from every reachable quiet state a live process can exit, with none of its threads active, other threads untouched and its parent's waiters woken |
| `Reaping.ReapCompletes` | kernel/process/process.c:481-482 | from every reachable quiet state a zombie can be reaped, and only it goes |
| `Reaping.AllocCompletes` | kernel/sched/thread.c:50-65 | a thread for a live process, none for a zombie, whatever exit is under way |
| `Reaping.BlocksExactlyWhen` | kernel/process/process.c:484 | a task goes to sleep in wait exactly when no child it waits for is a zombie |
| `Console.NoLostWakeup` | kernel/tty/tty.c:660-717 | in every reachable state, while a reader is blocked although its read would succeed, a depositor has still to wake it |
| `Console.Terminal.Read` | kernel/tty/tty.c:636-656 | succeeds exactly on a readable terminal, with the queued bytes up to the first line end, and consumes nothing otherwise |
| `Console.Terminal.Input` | kernel/tty/tty.c:589-634 | the new ring, counter and line for every byte, and no change when there is no room |
| `Console.LinesCounted` | kernel/tty/tty.c:589-656 | over every run without an interrupt of a line being typed, the ready counter is the number of complete lines queued |
| `Console.InputConserved` | kernel/tty/tty.c:589-656 | over every run without an interrupted line, what readers got and what is queued is exactly what was passed on, in order: whole lines in canonical mode, single bytes else |
| `Console.BlockedReaderServed` | kernel/tty/tty.c:660-717 | in every reachable state a blocked reader whose read would succeed is two steps from its data |
| `Console.InterruptKeepsExactlyWhen` | kernel/tty/tty.c:119-136 | a control byte keeps the queued lines exactly when no line is being typed; otherwise it cuts their end off or breaks the ring |
| `Console.LineEndLost` | kernel/tty/tty.c:119-136 | a complete line that loses its line end to Ctrl-C |
| `BlockCache.Cache.Read` | kernel/storage/block_cache.c:66-73 | returns the last value written, and keeps what callers see |
| `BlockCache.Cache.Write` | kernel/storage/block_cache.c:74-80 | changes what callers see for that sector, and nothing at all on failure |
| `BlockCache.Cache.EvictOne` | kernel/storage/block_cache.c:24-65 | frees the least recently used entry only, and only when its data is on the device |
| `BlockCache.ReadThenEvict` | kernel/storage/block_cache.c:24-73 | a sector just read is in the cache and outlives the next eviction |
| `BlockCache.Cache.Flush` | kernel/storage/block_cache.c:81-82 | success leaves every sector of the device as callers see it |
| `WriteBack.OverwrittenSurvives` | kernel/storage/block_cache.c:24-65 | an entry overwritten while its write-back is under way is never marked clean or discarded when that ends |
| `WriteBack.UntouchedIsWritten` | kernel/storage/block_cache.c:24-65 | an entry nobody used while it was written back is on the device when that ends well, and is clean, or gone if it was to be evicted |
| `WriteBack.WriteBackPossible` | kernel/storage/block_cache.c:81-82 | from every reachable state a dirty entry that is not flagged can be written back |
| `WriteBack.OnlyWritesAreSeen` | kernel/storage/block_cache.c:16-82 | over interleaved runs only writes change what callers see |
| `WriteBack.StuckExactlyWhen` | kernel/storage/block_cache.c:24-65 | the write-back flag is left behind exactly when an eviction failed and the entry was used meanwhile |
| `WriteBack.StuckForever` | kernel/storage/block_cache.c:17 | such an entry is never written back again |
| `WriteBack.FlushedExactlyWhen` | kernel/storage/block_cache.c:81-82 | when a flush finds nothing more, the device has everything exactly when every flagged dirty entry's data is there |
| `WriteBack.FlushMissesStuck` | kernel/storage/block_cache.c:24-82 | a run from an empty cache after which a flush succeeds without the data |
| `TcpReceive.Receiver.Arrive` | kernel/net/socket.c:564-590 | bytes delivered plus queued stay a prefix of the stream and the acknowledgment is its length plus FIN, for every segment cut from the stream; an early one is refused exactly when all slots hold others; dead slots stay |
| `TcpReceive.Receiver.Drain` | kernel/net/socket.c:503-515 | terminates, and leaves nothing held that is next unless the ring is full |
| `TcpReceive.Receiver.Hold` | kernel/net/socket.c:488-502 | the first free slot, unless a segment with that number is held |
| `TcpReceive.Receiver.Receive` | kernel/net/socket.c:646-671 | hands over the oldest packet, and reports end of file only when the whole stream was handed over |
| `TcpReceive.ChokedForGood` | kernel/net/socket.c:488-515 | with all slots dead they stay dead and every early segment is refused |
| `TcpReceive.Choke` | kernel/net/socket.c:564-590 | five segments of one stream that bring this about |
| `Checksum.SelfCheck` | kernel/net/net.c:3-6 | a sum over its own complement folds to a zero checksum |
| `Checksum.AddWords` | kernel/net/net.c:52-62 | the loop adds the big-endian words of the data, an odd byte as a high one |
| `Inet.TcpOverIp` | kernel/net/tcp.c:110-165 | pull after push over IPv4 and TCP accepts the packet, also padded, and returns the same fields and payload |
| `Inet.UdpOverIp` | kernel/net/udp.c:27-74 | the same over IPv4 and UDP, with a zero checksum sent as all ones |
| `Inet.TcpRoundTrip` | kernel/net/tcp.c:110-165 | all fields come back exactly when the flags are below 256 |
| `Inet.IpRoundTrip` | kernel/net/ipv4.c:22-59 | the IPv4 header and payload come back, also with padding behind |
| `WireFormat.PseudoSumIs` | kernel/net/tcp.c:25-41 | the transport checksums start from the sum of the pseudo header's bytes, as in section 3.1 of RFC 9293 |
| `WireFormat.IpOnTheWire` | kernel/net/ipv4.c:9-41 | every field of an outgoing datagram at its byte, and header words that sum up to all ones |
| `WireFormat.TcpOnTheWire` | kernel/net/tcp.c:110-139 | every field of an outgoing segment at its byte, and pseudo header and segment that sum up to all ones |
| `WireFormat.UdpOnTheWire` | kernel/net/udp.c:27-55 | the same for user datagrams, whose checksum is never zero |
| `WireFormat.IpAcceptedExactlyWhen` | kernel/net/ipv4.c:43-59 | exactly which datagrams are accepted, and every field read from its bytes |
| `WireFormat.TcpAcceptedExactlyWhen` | kernel/net/tcp.c:141-165 | exactly which segments are accepted, on their bytes |
| `WireFormat.TcpFieldsAre` | kernel/net/tcp.c:151-158 | the fields of a received segment are read from their bytes |
| `WireFormat.UdpAcceptedExactlyWhen` | kernel/net/udp.c:57-74 | exactly which user datagrams are accepted, and their ports read from their bytes |
| `WireFormat.KnownIpHeader` | kernel/net/ipv4.c:43-59 | a known header is accepted and its checksum is the one computed |
| `WireFormat.KnownSegment` | kernel/net/tcp.c:141-165 | a known SYN-ACK of another sender is accepted |
| `WireFormat.KnownDatagram` | kernel/net/udp.c:57-74 | a known datagram of another sender is accepted |
| `Packet.PacketBuffer.Ipv4Push` | kernel/net/ipv4.c:22-41 | the buffer holds the datagram of the format, refused exactly without room or with a zero time to live |
| `Packet.PacketBuffer.TcpPull` | kernel/net/tcp.c:141-165 | the result code of the format's checks, with fields and payload on success and the packet untouched otherwise |
| `Packet.SendAndReceive` | kernel/net/tcp.c:110-165 | over the buffers: exactly the segments that fit are sent, and each comes out as it went in |
| `Packet.SendAndReceiveUdp` | kernel/net/udp.c:27-74 | the same for datagrams |

## Left out

- Device drivers, boot, system-call dispatch, VFS, USB and SMP bring-up: hardware access and plumbing. The disk is a sequence of sectors with unflushed writes.
- Growing and truncating files (`grow`, `append_extent`, `rixfs_truncate`, `io_file`) and the higher directory operations built on append, remove and the journal: they would add easier members.
- The superblock's bytes: a volume's layout is a parameter, taken to be the same at both mounts of a repair and a check. The kernel writes sector 0 only when it formats a disk.
- VolumeImage.Decoded: how directory sectors become entries is a parameter there, and the results hold for any such function; `DirReading.ReadDir` is the one of `rixfs_readdir`.
- Journal.ReplayOf: the checksum is a parameter of the crash theorems, which hold for any; `SectorHash.Hash` is the one of RixFS.
- FsckDevice.CheckDevice: for regions one after the other, as formatting lays them out, and sector sizes that are a multiple of the inode size; with others some inodes straddle sectors and cannot be read.
- FsckDevice.RepairDevice: for volumes whose bitmap has fewer than 2^64 bits, so that the code's bit numbers do not wrap. Pages for its buffers are taken to be available.
- Fsck.Check: for fewer than 65536 inodes, the size of the checker's table; says when the result is zero, not which negative code a bad volume gets; out-of-memory results of the bitmap reads are not modelled.
- JournalRecovery.TransactionThenMount: a stale journal sector is taken to have another checksum than the payload that replaces it, and the targets are different sectors outside the journal, as the rename code makes them.
- BlockCache.Cache.Read: one call at a time. Interleaved calls are in `WriteBack`, where a read miss that fills from an unlocked device read is left out.
- The checks of `pt_validate_table`, MMIO mapping, and 1 GiB pages, which the kernel never makes and whose bit its walks do not test.
- PhysicalPages.PageAllocator.FreeRange: says nothing about which pages come back when the range wraps past 2^64.
- Context switches, FPU state, TLB flushes and interprocessor interrupts. A critical section under the scheduler lock is one step, and claims are about task states and masks, not stacks.
- Waiter slots and their generation counters (`kernel/sync/waitqueue.c`): a wait queue grants or refuses a waiter.
- Line editing, echo and history of the terminal: an edit is any plain line of at most 255 bytes, with the character count either kept or set to its length.
- TcpReceive.Receiver.Arrive: sequence numbers do not wrap, and the connection is established; the handshake, resets and the sending side are not modelled.
- Checksum.AddWords: sums are unbounded; a packet of at most 1580 bytes cannot reach 2^32.
- SpaceClone.Clone: page contents are values by frame number; kernel mappings of frames are taken to succeed.
- ARP, IPv6, DHCP, sockets other than TCP, sessions, credentials and signals: small table updates.
