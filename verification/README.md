# ShadowBox kernel: models and proofs

A Dafny model of the parts of the ShadowBox kernel that rest on real invariants, with proofs of those
invariants. `dafny verify dfyconfig.toml` checks everything.

| part | files | main results |
|---|---|---|
| ext2 | `Bytes`, `Ext2Layout`, `Ext2BlockMap`, `Ext2`, `Ext2Space`, `Ext2File`, `Ext2Fs`, `Ext2Inode`, `Ext2DirBlock`, `Ext2Dir`, `Ext2Names`, `Ext2Mount`, `Ext2Run`, `Ext2Script`, `Ext2Sample`, `Ext2Unscanned`, `Ext2FullDir` | over every run of single stores every block reachable from an inode has one owner and files not written stay as they were; every script of reads, writes, lookups, creations and removals behaves like an abstract file system of names and bytes; when exactly a write is read back and an allocation fails; block and inode counts are conserved |
| rendezvous IPC | `MicroIpc`, `IpcKernel` | requests arrive in call order, each once, as they were sent and with the sender's pid, and each call is answered once by its own callee; a reply keeps this exactly when it is in turn |
| scheduler | `Sched`, `SchedHeap`, `RunQueues`, `TaskSchedule`, `TaskFairness`, `TaskKernel` | the run queue is a heap holding exactly the queued processes; every pick is paid for in virtual time by weight; a waiting process is overtaken at most twice by any other, so it is switched to within a bounded number of switches; no process that can run is lost |
| tasklets | `Softirq` | under every interleaving a tasklet runs exactly as often as it is scheduled while idle; what handlers schedule is still scheduled or runs later in the same pass |
| descriptors | `FdTable`, `FdPipes`, `FdKernel` | over every run no descriptor refers to a freed file, and what a pipe counts and when it is freed is known exactly |
| process list | `ProcList` | always one cycle through exactly the processes, whose pids are distinct until the counter wraps; every zombie has a live parent, exactly as long as no process with children is killed |
| repaint | `DirtyRegion` | repainting the dirty rectangles equals repainting the screen, exactly while clipping does not wrap |
| tmpfs | `Tmpfs` | a file is a byte sequence with zero-filled gaps |
| calendar | `Calendar` | encoding and decoding dates are inverses, order is kept, and both agree with the closed form of the Gregorian calendar |
| DNS | `Dns`, `DnsMessage` | names encode, decode and are skipped exactly; of every response exactly the records put into it are found, and the answer is the last address |

`Common` holds the option type and list notions several parts share, `Arith` facts about products and quotients.

How the models are built:

* Code that updates state in place is a class or a method over values, proved against a specification
  function or predicate. Most specifications are total functions or relations on values, so that theorems
  over whole runs are lemmas about them; the methods of a class are proved to take exactly those steps.
* Pointers to tasklets, open files and the records of the process list are ids or addresses; elsewhere a
  pointer to a process record is its pid. The linked structures (wait queues, tasklet lists, the process list) are next-pointers kept in a map, with
  the list they encode as a ghost.
* Concurrency is an interleaving of steps. For tasklets one step is one access to shared data. A system
  call of the IPC, scheduling and descriptor parts is one step up to the point where it yields.
* Integers are unbounded, and stored fields keep their width: inode words are 32 bits, record lengths 16,
  name lengths 8. Where a 32-bit sum can wrap, clipping (`DirtyRegion`), tmpfs reads and writes and the pid
  counter are modelled with the wrapped sum and the exact condition under which it does no harm; signed sums
  wrap as the machine's do. ext2 writes require that offset plus size does not wrap.
* Memory allocation succeeds.

Where a promised property does not hold of the code, the model keeps the code and gives the exact condition:

- `Ext2Fs.RoundTripExact`: a write through a node whose length is out of date is not read back;
  `Ext2Sample.StaleNode` is such a write.
- `Ext2.AllocateBlock`: the last block of group 0 is counted but never scanned when groups start at block 1;
  in `Ext2Unscanned.LastUnreached` it is the only free one, and allocation fails.
- `Ext2.DryExact`: block lookups with nothing left to allocate read block 0 as an index block, as in
  `Ext2Sample.BootAstray`.
- `Ext2Dir.AppendExact`: the thirteenth block of a directory overwrites the indirect pointer;
  `Ext2FullDir.FullDirectory` is a directory that needs one.
- `Ext2Fs.BlockCountExact`: the block count of a file of nearly 4 GiB wraps, as in `Ext2Fs.LargestFileCount`.
- `MicroIpc.ReplyWaitExact`, `IpcKernel.ReplyWaitStructured`: a reply to a client whose request is still queued,
  as in `MicroIpc.EarlyReply`.
- `TaskSchedule.BlockExact`, `TaskSchedule.QuietWakeExact`: blocking with nobody to switch to, as in
  `TaskSchedule.BlockedAlone`, and waking without queueing, as in `TaskSchedule.QuietWakeLost`.
- `RunQueues.RaisedRootExact`: a SCHED_FIFO process kept at the root with a raised key.
- `FdKernel.Dup2SelfExact`, `FdTable.ReapKeeps`: dup2 onto the same descriptor, as in
  `FdKernel.Dup2Dangling`, and reaping a process whose table is open.
- `FdPipes.PipeFreed`: a pipe is not freed if an end of it was ever counted up, as by dup and fork;
  `FdKernel.PipeLeft` leaves one behind.
- `ProcList.KillExact`: a killed process's children are not handed to the first process, so that nobody can wait
  for them once it is reaped, as in `ProcList.KilledParent`.
- `ProcList.Processes.Insert`: the pid counter is ahead of all pids until it wraps.
- `DirtyRegion.StaysOnExactly`: clipping with sums that wrap leaves pixels off the screen, as in
  `DirtyRegion.FarPixel`.
- `Tmpfs.ReadExact`, `Tmpfs.WriteExact`: reads whose end wraps, as in `Tmpfs.LongRead`, and writes past the
  largest file size, as in `Tmpfs.LongWrite`.
- `Dns.CacheAgreesExactly`: a cached answer differs from the one first given when a response has several
  addresses, as in `Dns.CacheDisagrees`.

## Model

| member | source | states |
|---|---|---|
| `Ext2Layout.Geometry.BlockNoInjective` | fs/ext2.c:319-319 | distinct bits of the block bitmaps stand for distinct block numbers |
| `Ext2Layout.Geometry.InodeSlotsApart` | fs/ext2.c:30-35 | no two inodes share a byte of the inode tables |
| `Ext2Layout.Geometry.InodePlace` | fs/ext2.c:30-35 | inode `i` of group `g` starts `i` inode sizes behind the start of the table of `g` |
| `Ext2Layout.InodeFields` | include/ext2.h:100-119 | size, block count and block numbers of an inode lie where the widths of the fields in front put them |
| `Ext2Layout.ReservedAre` | fs/ext2.c:334-337 | counters are written out to block 1 and from block 6, 12 or 24 on, by block size |
| `Bytes.MarkBit` | fs/ext2.c:313-316 | marking a bit of a bitmap adds its power of two to its byte and changes exactly that bit |
| `Bytes.MarkBitCount` | fs/ext2.c:313-316 | marking a clear bit lowers the clear count by exactly one |
| `Bytes.LittleEndian` | include/ext2.h:100-119 | stored words have their least significant byte first |
| `Bytes.SumWraps` | fs/ext2.c:124-124 | 32-bit sums are taken modulo 2^32 |
| `Ext2BlockMap.LeafNodeInjective` | fs/ext2.c:63-119 | direct, indirect and double-indirect addressing never gives two logical blocks the same slot |
| `Ext2BlockMap.DirectSlot` | fs/ext2.c:68-75 | logical blocks 0 to 11 are the slots of the inode |
| `Ext2BlockMap.IndirectSlot` | fs/ext2.c:76-91 | the next ones are the slots of the block behind slot 12 |
| `Ext2BlockMap.DoubleSlot` | fs/ext2.c:92-117 | behind slot 13, block `i * p + j` of the rest is slot `j` of the block behind slot `i`, for `p` numbers to a block |
| `Ext2BlockMap.MapOnDisk` | fs/ext2.c:63-117 | the same in words of the disk: a file block is found at bytes 40 to 87 of the inode, through byte 88, or through byte 92 and two blocks of numbers |
| `Ext2BlockMap.BlocksDisjoint` | fs/ext2.c:63-119 | blocks reached from different slots, of one inode or two, are different, marked in the bitmap, and no bitmap, table or reserved block |
| `Ext2BlockMap.FillSlot` | fs/ext2.c:70-73 | a newly allocated block linked into an empty slot of any level keeps the ownership invariant |
| `Ext2.FirstClear` | fs/ext2.c:312-315 | the bit found is the first clear one, or all are set |
| `Ext2.AllocationConserves` | fs/ext2.c:326-350 | an allocation moves exactly one block from free to used, in its group and in the total; the free block that is never scanned stays free |
| `Ext2.MarkFirstFree` | fs/ext2.c:300-333 | the first group with a free block in the scan, past counted groups without one: its first clear bit is marked, nothing else changes |
| `Ext2.AllocateBlock` | fs/ext2.c:326-350 | fails if and only if the total is down to the last block of group 0, where that is free and not scanned, else to 0; the block is the first free one in the scan, is zeroed and marked; the counts stay equal to the clear bits of the whole groups |
| `Ext2.SpareIs` | fs/ext2.c:308-310 | the free blocks that are never scanned: the last of group 0 behind a boot block, if it is free, and no other |
| `Ext2Unscanned.LastFreeMounted` | fs/ext2.c:308-312 | the invariant holds of a disk of two groups whose only free block is the last of group 0 |
| `Ext2Unscanned.LastUnreached` | fs/ext2.c:308-333 | on that disk the total is 1 and allocation fails |
| `Ext2Unscanned.LastIsFree` | fs/ext2.c:308-312 | block 64 is on that disk, no metadata, and its bit is clear |
| `Ext2.AllocationsDistinct` | fs/ext2.c:326-350 | no run of allocations hands out a block twice |
| `Ext2.Direct` | fs/ext2.c:68-75 | a direct block is found or created; every other block of every file is as before |
| `Ext2.Indirect` | fs/ext2.c:78-91 | the same through the indirect block, created on demand |
| `Ext2.DoubleIndirect` | fs/ext2.c:94-117 | the same through both levels of the double-indirect block, quotient first, by `Ext2BlockMap.DoubleSlot` |
| `Ext2.GetBlockAddr` | fs/ext2.c:63-119 | for every file and every disk: the block number of a logical block, created as a zero block on demand at the cost of exactly the missing slots; no other block of any file changes; with nothing left, the answer of a lookup through block 0 |
| `Ext2.OutOfRange` | fs/ext2.c:94-118 | past the double-indirect range there is no slot |
| `Ext2.DryExact` | fs/ext2.c:78-117 | when allocation fails for good, lookups answer what the file holds if and only if block 0 reads as an empty index block or no index block of the file is missing |
| `Ext2Sample.BootAstray` | fs/ext2.c:78-91 | with the number 8 in the boot block, the lookup of an unmapped block answers with block 8, which holds the first block of the file |
| `Ext2Space.CleanServed` | fs/ext2.c:63-119 | if the free blocks cover the missing index blocks of a range, the first of its lookups can have its own |
| `Ext2Space.CleanAfter` | fs/ext2.c:164-179 | and after that lookup, whatever it allocated, they still cover the rest of the range |
| `Ext2File.MappedFunds` | fs/ext2.c:164-179 | a write over mapped blocks and direct blocks needs no free block at all |
| `Ext2File.AmpleFunds` | fs/ext2.c:164-179 | three free blocks for each block written always suffice |
| `Ext2File.ReadInode` | fs/ext2.c:28-43 | fails exactly for inode numbers out of range; else the 128 bytes of that inode |
| `Ext2File.WriteInode` | fs/ext2.c:45-61 | stores exactly those bytes; fails exactly for numbers out of range |
| `Ext2BlockMap.InodeStoredTable` | fs/ext2.c:45-61 | storing one inode changes that inode and no other |
| `Ext2File.WriteChunk` | fs/ext2.c:170-177 | one round of the write loop: the chunk is in the block, every other byte of every file is as before |
| `Ext2File.WriteBlocks` | fs/ext2.c:164-179 | the loop writes a prefix of the buffer and stops early only out of range or out of space |
| `Ext2File.ReadBlocks` | fs/ext2.c:135-147 | the loop returns the mapped bytes up to the first hole or the limit |
| `Ext2File.ByteOfBlock` | fs/ext2.c:135-147 | byte `o` of logical block `lb` is the byte of the file `lb` blocks and `o` bytes on |
| `Ext2Fs.WriteFile` | fs/ext2.c:152-189 | the written prefix is in the file, the size covers it, the block count is stamped, all other fields of the inode and other files are unchanged, the mounted invariant holds again; when it stops early |
| `Ext2Fs.BlockCountExact` | fs/ext2.c:185-185 | the block count is that of the blocks holding the size if and only if rounding up does not wrap |
| `Ext2Fs.LargestFileCount` | fs/ext2.c:185-185 | a file of 0xFFFFFFFF bytes is stored with block count 0 |
| `Ext2Fs.ReadUnique` | fs/ext2.c:121-150 | a read has one possible answer |
| `Ext2Fs.ReadBack` | fs/ext2.c:121-189 | reading where data was just written, through a node whose length covers it, returns exactly that data |
| `Ext2Fs.RoundTripExact` | fs/ext2.c:121-189 | through the node of the write the data is read back if and only if the node's length covered it before or the file grew |
| `Ext2Fs.OutsideKept` | fs/ext2.c:152-189 | bytes of the same file outside the written range stay readable and unchanged |
| `Ext2Fs.SameFileReads` | fs/ext2.c:121-150 | a file that did not change reads the same at every offset |
| `Ext2Run.StepKeeps` | fs/ext2.c:63-119 | filling a slot, writing a block, changing, starting, storing or loading an inode and marking an inode as used keep the invariant of the inodes on disk and in memory under one assignment of blocks to owners |
| `Ext2Run.StepSame` | fs/ext2.c:63-119 | each of these steps leaves every file it is not about as it was |
| `Ext2Run.RunSound` | fs/ext2.c:63-189 | every state of every run of such steps from a mounted file system is mounted and sound |
| `Ext2Run.RunDisjoint` | fs/ext2.c:63-189 | in every such state the blocks of all inodes, as stored and as in memory, are disjoint, marked and no metadata |
| `Ext2Run.RunCounted` | fs/ext2.c:326-350 | in every such state the free counts equal the clear bits of the whole groups, and the free block out of reach is the same |
| `Ext2Run.RunReadsSame` | fs/ext2.c:121-189 | a file that no step of the run was about reads the same at every offset |
| `Ext2Inode.InodeConserves` | fs/ext2.c:352-384 | an inode allocation moves exactly one inode from free to used, in its group and in the total |
| `Ext2Inode.MarkedUse` | fs/ext2.c:352-384 | the inode handed out was not in use, and no other inode's use changes |
| `Ext2Inode.InodesDistinct` | fs/ext2.c:352-384 | no run of allocations hands out an inode twice, nor one that was in use |
| `Ext2Inode.AllocateInode` | fs/ext2.c:352-384 | succeeds exactly when the total is positive, with the first free inode of the first group that has one; the counts stay equal to the clear bits |
| `Ext2Inode.AllUsed` | fs/ext2.c:352-384 | when it fails, every inode is in use |
| `Ext2Inode.FreshInode` | fs/ext2.c:460-472 | a new inode, word for word: mode, link count, the three times 1000000, and zeros for size, block count and blocks |
| `Ext2Inode.CreateInode` | fs/ext2.c:457-474 | a free inode becomes an empty file with that mode and link count; no other file changes |
| `Ext2DirBlock.PlacedLive` | fs/ext2.c:411-422 | taking a free record for a name keeps the block tiled and inserts exactly that entry, splitting off a free rest or not |
| `Ext2DirBlock.RecordBytes` | include/ext2.h:124-130 | a record byte by byte: inode number, record length, name length, file type, name |
| `Ext2DirBlock.PlacedLength` | fs/ext2.c:417-422 | the record keeps just the rounded length the name needs, unless fewer than 8 bytes would be left over |
| `Ext2DirBlock.PlacedTyped` | fs/ext2.c:413-416 | it stores the entry and the file type |
| `Ext2DirBlock.RemovedLive` | fs/ext2.c:567-568 | clearing a record's inode keeps the block tiled and removes exactly that entry |
| `Ext2DirBlock.FindName` | fs/ext2.c:258-294 | the record scan ends and stops at the first live record with the name |
| `Ext2DirBlock.FindRoom` | fs/ext2.c:408-429 | the first free record of a block if it has room, and otherwise the end: its first free record is too small or it has none |
| `Ext2DirBlock.RoomInFirstFree` | fs/ext2.c:408-429 | only the first free record of a block counts: there is room in it, or none in the block |
| `Ext2DirBlock.NoneFree` | fs/ext2.c:408-429 | a block of live records has no room |
| `Ext2DirBlock.InsertedLookup` | fs/ext2.c:386-451 | after inserting a new name it finds its inode and every other name finds what it found |
| `Ext2DirBlock.InsertedUnique` | fs/ext2.c:386-451 | names stay unique exactly if the inserted one was absent |
| `Ext2DirBlock.RemovedLookup` | fs/ext2.c:536-579 | after removal the name finds nothing and every other name what it found |
| `Ext2Dir.FindEntry` | fs/ext2.c:252-295 | the search over all blocks is lookup in the directory's map |
| `Ext2Dir.UnlinkEntry` | fs/ext2.c:548-576 | removes the name's entry and changes nothing else; without the name nothing happens |
| `Ext2Dir.FindPlace` | fs/ext2.c:402-430 | the first block whose first free record has room; none of the blocks before it has |
| `Ext2Dir.PlaceEntry` | fs/ext2.c:402-430 | succeeds if and only if some block's first free record has room; the first such block takes the entry and no other block changes |
| `Ext2Dir.AppendEntry` | fs/ext2.c:432-446 | otherwise a new last block holds the entry, reachable if and only if there were fewer than 12; fails only when no block is free, changing nothing |
| `Ext2Dir.AppendExact` | fs/ext2.c:432-446 | after the allocation: the entry is gained if there is a direct slot for the block, and only then is the block reachable in any sound block map |
| `Ext2Dir.ThirteenthBlock` | fs/ext2.c:435-435 | past 12 blocks the store hits the indirect pointer, and logical block 12 is the block numbered like the new entry's inode |
| `Ext2FullDir.FullDirectory` | fs/ext2.c:402-435 | a directory of twelve blocks, each filled by one live record, has room for no name |
| `Ext2Dir.AddMore` | fs/ext2.c:402-446 | a directory with blocks gains the entry if some first free record has room or there are fewer than 12 blocks, and otherwise loses the new block |
| `Ext2Dir.AddDirEntry` | fs/ext2.c:386-451 | the directory gains exactly the entry, stored with its file type; the other fields of its inode and other files are unchanged; it costs a free block for each new block of the directory, and two for the first; or, only when the disk is full, every file is as it was |
| `Ext2Names.InsertBinds` | fs/ext2.c:386-451 | adding an absent name binds it in the directory's map and changes no other binding |
| `Ext2Names.RemoveUnbinds` | fs/ext2.c:536-579 | unlinking unbinds the name and changes no other binding |
| `Ext2Names.DirectoryIsMap` | fs/ext2.c:238-579 | over every run of additions of absent names, unlinks and changes to other files, names stay unique and every lookup is that of the map the operations describe |
| `Ext2Names.CreateUnlink` | fs/ext2.c:453-579 | creating a file under a new name and unlinking it finds the file's inode and restores every lookup |
| `Ext2Names.FindName` | fs/ext2.c:238-298 | returns the inode the directory's map binds, or none |
| `Ext2Names.Unlink` | fs/ext2.c:536-579 | on a mounted file system: only that directory changes, and there only that entry |
| `Ext2Names.CreateFile` | fs/ext2.c:453-490 | a fresh inode, an empty regular file of mode 0644 with one link, bound to the name by an entry of type 1; or every file in use is as it was; inodes in use stay in use |
| `Ext2Mount.ReadClipsExactly` | fs/ext2.c:123-124 | a read stays within the node's length if and only if it starts behind it or its end does not wrap |
| `Ext2Mount.FileSystem.ReadFileData` | fs/ext2.c:121-150 | the read through a node, clipped to the node's length, unless its end wraps |
| `Ext2Mount.FileSystem.WriteFileData` | fs/ext2.c:152-189 | the write through a node: invariant, contents, when it stops early, node length, error case |
| `Ext2Mount.FileSystem.FindDir` | fs/ext2.c:238-298 | the node itself for `.` and `..`, a node of the bound inode for a bound name, null otherwise |
| `Ext2Mount.DirectoryBit` | fs/ext2.c:283-283 | a node is a directory exactly by bit 0x4000 of the mode |
| `Ext2Mount.ModesApart` | fs/ext2.c:283-283 | an inode of mode 0x41ED is a directory, one of mode 0x81A4 is none |
| `Ext2Mount.FileSystem.Create` | fs/ext2.c:453-490 | a node of the new file, or null, only for want of an inode or a block, with every file in use unchanged |
| `Ext2Mount.FileSystem.CreateThenFind` | fs/ext2.c:238-490 | a file just created under a new name is found there: the same inode, empty, and no directory |
| `Ext2Mount.FileSystem.Remove` | fs/ext2.c:536-579 | 0 exactly if the name was bound, which it no longer is; -ENOENT, -ENOTDIR or -EIO otherwise, changing nothing |
| `Ext2Mount.FileSystem.WriteThenRead` | fs/ext2.c:121-189 | after a full write the data is read back through the node if and only if its length covered it or the file grew |
| `Ext2Sample.SampleMounted` | fs/ext2.c:581-633 | the invariant holds of a small disk with one file of 100 bytes and every block in use |
| `Ext2Sample.StaleNode` | fs/ext2.c:181-184 | on that disk ten bytes written through a node of length 0 are all written, and the read through it returns nothing |
| `Ext2Script.StepConsistent` | fs/ext2.c:386-579 | a step on one directory keeps every directory equal to its map |
| `Ext2Script.HasRoomFor` | fs/ext2.c:399-430 | tells exactly whether a directory can take one more name of a given length |
| `Ext2Script.Script` | fs/ext2.c:121-579 | any script of reads, writes, lookups, creations and removals, with the invariant assumed only before it: every outcome is one that the abstract file system of name maps and byte maps allows there, every state represents that file system, files in use that were not named are unchanged, and nothing is refused, cut short or failed without its reason |
| `Ext2Script.WriteLeaves` | fs/ext2.c:152-189 | a write overwrites exactly the bytes of its file in the byte map, with zeros in filled holes |
| `Ext2Script.CreateLeaves` | fs/ext2.c:453-490 | a creation binds the name to an inode that was no known file or directory, and starts it empty |
| `Ext2Script.ReadHolds` | fs/ext2.c:121-150 | a read returns the bytes of the byte map up to the size or the first hole |
| `MicroIpc.CallKeeps` | kernel/micro_ipc.c:18-58 | a call keeps the queues well formed, each client's protocol phase and first-in first-out delivery |
| `MicroIpc.ReplyKeeps` | kernel/micro_ipc.c:66-77 | so does a reply to a client that is not queued |
| `MicroIpc.WaitKeeps` | kernel/micro_ipc.c:80-102 | so does taking the next request, or going to sleep with none |
| `MicroIpc.ReplyWaitExact` | kernel/micro_ipc.c:60-103 | reply_wait keeps the protocol if and only if the client it answers was heard and not answered since |
| `MicroIpc.EarlyReply` | kernel/micro_ipc.c:66-77 | a reachable state in which a server answers a client whose request it never received |
| `MicroIpc.RunKeeps` | kernel/micro_ipc.c:18-103 | every state of every run: queues acyclic, disjoint and of callers only, receivers without queue, senders queued or heard, records agreeing with the log |
| `MicroIpc.ExactlyOnceInOrder` | kernel/micro_ipc.c:30-51 | what a server received is a prefix of what was asked of it, in call order; the rest is its queue |
| `MicroIpc.ReplyAnswersCall` | kernel/micro_ipc.c:66-101 | every reply answers the client's one open call to that server, after the delivery of that call's four words and its pid |
| `MicroIpc.StampedWords` | kernel/micro_ipc.c:35-36 | a delivered message has the four words of the request and the pid of its sender |
| `MicroIpc.ReplyReaches` | kernel/micro_ipc.c:66-77 | a reply reaches exactly a process that waits for this server, which gets the message as it is and runs again; any other reply changes nothing |
| `MicroIpc.DeliveredAsCalled` | kernel/micro_ipc.c:32-90 | in every run each delivery is that of the client's one open call to that server: four words as sent, the fifth its pid |
| `MicroIpc.LogIsSteps` | kernel/micro_ipc.c:18-103 | in every run the log holds exactly the calls made to processes that exist and the replies given to clients heard, in order, so none is dropped |
| `MicroIpc.SleepingServed` | kernel/micro_ipc.c:80-102 | in every run a server that sleeps has received everything it was sent |
| `MicroIpc.ReplyWaitServes` | kernel/micro_ipc.c:80-102 | in every run a server that waits gets the oldest request it has not received, or sleeps if there is none |
| `MicroIpc.AnswerHeld` | kernel/micro_ipc.c:68-76 | a caller that was answered last holds its own callee's reply |
| `MicroIpc.RequestHeld` | kernel/micro_ipc.c:32-90 | a server that received a request last holds it as delivered |
| `IpcKernel.Last` | kernel/micro_ipc.c:47-48 | the walk to the tail ends at the queue's last member |
| `IpcKernel.Enqueue` | kernel/micro_ipc.c:43-50 | linking the caller in appends it to that queue and leaves every other list as it was |
| `IpcKernel.Kernel.Call` | kernel/micro_ipc.c:18-58 | the record updates take exactly the call step of the protocol, whose message is the one `MicroIpc.DeliveredAsCalled` describes; an unknown target is error -3 and changes nothing |
| `IpcKernel.Kernel.ReplyWait` | kernel/micro_ipc.c:60-103 | the record updates take exactly the reply and wait steps, described by `MicroIpc.LogIsSteps` and `MicroIpc.ReplyWaitServes`; whether the queues stay those of callers, by `IpcKernel.ReplyWaitStructured` |
| `IpcKernel.ReplyWaitStructured` | kernel/micro_ipc.c:66-93 | the queues stay those of callers if and only if the client answered is not still queued, or is the one whose request the wait takes next |
| `Sched.NiceToWeight` | kernel/sched.c:18-33 | weights of nice values clamped to -20..19 lie between 15 and 88761 |
| `Sched.WeightSteps` | kernel/sched.c:18-33 | nice 0 weighs 1024, each step of niceness weighs between 6/5 and 9/7 less, values beyond the ends count as the ends |
| `Sched.PickCharged` | kernel/sched.c:125-127 | a pick adds `v` to the key with `v * w <= 10240000000 < (v + 1) * w` for the weight `w` of its nice value, and changes no other key |
| `Sched.NiceStays` | kernel/sched.c:90-159 | a process keeps the nice value it was created with; only its own steps change its key, and only upwards |
| `Sched.PicksPaid` | kernel/sched.c:117-142 | over every stretch of every run a process pays for all its picks in virtual time, at the rate of its weight |
| `Sched.DeltaMonotone` | kernel/sched.c:85-88 | a less nice process is never charged more for a pick |
| `Sched.StepKeeps` | kernel/sched.c:90-159 | creating, forking with the parent's key, queueing, picking and removing keep every key at or below min_vruntime, which never falls |
| `Sched.StampedExactly` | kernel/sched.c:106-107 | so a process entering the queue is stamped exactly min_vruntime |
| `Sched.BudgetStep` | kernel/sched.c:90-159 | every step while a process waits uses up the picks it takes from the others' budget and returns none |
| `Sched.BoundedOvertaking` | kernel/sched.c:90-142 | while a process waits, any other is picked ahead of it at most twice |
| `Sched.OvertakenTwice` | kernel/sched.c:90-142 | two is reached, in a run from the empty queue |
| `Sched.NoStarvation` | kernel/sched.c:90-142 | a waiting process sees at most two picks for each other process |
| `SchedHeap.HeapifyUp` | kernel/sched.c:61-68 | sifting up restores the heap and permutes the array |
| `SchedHeap.HeapifyDown` | kernel/sched.c:70-83 | sifting down leaves at most its starting position out of order, and permutes the array |
| `RunQueues.RootLeast` | kernel/sched.c:124-124 | the root of a heap is a least element |
| `RunQueues.Push` | kernel/sched.c:111-113 | the heap holds exactly one process more |
| `RunQueues.TakeAt` | kernel/sched.c:149-154 | removal at any position, down then up, leaves a heap with exactly that process gone |
| `RunQueues.RunQueue.Enqueue` | kernel/sched.c:90-115 | queued with its key raised to min_vruntime, with doubling when full; nothing for a process already queued |
| `RunQueues.RunQueue.PickNext` | kernel/sched.c:117-142 | returns a least process, no longer queued and charged by its weight as in `Sched.PickCharged`; none exactly if the queue is empty |
| `RunQueues.RaisedRootExact` | kernel/sched.c:124-134 | a root whose key is raised in place leaves a heap if and only if no other queued process has a smaller key |
| `RunQueues.RunQueue.Remove` | kernel/sched.c:144-159 | takes exactly that process out |
| `TaskSchedule.ScheduleKeeps` | kernel/task.c:353-402 | after a switch only the current process with a stack runs and every other ready one is queued |
| `TaskSchedule.BlockExact` | kernel/syscall.c:749-750 | a process that blocks leaves such a state if and only if the queue holds a process that can run |
| `TaskSchedule.QuietWakeExact` | kernel/micro_ipc.c:39-40 | making a sleeper ready without queueing it keeps the promise if and only if it is queued already |
| `TaskSchedule.StepsKeep` | kernel/task.c:85-92 | creating, waking, killing and reaping keep it |
| `TaskSchedule.NoLostProcess` | kernel/task.c:353-402 | every state of every run in which a blocking process finds another to switch to |
| `TaskSchedule.BlockedAlone` | kernel/task.c:370-379 | from the idle process alone, a run in which a process that blocked alone ends up ready and in no queue |
| `TaskSchedule.QuietWakeLost` | kernel/micro_ipc.c:39-40 | from the idle process alone, a run after which a sleeper made ready without being queued is lost |
| `TaskFairness.SwitchedToSoon` | kernel/task.c:353-402 | in every run, while a process is ready and queued, there are at most two switches for each other process |
| `TaskFairness.StepTrace` | kernel/task.c:353-402 | each step of the process table, pick by pick, is a series of run queue steps, with a pick of another process in every switch |
| `TaskFairness.SwitchView` | kernel/task.c:362-380 | a switch that passes over processes pick by pick is a switch of the process states |
| `TaskFairness.ChosenIsLeast` | kernel/task.c:362-368 | the skip loop chooses a queued process that can run and has the least virtual runtime of those, and none only if no queued process can run |
| `TaskFairness.NoneLost` | kernel/task.c:353-402 | in every run of both together in which a blocking process leaves another that can run, no process is lost |
| `TaskKernel.Kernel.PickRunnable` | kernel/task.c:362-368 | the skip loop ends; each pick was least, processes that cannot run were passed over, and one that can is returned, or the queue is empty |
| `TaskKernel.Kernel.Schedule` | kernel/task.c:353-402 | takes exactly a switch step with those picks: the processor goes to the due process of `TaskFairness.ChosenIsLeast`, or stays if none can run |
| `TaskKernel.Kernel.Create` | kernel/task.c:105-161 | a new process without runtime is ready and queued |
| `TaskKernel.Kernel.Fork` | kernel/task.c:163-275 | so is a forked one, with the nice value and the key of the current process |
| `TaskKernel.Kernel.Wake` | kernel/signal.c:83-86 | a blocked process becomes ready and queued, any other is left alone |
| `TaskKernel.Kernel.Kill` | kernel/syscall.c:764-766 | the process is a zombie, still queued if it was |
| `TaskKernel.Kernel.Reap` | kernel/syscall.c:725-736 | a zombie leaves the queue and the process table |
| `TaskKernel.Kernel.Block` | kernel/syscall.c:749-750 | the current process sleeps and a switch follows |
| `Softirq.StepKeeps` | kernel/softirq.c:14-89 | every single access keeps: a tasklet's state is set exactly if it is in one list or hand, lists are sound, queued work is announced |
| `Softirq.RunKeeps` | kernel/softirq.c:14-89 | so does every interleaving of schedules and any number of runners |
| `Softirq.NothingLost` | kernel/softirq.c:14-89 | once nothing is pending or under way, the two counts of a tasklet agree and no state is set |
| `Softirq.CountsAreSteps` | kernel/softirq.c:14-89 | in every run the counts are those of the steps taken: schedules of the tasklet while it was idle, and starts of its handler |
| `Softirq.CalledAsScheduled` | kernel/softirq.c:14-89 | so once nothing is pending or under way, a handler was called exactly as often as its tasklet was scheduled while idle |
| `Softirq.OneRunnerEach` | kernel/softirq.c:49-61 | in every run each announcement starts at most one runner, and is pending until one starts |
| `Softirq.PushIsSchedule` | kernel/softirq.c:80-89 | the steps of a scheduling do to the shared words what tasklet_schedule does in one |
| `Softirq.OnePlace` | kernel/softirq.c:14-29 | a tasklet is never in the shared list and a runner's list, nor in two runners' lists |
| `Softirq.RunnerCanStep` | kernel/softirq.c:21-28 | a runner is never stuck on a bad link |
| `Softirq.RunnerProgress` | kernel/softirq.c:21-28 | each own step leaves a runner fewer, and no step of others, not even rescheduling from a handler, adds any |
| `Softirq.Tasklets.Schedule` | kernel/softirq.c:80-89 | an idle tasklet is linked in front, set and announced, a scheduled one stays where it is |
| `Softirq.Tasklets.DoPending` | kernel/softirq.c:56-71 | everything scheduled runs once, latest first; what the handlers schedule meanwhile is the list afterwards |
| `Softirq.HandlersHeard` | kernel/softirq.c:14-29 | nothing a handler schedules is lost: it is in the list afterwards or runs later in the same pass |
| `Softirq.OnlyHandlersHeard` | kernel/softirq.c:14-29 | and the list afterwards holds nothing else |
| `FdTable.AttachKeeps` | kernel/task.c:408-417 | counting a new descriptor keeps counts covering the slots, and exact if they were |
| `FdTable.DetachKeeps` | kernel/task.c:424-447 | closing a descriptor keeps the invariant: with exact counts the file is freed exactly when no slot is left, and its pipe only when no end is open |
| `FdTable.PipeIncKeeps` | kernel/syscall.c:556-562 | counting a pipe end up keeps the invariant |
| `FdTable.NewFileKeeps` | kernel/syscall.c:214-219 | a new file without descriptors keeps it |
| `FdTable.ReapKeeps` | kernel/syscall.c:725-736 | reaping never leaves a dangling slot, and counts stay exact if and only if the table was closed |
| `FdTable.RunKeeps` | kernel/task.c:408-447 | every state of every run from the empty system: no dangling descriptor, no freed pipe with an open end, counts covering, and exact as long as only closed tables were reaped |
| `FdTable.FreedExactly` | kernel/task.c:424-447 | in such runs a close frees the file if and only if no descriptor is left |
| `FdPipes.PipeExact` | kernel/syscall.c:512-584 | in every run a pipe counts as readers exactly its open pulling ends and every count-up of them since it was made, and so the writers |
| `FdPipes.PipeFreed` | kernel/task.c:434-441 | in every run a pipe is freed if and only if no end of it is open and none was ever counted up |
| `FdKernel.Descriptors.Start` | kernel/task.c:105-109 | a new process has an empty table |
| `FdKernel.Descriptors.Install` | kernel/task.c:408-417 | the first free slot gets the file, or the table is full and nothing changes |
| `FdKernel.Descriptors.Close` | kernel/task.c:424-447 | the close step: that slot is emptied, and the file and pipe freed as in `FdTable.FreedExactly` and `FdPipes.PipeFreed`; bad and empty descriptors change nothing |
| `FdKernel.Descriptors.Open` | kernel/syscall.c:214-234 | a new file with one reference, or given back when the table is full |
| `FdKernel.Descriptors.PipeOpen` | kernel/syscall.c:512-548 | each end in the first slot still free, with one reference, or none and the error if the table is full; no other slot changes |
| `FdKernel.Descriptors.Dup` | kernel/syscall.c:564-571 | the first free slot refers to the same file, whose references grow by one, or the table is full; its pipe is counted up either way; error -9 exactly for a bad descriptor |
| `FdKernel.Descriptors.Dup2` | kernel/syscall.c:573-584 | takes exactly the steps close, install, count-up; the new slot refers to the old one's file; error -9 exactly for bad descriptors; the table stays sound if and only if the descriptors differ or the file has another reference |
| `FdKernel.Dup2SelfExact` | kernel/syscall.c:579-581 | onto the same descriptor the table stays sound if and only if the file has another reference |
| `FdKernel.Dup2Dangling` | kernel/syscall.c:573-584 | a process that opens one file and duplicates its descriptor onto itself has a slot that refers to a freed file |
| `FdKernel.PipeLeft` | kernel/syscall.c:564-571 | a process that makes a pipe, duplicates an end and closes all three descriptors leaves no file, and a pipe that is not freed |
| `FdKernel.Descriptors.Fork` | kernel/task.c:174-184 | the child's table becomes the parent's, by one install and one count-up for each open slot |
| `FdKernel.Descriptors.CloseAll` | kernel/task.c:65-69 | every slot of an exiting process is closed, in order |
| `FdKernel.Descriptors.CloseOnExec` | kernel/task.c:337-341 | exactly the slots of close-on-exec files are closed, in order |
| `FdKernel.CloExecBit` | include/fcntl.h:13-13 | close-on-exec is bit 0x10000 of the flags, whatever the others are |
| `FdKernel.Descriptors.Remove` | kernel/syscall.c:725-736 | a reaped process's table disappears |
| `ProcList.InsertKeeps` | kernel/task.c:155-156 | linking a process in behind the head keeps one cycle through all processes |
| `ProcList.UnlinkKeeps` | kernel/syscall.c:725-729 | unlinking the head, an inner process or the only one keeps one cycle through the rest |
| `ProcList.Find` | kernel/task.c:456-464 | the walk ends at the first record with the pid, or finds that no record has it |
| `ProcList.Processes.ProcFind` | kernel/task.c:456-464 | the record with the pid, if there is one, and the only one while pids are numbered |
| `ProcList.Search` | kernel/syscall.c:709-744 | the first zombie child asked for in list order, else whether there is such a child |
| `ProcList.AskedFor` | kernel/syscall.c:714-718 | no selection asks for all children, one for that child only, and only zombies are taken |
| `ProcList.Predecessor` | kernel/syscall.c:725-726 | the walk round the cycle ends at the process before |
| `ProcList.Processes.Insert` | kernel/task.c:167-269 | the new process follows the head, the others keep their order; its pid is the counter's of 32 bits, distinct from all others, and the counter stays ahead if and only if it does not wrap; a live parent keeps families |
| `ProcList.Processes.Unlink` | kernel/syscall.c:725-729 | exactly that process leaves the cycle |
| `ProcList.Processes.Wait4` | kernel/syscall.c:705-752 | reaps the first zombie child asked for exactly if there is one; otherwise nothing changes and the reason is given; families are kept |
| `ProcList.Reparent` | kernel/task.c:71-82 | the walk ends, and exactly the children of the exiting process become those of pid 1 |
| `ProcList.Processes.Exit` | kernel/task.c:60-82 | the process is a zombie, its children are those of pid 1, every other record is as it was; families are kept |
| `ProcList.Processes.Kill` | kernel/syscall.c:764-766 | the process is a zombie and keeps its children; families are kept if and only if it has none |
| `ProcList.KillExact` | kernel/syscall.c:764-766 | a fatal signal keeps families if and only if the process has no children |
| `ProcList.ReapExact` | kernel/syscall.c:725-736 | taking a process out keeps families if and only if no other has it as parent |
| `ProcList.ZombiesAwaited` | kernel/syscall.c:712-716 | with families kept, every zombie has a live parent that can wait for it |
| `ProcList.ExitedParent` | kernel/task.c:60-82 | a run in which a process exits, is reaped, and leaves its child to the first process |
| `ProcList.KilledParent` | kernel/syscall.c:764-766 | the same with a fatal signal: the child's parent is no process |
| `DirtyRegion.ClipExact` | gui/dirty_region.c:47-56 | clipping keeps exactly the pixels on the screen, unless a sum wraps |
| `DirtyRegion.StaysOnExactly` | gui/dirty_region.c:52-56 | clipping leaves no pixel off the screen if and only if neither x + w nor y + h wraps, or the one that does not shows that the rectangle misses the screen |
| `DirtyRegion.FarPixel` | gui/dirty_region.c:54-54 | one pixel at x = 2147483647 is not clipped away |
| `DirtyRegion.CopyRect` | gui/dirty_region.c:58-66 | exactly the rectangle's pixels are copied |
| `DirtyRegion.Region.Add` | gui/dirty_region.c:17-35 | a rectangle with positive sides is appended, or, with 64 stored, one that stands for the whole screen replaces them all |
| `DirtyRegion.Region.AddedCovered` | gui/dirty_region.c:17-35 | every on-screen pixel of an added rectangle is in a stored one |
| `DirtyRegion.Region.StoredCover` | gui/dirty_region.c:17-35 | on the screen the stored rectangles cover exactly the added ones, or after an overflow everything |
| `DirtyRegion.Region.Flush` | gui/dirty_region.c:37-71 | if every added rectangle can be clipped, exactly the pixels of the added rectangles are copied, or after an overflow the whole screen, and nothing off it |
| `DirtyRegion.Region.Repaint` | gui/dirty_region.c:37-71 | if moreover every differing pixel was in an added rectangle, the screen equals the back buffer afterwards |
| `Tmpfs.ReadBack` | fs/tmpfs.c:50-86 | what was written is read back |
| `Tmpfs.WritesCommute` | fs/tmpfs.c:60-86 | writes that do not overlap can be exchanged |
| `Tmpfs.ReadOf` | fs/tmpfs.c:50-57 | a read returns the bytes from the offset on, as many as asked for or as there are |
| `Tmpfs.Grow` | fs/tmpfs.c:70-81 | the growth loop ends, keeps contents and zero tail, reaches the wanted size if and only if that is at most 1 MiB, and grows by doubling to less than twice that size |
| `Tmpfs.ReadExact` | fs/tmpfs.c:53-55 | a read stays inside the buffer if and only if it starts behind the contents or its end does not wrap |
| `Tmpfs.LongRead` | fs/tmpfs.c:54-55 | a read of 0xFFFFFFFF bytes at offset 1 is not cut to the contents |
| `Tmpfs.WriteExact` | fs/tmpfs.c:70-85 | a write and the new length stay inside the grown buffer if and only if the write ends within 1 MiB |
| `Tmpfs.LongWrite` | fs/tmpfs.c:70-83 | a write of 1 MiB and one byte at offset 0 leaves the buffer, however far that has grown |
| `Tmpfs.File.Read` | fs/tmpfs.c:50-57 | the bytes of the sequence from the offset, as many as there are, if the read stays inside the buffer |
| `Tmpfs.File.Write` | fs/tmpfs.c:60-86 | if the write stays inside the buffer, the sequence with the buffer written at the offset, a gap filled with zeros |
| `Calendar.YearsClosedForm` | kernel/syscall.c:1086-1088 | counting days year by year agrees with the closed form of the Gregorian calendar |
| `Calendar.MonthsClosedForm` | kernel/calendar.c:12-25 | counting days month by month agrees with the closed form of the Gregorian months |
| `Calendar.SecondsClosedForm` | kernel/syscall.c:1084-1095 | day number and seconds of a date and time, with no table and no counting |
| `Calendar.FourCenturies` | kernel/calendar.c:6-9 | the calendar repeats after 400 years of 146097 days |
| `Calendar.SecondsOrder` | kernel/syscall.c:1084-1095 | later dates and times, and only those, have larger second counts |
| `Calendar.DayUnique` | kernel/syscall.c:1084-1095 | different valid dates have different day numbers |
| `Calendar.RtcToUnix` | kernel/syscall.c:1084-1095 | the loops compute the second count of a date and time, which `Calendar.SecondsClosedForm` gives outright |
| `Calendar.GetDate` | kernel/calendar.c:40-67 | the loops end in the valid date with that day number, in the closed form of `Calendar.SecondsClosedForm`, for every second count |
| `Calendar.GetTime` | kernel/calendar.c:83-86 | a valid time of day with that number of seconds |
| `Calendar.Decoded` | kernel/calendar.c:40-86 | decoding undoes encoding for every valid date and time from 1970 on |
| `Calendar.Encoded` | kernel/calendar.c:40-86 | encoding undoes decoding for every second count |
| `Dns.EncodeName` | net/dns.c:47-64 | accepts exactly names of 1 to 63 byte labels that fit, and writes their encoding |
| `Dns.EncodedRoundTrip` | net/dns.c:136-141 | an encoded name anywhere in a datagram decodes to its labels and is skipped exactly |
| `Dns.DecodedIsEncoded` | net/dns.c:47-64 | and only an encoding decodes |
| `Dns.DottedLabels` | net/dns.c:47-64 | labels joined by dots are the labels of the name |
| `Dns.TwoLabels` | net/dns.c:47-64 | labels on the wire stand each behind its length, then a zero |
| `Dns.Skip` | net/dns.c:136-141 | the skip loop ends, for any bytes |
| `Dns.SkippedByte` | net/dns.c:136-141 | how every byte is skipped, well formed or not: 0 ends the name, 192 and more end it with one byte more, others are lengths |
| `Dns.Answer` | net/dns.c:132-169 | the walk over any datagram ends, reads only inside it, reports the last well-formed address record and caches each |
| `DnsMessage.NameSkipped` | net/dns.c:145-150 | a name, written out or compressed, is skipped exactly |
| `DnsMessage.RecordsExact` | net/dns.c:144-168 | of any list of records put into a datagram, names written out or compressed, the walk visits exactly these, in order |
| `DnsMessage.AddressBytes` | net/dns.c:155-157 | four bytes of a record of type 1 are an address, most significant first, and no other record is one |
| `DnsMessage.ResponseRead` | net/dns.c:132-169 | of every response that announces its answers, the addresses offered are exactly those of its address records |
| `Dns.LookupCached` | net/dns.c:90-95 | the cache answers the first address cached for a name |
| `Dns.CachedFirst` | net/dns.c:158-164 | the cache takes the first addresses, as many as there is room for among eight entries |
| `Dns.LongNameNotCached` | net/dns.c:160-163 | a name over 63 bytes is cached cut off and never found again |
| `Dns.CacheAgreesExactly` | net/dns.c:158-166 | the cache answers what the resolution answered if and only if the first and last address agree |
| `Dns.CacheDisagrees` | net/dns.c:158-166 | a response with two addresses answers the second and then, from the cache, the first |

## Left out

- Ext2Fs.WriteFile: requires free blocks for the index blocks that the write misses, counted one by one, or block 0 reading as an empty index block; writes over mapped and direct blocks always qualify. By `Ext2.DryExact` a lookup that misses an index block and cannot get one may answer with a block of another file, so what a write then changes is not described; `Ext2.GetBlockAddr` describes that lookup itself.
- Ext2Mount.FileSystem.WriteFileData: for writes whose end does not wrap in 32 bits; past that the loop goes on at the start of the file.
- Ext2Mount.FileSystem.ReadFileData: for reads that stay within the node's length, by `Ext2Mount.ReadClipsExactly`.
- Ext2.AllocateBlock: the superblock and descriptor images it writes back are arbitrary bytes stored at the block numbers the code uses, which the layout reserves; what mounting later reads there is not modelled.
- Ext2Dir.AddDirEntry: requires a directory of at most 12 full, tiled blocks, room by `Ext2Dir.AppendExact`, and names below 256 bytes; an empty directory has no block yet. A first block it allocates for an empty directory and then replaces stays marked as used, as in the code.
- Ext2Names.CreateFile: requires a directory that can grow and whose own inode is in use; when the directory entry cannot be added the new inode stays marked as used, as in the code.
- Ext2Script.Script: its own tests refuse writes to directories, writes without three free blocks for each block, and names already bound, so that no operation needs an assumption about the state before it; reads go through a node as a lookup makes it at that point.
- ext2 mkdir, readdir and mount: compositions of the modelled operations, or input and output.
- MicroIpc.RunKeeps: the set of processes is fixed, nothing but a reply or a delivery wakes a process asleep in a call, and messages are values rather than addresses in two address spaces; waking without queueing is the subject of `TaskSchedule.QuietWakeExact`.
- RunQueues.RunQueue.PickNext: without the SCHED_FIFO branch, which returns with the lock held; no code sets that policy, and `RunQueues.RaisedRootExact` says what it would do to the heap. Time slices matter only there.
- TaskKernel.Kernel.Schedule: register, stack and address-space switching are not modelled, and blocking is one step together with the switch.
- per-processor run queues and work stealing.
- FdKernel.Descriptors.Open: path lookup and permission checks come before it and are not modelled.
- sockets that share the pipe tag, and the close hooks of other file systems.
- ProcList.Processes.Wait4: one round of the waiting loop; freeing the address space and stack, and the signal that tells the parent, are not modelled.
- DirtyRegion.Region.Flush: for rectangles that can be clipped, by `DirtyRegion.StaysOnExactly`; screen sizes are not negative; pixels are addressed by row and column rather than by byte offset and stride.
- Tmpfs.File.Read: for reads that stay inside the buffer, by `Tmpfs.ReadExact`.
- Tmpfs.File.Write: for writes ending within 1 MiB; past that the copy loop leaves the buffer, by `Tmpfs.WriteExact`.
- tmpfs directories: name tables of at most 256 entries, easy beside the ext2 ones.
- Dns.Answer: the query's transmission, the reply timeout and numeric host names.
- System V semaphores and message queues, signals' handlers, the sandbox table, TCP, UDP, ARP and NTP, drivers, boot and user programs.
