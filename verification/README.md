# xv6 and course projects: a Dafny model

This project models the parts of the repository whose correctness is hard to see by reading one
function, and proves what those parts are for. Each component keeps the form of its source: the log,
the buffer cache, the allocators, the file system, the page tables, the parser, the checker and the
generator are classes or array algorithms whose methods follow the C functions branch by branch, and
every method is tied to a specification on values. Protocols between threads (log space, tutors, pipes,
processes, sleep locks) are state machines whose steps are the stretches of code between two points
where another thread can run. Constants such as LOGSIZE, MAXOPBLOCKS, NBUF, PIPESIZE and table sizes are
parameters or symbolic where the proofs do not depend on their value.

`dafny verify dfyconfig.toml` checks everything.

## Components

* **Log, cache and disk** (`Blocks`, `LogImage`, `BufferCache`, `JournalSteps`, `Journal`, `LogSpace`).
  `LogImage` is about disk images: what the writes of a commit and of a recovery do, cut off anywhere.
  `BufferCache` has the cache over the memory disk of `memide.c`; its ghost field `writes` lists every
  block write in the order in which the disk gets it, so a crash is a prefix of that list. `Journal`,
  with the lemmas of `JournalSteps`, has the log on top of the cache and shows that its commit issues
  exactly the list of writes that `LogImage` is about. `LogSpace` has all interleavings of operations that begin, write and end.
* **Tutors** (`Tutors`, `Sums`): students, coordinator and tutors of `csmc.c`.
* **Heap**: `malloc` and `free` on one circular list.
* **Files** (`FileMap`): block allocator, block map, `readi`, `writei`, `itrunc` of the version with a
  doubly indirect block. The ghost field `owner` says for each block which place of which inode holds it.
* **Generator and scheduler** (`Mersenne`, `Lottery`).
* **Sleeping and waking** (`Wakeups`): `sleep` and `wakeup` for any condition under a spin lock, which is why
  `Pipe` and `LogSpace` may take going to sleep as one step.
* **Pipes, processes, sleep locks** (`Pipe`, `Procs`, `SleepLock`). `Basics` has what several modules share.
* **Shell parser** (`ShellParser`), against a grammar of commands and their meaning (`ShellGrammar`).
* **Page tables** (`Pages`): `vm.c` over `kalloc.c`. The ghost field `owner` says what each frame is for.
  `AddressSpaces` says what the hardware and a user program see of them.
* **File system checker** (`Checker`): `temp.c`. `Places` says where an image keeps addresses and entries, and
  that the checker meets each once. `SoundImages` says what it accepts, in terms that do not
  mention the order of its scan.
* **Directories and link counts** (`Links`), by path names (`Paths`).

## Where the code and its comments differ

The model follows the code. These differences are results, not omissions.

* `log_write` panics at `log.size - 1` blocks while `begin_op` promises LOGSIZE. `LogSpace.PanicIff`:
  the panic is reachable if and only if `log.size <= LOGSIZE`, for a LOGSIZE that is a multiple of
  MAXOPBLOCKS. `ex4/xv6/mkfs.c:25` makes `log.size` equal to LOGSIZE, which is one block too few.
* The comment at `csmc.c:224` promises the least tutored student, and among equals the first that came.
  `Tutors.PromiseFails` gives a run on which this fails, `Tutors.PicksFirstIff` says exactly when it
  holds, and `Tutors.PickIsUndominated` what holds always.
* `free`, `malloc`: a request is rounded up in 32 bits and handed to `sbrk` as a signed number;
  `Heap.HoldsIff` and `Heap.GrowsIff` say for exactly which sizes this is the size that was meant.
* `itrunc` does not free the doubly indirect level: `FileMap.LeftoversIff` says when blocks are lost, and
  `FileMap.LosesBlocks` is a run from a fresh disk that loses some.
* `MAXFILE*BSIZE` in `writei` is NDIRECT + NINDIRECT + 128\*128\*512, because MAXFILE has no
  parentheses (`ex4/xv6/fs.h:27`); the model has the value that the compiler sees.
* `copyuvm` drops a page when `mappages` fails (`ex4/xv6/vm.c:335`): `Pages.Memory.Copyuvm` says for which
  numbers of free frames it succeeds, and that a failed copy loses a page (and then one) if and only if the
  last free frame goes to the first page under some table.
* A killed writer that finds the pipe full returns without waking readers (`ex4/xv6/pipe.c:86-88`):
  `Pipe.StrandsIff` says that this is the only step that can strand anyone, `Pipe.KillStrands` gives a run.
* `temp.c` rejects sound images: it takes a directory whose "." or ".." it has read before the entry that
  names it for one that appears twice. `SoundImages.AcceptableIff`: an image is accepted if and only if it is
  sound and no directory is met that way; `SoundImages.TreeAcceptedIff`: for a tree, if and only if it is sound
  and every directory has a higher inode number than the one that holds it. `SoundImages.RejectsSound` has a
  sound image with four inodes that is reported, and `SoundImages.SoundVerdict` says that a sound image never
  gets any other error.
* `ex4/xv6/param.h:10-12` makes NBUF equal to LOGSIZE. `JournalSteps.CommitReady`: the commit gets a buffer
  for its first copy if and only if fewer blocks are logged than there are buffers; otherwise `bget` panics.
  `Journal.PinsEveryBuffer` boots, and with a log that has room for LOGSIZE blocks runs as many operations as
  `begin_op` lets in, each writing MAXOPBLOCKS blocks, to a state in which the next `end_op` does that. (With
  log.size equal to LOGSIZE the panic of `log_write` comes first, unless two operations pass its test at once.)
* A directory that some process holds as its working directory can be unlinked. `Links.CreateKeepsInvIff` and
  `Links.LinkKeepsInvIff`: making a name in a directory keeps the link counts right if and only if the directory
  is linked; the code does not ask. `Links.HeldDirectory` reaches such a directory.
* A link count is a 16-bit number. `Links.ShortPanicsIff`: below 2^16 links, the panic of `unlink` is reached
  if and only if there are 2^15 or more.
* `settickets` allows a total above RAND_MAX, for which every draw is rejected and the scheduler never returns:
  `Lottery.SomeAcceptedIff`.
* `random_at_most` calls its range half-open; it is closed at both ends (`Lottery.Uniform`).

## Model

| member | source | states |
|---|---|---|
| LogImage.HeaderRoundTrip | ex4/xv6/log.c:86-113 | reading a header block gives back the block numbers that were written to it |
| LogImage.RecoverEffect | ex4/xv6/log.c:115-122 | recovery puts every logged block home, empties the header, and touches nothing else |
| LogImage.CrashInRecovery | ex4/xv6/log.c:115-122 | power failing after any number of recovery's writes leaves an image whose recovery gives the same home blocks |
| LogImage.BeforeHeader | ex4/xv6/log.c:178-197 | until the header write a commit has changed no home block and left the header empty |
| LogImage.WhileInstalling | ex4/xv6/log.c:197-199 | between the two header writes the log still names and holds the whole transaction |
| LogImage.AfterCommit | ex4/xv6/log.c:193-202 | a completed commit leaves an empty header and exactly the new home blocks |
| LogImage.CrashInCommit | ex4/xv6/log.c:178-202 | power failing after any number of a commit's writes: recovery gives all of the transaction if the header write was among them, and none of it otherwise |
| LogImage.StepRepresents | ex4/xv6/log.c:68-122 | each event of a run (commit, crash within it, crash within recovery, reboot) moves the recovered contents by that transaction or not at all |
| LogImage.CrashAtomicity | ex4/xv6/log.c:68-202 | over any run of commits, crashes at any block write, crashes in recovery and reboots, the recovered home blocks are those after the transactions whose header write happened, in order |
| LogImage.FreshRepresents | ex4/xv6/log.c:53-66 | an image with an empty header is its own contents, whether or not recovery has run |
| BufferCache.UnlinkKeepsRing | ex4/xv6/bio.c:132-133 | two pointer writes take a buffer out of the ring and keep the order of the others in both directions |
| BufferCache.PushKeepsRing | ex4/xv6/bio.c:134-137 | four pointer writes put a buffer at the front of the ring |
| BufferCache.FrontIsNewest | ex4/xv6/bio.c:130-138 | moving a released buffer to the front keeps the ring in order of last release |
| BufferCache.HitKeepsCoherence | ex4/xv6/bio.c:69-76 | a hit keeps at most one buffer per block and keeps clean buffers equal to the disk |
| BufferCache.RecycleKeepsCoherence | ex4/xv6/bio.c:81-91 | so does recycling an unused clean buffer for a block that is not cached, and no pinned block is lost |
| BufferCache.ReleaseKeepsCoherence | ex4/xv6/bio.c:120-141 | so does a release of a pinned or written buffer, whose contents clients now see |
| BufferCache.WriteOutKeepsCoherence | ex4/xv6/memide.c:54-59 | so does writing a buffer out, which unpins it |
| BufferCache.ReadInKeepsCoherence | ex4/xv6/memide.c:57-59 | so does reading a block in |
| BufferCache.Cache.constructor | ex4/xv6/bio.c:38-56 | booting on an image gives a full ring of unused buffers and the image as what clients see |
| BufferCache.Cache.PushFront | ex4/xv6/bio.c:134-137 | the buffer becomes the first of the ring |
| BufferCache.Cache.Unlink | ex4/xv6/bio.c:132-133 | the buffer leaves the ring, the others stay in order |
| BufferCache.Cache.MoveToFront | ex4/xv6/bio.c:130-138 | the ring stays a permutation of all buffers in order of last release |
| BufferCache.Cache.Lookup | ex4/xv6/bio.c:69-76 | finds the buffer of a block if and only if there is one |
| BufferCache.Cache.Victim | ex4/xv6/bio.c:81-91 | finds the buffer released longest ago among those that are unused and clean |
| BufferCache.Cache.Bget | ex4/xv6/bio.c:61-93 | locks the block's only buffer, or recycles the eligible buffer released longest ago; no other buffer changes |
| BufferCache.Cache.Bread | ex4/xv6/bio.c:96-106 | a locked buffer with the last value that clients gave the block; nothing is written |
| BufferCache.Cache.Bwrite | ex4/xv6/bio.c:109-116 | exactly one block write reaches the disk, and the buffer is no longer pinned |
| BufferCache.Cache.Brelse | ex4/xv6/bio.c:120-141 | unlocks; what is in the buffer becomes what clients see; the last user's release is the newest |
| BufferCache.Cache.Iderw | ex4/xv6/memide.c:38-60 | a dirty buffer goes to the disk, an invalid clean one is filled from it |
| Journal.Log.WriteLog | ex4/xv6/log.c:176-190 | the disk gets exactly the copies of the logged blocks, in order, in the log area |
| Journal.Log.InstallTrans | ex4/xv6/log.c:68-82 | the disk gets exactly the logged data at the home blocks, in order, and these are unpinned |
| Journal.Log.WriteHead | ex4/xv6/log.c:98-113 | one write: the header block with the in-memory block numbers |
| Journal.Log.ReadHead | ex4/xv6/log.c:84-96 | memory gets the block numbers of the header on the disk |
| Journal.Log.Commit | ex4/xv6/log.c:192-202 | issues exactly a commit's writes, cut off anywhere they are atomic, and the home blocks become what clients saw |
| Journal.Log.RecoverFromLog | ex4/xv6/log.c:115-122 | issues exactly recovery's writes; afterwards clients see the recovered image |
| Journal.Log.LogWrite | ex4/xv6/log.c:204-233 | the block is logged once however often it is written, and its buffer is pinned |
| Journal.Log.TryBeginOp | ex4/xv6/log.c:125-141 | an operation starts if and only if nothing commits and its worst case fits beside those outstanding |
| Journal.Log.EndOp | ex4/xv6/log.c:145-174 | only the last operation out commits, and its commit is the whole of what clients saw |
| JournalSteps.CommitIsCrashSafe | ex4/xv6/log.c:192-202 | the list of writes that the cache issues in a commit is atomic at every cut |
| JournalSteps.RoomForOne | ex4/xv6/bio.c:78-92 | with no buffer in use, one can be recycled if and only if fewer blocks are pinned than there are buffers; otherwise bget panics on a miss |
| JournalSteps.CommitReady | ex4/xv6/log.c:182-183 | at a commit bget has a buffer for the first log block if and only if fewer blocks are logged than there are buffers |
| JournalSteps.RoomForTwo | ex4/xv6/log.c:182-189 | with room for two, both breads of write_log and install_trans succeed |
| Journal.Boot | ex4/xv6/log.c:53-66 | booting on an image that a crash has left: recovery gives clients the recovered image and an empty log |
| Journal.WriteBlock | ex4/xv6/log.c:204-212 | within an operation, bread, modify, log_write and brelse make the data what clients see and log the block once |
| Journal.FillLog | ex4/xv6/log.c:132-229 | operations that begin_op has let in fill the log up to LOGSIZE blocks |
| Journal.PinsEveryBuffer | ex4/xv6/bio.c:78-92 | from a boot with NBUF = LOGSIZE a state is reached in which the next commit finds no buffer |
| Journal.Operate | ex4/xv6/log.c:204-212 | one operation of one block changes that home block on the disk and no other |
| Journal.OneOperation | ex4/xv6/log.c:204-212 | boot on any image left by a crash, one operation with begin_op, bread, log_write, brelse, end_op: the disk holds the recovered image with that one block changed |
| LogSpace.StepInv | ex4/xv6/log.c:125-174 | each step of any interleaving keeps logged blocks plus reservations within LOGSIZE |
| LogSpace.SpaceAndIsolation | ex4/xv6/log.c:125-233 | over every run, no panic of log_write or end_op is reached, no operation is active while a commit is under way, and no block stays in the log when nothing is active |
| LogSpace.CanBegin | ex4/xv6/log.c:125-174 | from every state of a run an idle operation can come to be let in |
| LogSpace.PanicReachable | ex4/xv6/log.c:218-219 | with log.size at most LOGSIZE a run reaches the panic |
| LogSpace.PanicIff | ex4/xv6/log.c:218-219 | the panic is reachable if and only if log.size <= LOGSIZE |
| Tutors.FindStudent | csmc.c:216-234 | the tutor's loop computes the choice that the protocol's steps use |
| Tutors.QueueArrivals | csmc.c:298-312 | the coordinator's loop queues exactly the new arrivals and posts once for each |
| Tutors.StepKeepsInv | csmc.c:137-315 | every step of every thread keeps the counters, both semaphores and the students' array entries in agreement |
| Tutors.ReachableInv | csmc.c:137-315 | so they agree in every reachable state |
| Tutors.WokenTutorFinds | csmc.c:221-247 | before the end, a tutor past sem_wait always finds a queued student |
| Tutors.Conservation | csmc.c:141-268 | requests = sessions + tutoring + occupied, occupied counts exactly the students in chairs and fits, one request in flight each, and in the end every student has had all its sessions |
| Tutors.PickIsUndominated | csmc.c:224-234 | the student chosen is queued, and no queued one that came earlier has been tutored at most as often |
| Tutors.PicksFirstIff | csmc.c:224-234 | the choice is the student the comment promises if and only if the scan's running choice when it gets there came later |
| Tutors.BothQueued | csmc.c:141-315 | a run of two students and a tutor to a state in which the later student has been tutored less and both are queued |
| Tutors.PromiseFails | csmc.c:224-225 | in that reachable state the tutor breaks the comment's promise |
| Tutors.StepLowers | csmc.c:137-315 | every step lowers a fixed measure, except that of a student who finds no chair |
| Tutors.SomeoneActs | csmc.c:137-315 | while any thread lives, some thread can take a step that lowers the measure |
| Tutors.CanFinish | csmc.c:137-315 | from every such state a run of at most that many steps ends with all threads gone |
| Tutors.FinishesIff | csmc.c:137-315 | the program can end if and only if nobody needs help or there are a tutor and a chair |
| Tutors.NeverFinishes | csmc.c:137-315 | without them it never ends |
| Heap.HoldsIff | ex4/xv6/umalloc.c:69 | the units asked for hold nbytes if and only if rounding up does not wrap |
| Heap.GrowsIff | ex4/xv6/umalloc.c:52-54 | sbrk is asked for that many bytes if and only if the units are fewer than 2^28; beyond, for none or a negative number |
| Heap.NextStep | ex4/xv6/umalloc.c:30-32 | free's loop goes past an element only if the block does not belong after it |
| Heap.LoopFits | ex4/xv6/umalloc.c:30-32 | where free's loop stops, the block belongs |
| Heap.PlaceExists | ex4/xv6/umalloc.c:30-32 | there is such a place for every live block |
| Heap.FreeEffect | ex4/xv6/umalloc.c:33-43 | joining on both sides keeps one address-ordered circle with no two free blocks touching, and frees exactly that block's units |
| Heap.SearchMisses | ex4/xv6/umalloc.c:74-89 | a lap that finds nothing has met every block, all too small |
| Heap.ExactEffect | ex4/xv6/umalloc.c:76-77 | taking a whole block out keeps the circle and makes exactly its units live |
| Heap.SplitEffect | ex4/xv6/umalloc.c:78-82 | taking the tail of a block keeps the circle and makes exactly those units live |
| Heap.ExtendGood | ex4/xv6/umalloc.c:54-58 | new memory from the kernel enters as one live block that free can take |
| Heap.LiveExtent | ex4/xv6/umalloc.c:81-84 | the units of a live block are exactly those its header counts |
| Heap.Canonical | ex4/xv6/umalloc.c:33-42 | what callers see determines the free list: same circle, same sizes |
| Heap.ReleaseTake | ex4/xv6/umalloc.c:25-90 | freeing units just taken restores what callers see |
| Heap.Heap.constructor | ex4/xv6/umalloc.c:21-22 | before the first call nothing is free or live |
| Heap.Heap.Scribble | ex4/xv6/umalloc.c:84 | whatever the program writes into its own blocks, the list stays sound |
| Heap.Heap.Free | ex4/xv6/umalloc.c:24-44 | frees exactly the units of the block; terminates within a lap; freep points before it |
| Heap.Heap.Join | ex4/xv6/umalloc.c:33-42 | the header writes of both joins |
| Heap.Heap.Morecore | ex4/xv6/umalloc.c:46-61 | on a grant, exactly the new units are free in addition; on a refusal nothing changes |
| Heap.Heap.Find | ex4/xv6/umalloc.c:74-89 | first fit from freep on; null only if nothing fits and the kernel refuses |
| Heap.Heap.Carve | ex4/xv6/umalloc.c:75-85 | takes the last units of the block found, or all of it |
| Heap.Heap.Malloc | ex4/xv6/umalloc.c:63-90 | a block of the units asked for, which were free and are now live, at the end of the first fit; nothing else changes |
| Heap.AllocateAndFree | ex4/xv6/umalloc.c:24-90 | malloc then free leaves the very free list that was there before |
| FileMap.DataSlotInjective | ex4/xv6/fs.c:373-429 | different file blocks have their addresses in different places |
| FileMap.Injective | ex4/xv6/fs.c:373-429 | no two places of any inodes hold the same block, and every block held is marked used |
| FileMap.OverwriteOwned | ex4/xv6/fs.c:527-533 | overwriting file data disturbs no address of any inode |
| FileMap.ReserveGrown | ex4/xv6/fs.c:55-78 | allocating and zeroing a free block changes no file and no address |
| FileMap.PutOwned | ex4/xv6/fs.c:379-427 | putting a fresh block into an empty place keeps every place's block its own |
| FileMap.PutGrown | ex4/xv6/fs.c:379-427 | and changes no byte of any file, and no other address that was there |
| FileMap.FreshValid | ex4/xv6/mkfs.c:108-111 | on a disk of zeroes every file is empty and every block free or metadata |
| FileMap.FileSystem.constructor | ex4/xv6/mkfs.c:108-117 | a fresh file system is sound, and its files are empty |
| FileMap.FileSystem.Balloc | ex4/xv6/fs.c:55-78 | marks and zeroes the first free block, or finds that there is none |
| FileMap.FileSystem.Bfree | ex4/xv6/fs.c:80-96 | unmarks exactly that block |
| FileMap.FileSystem.RootAddr | ex4/xv6/fs.c:379-389 | the address kept in the inode, allocated only if it was 0 |
| FileMap.FileSystem.WordAddr | ex4/xv6/fs.c:390-426 | the address kept in an index block, allocated only if it was 0 |
| FileMap.FileSystem.Bmap | ex4/xv6/fs.c:371-429 | the address kept in the inode for the first 11 blocks, in the block that addrs[11] names for the next 128, and through the two levels below addrs[12] for the rest; stable once there; other mappings and all contents stay, and blocks keep their owners |
| FileMap.WhereBlockIs | ex4/xv6/fs.c:373-429 | where the address of every file block is kept, in terms of the inode and the disk |
| FileMap.WhereByteIs | ex4/xv6/fs.c:365-369 | the byte at off of a file, found on the disk from the inode's addresses |
| FileMap.ReadChunk | ex4/xv6/fs.c:498-503 | one turn of readi copies exactly the file's bytes at that offset |
| FileMap.ChunkCell | ex4/xv6/fs.c:527-533 | one turn of writei changes exactly those bytes of that file |
| FileMap.WrittenContents | ex4/xv6/fs.c:527-538 | all turns and the new size give the old contents with src put in at off; other files are unchanged |
| FileMap.FileSystem.Readi | ex4/xv6/fs.c:482-505 | -1 exactly outside the file; otherwise the file's bytes at off; allocates nothing |
| FileMap.FileSystem.Writei | ex4/xv6/fs.c:510-540 | -1 exactly past the end or the limit; otherwise the contents with src put in at off; other files unchanged; "bmap: out of range" is unreachable; no panic with more than three free blocks for each block touched |
| FileMap.DropStep | ex4/xv6/fs.c:443-460 | itrunc never frees a block twice or one in use elsewhere |
| FileMap.TruncOwned | ex4/xv6/fs.c:436-464 | after truncation every other block still has its owner |
| FileMap.LeftoversIff | ex4/xv6/fs.c:436-464 | all of the inode's blocks are given back if and only if it had no doubly indirect block |
| FileMap.LosesBlocks | ex4/xv6/fs.c:402-464 | writing one block past the indirect ones and truncating leaves blocks that nobody will free |
| FileMap.FileSystem.Itrunc | ex4/xv6/fs.c:436-464 | the file is empty, exactly its direct and indirect blocks are freed, other files are unchanged |
| Mersenne.Unfold | xv6/kernel/random_num.h:81-90 | the sequence obeys the plain recurrence with distances N and M |
| Mersenne.Recurrence | xv6/kernel/random_num.h:81-90 | the recurrence on bits, with its distances, masks and constant |
| Mersenne.Congruence | xv6/kernel/random_num.h:62-65 | the seeding on bits |
| Mersenne.FirstOutput | xv6/kernel/random_num.h:95-103 | with term 397 of the seeding given, the first output for the default seed is the published one without its top bit |
| Mersenne.Replace | xv6/kernel/random_num.h:81-90 | replacing word kk in place, reading words already replaced past the end, gives the next lap's term |
| Mersenne.Generator.constructor | xv6/kernel/random_num.h:47-48 | without a seed the first call works from 4357 |
| Mersenne.Generator.Sgenrand | xv6/kernel/random_num.h:55-66 | fills the array with the first N terms of that seed's sequence |
| Mersenne.Generator.Regenerate | xv6/kernel/random_num.h:75-93 | the three loops replace N terms by the following N |
| Mersenne.Generator.Genrand | xv6/kernel/random_num.h:68-104 | call c returns term N + c of the plain recurrence, tempered, in 31 bits |
| Lottery.RandomAtMost | xv6/kernel/random_num.h:106-125 | the bin of the first draw that is not rejected |
| Lottery.SomeAcceptedIff | xv6/kernel/random_num.h:109-121 | some draw is accepted if and only if max is at most RAND_MAX |
| Lottery.InBin | xv6/kernel/random_num.h:108-125 | the accepted draws with value v are one interval of bin_size numbers |
| Lottery.Uniform | xv6/kernel/random_num.h:106-125 | every value from 0 to max comes from exactly bin_size draws, no other value from any |
| Lottery.Schedule | xv6/kernel/proc.c:286-328 | runs the first runnable process whose running ticket count reaches the winner; none only if none is runnable |
| Lottery.NobodyLeft | xv6/kernel/proc.c:309-318 | if no process reaches the winner, no process is runnable |
| Lottery.WinnersOf | xv6/kernel/proc.c:309-318 | the winners that choose a process are its own tickets, and 0 as well for the first runnable one |
| Lottery.Share | xv6/kernel/proc.c:286-318 | a runnable process is chosen by exactly bin_size * tickets accepted draws, plus bin_size for the first runnable one |
| Pipe.Push | ex4/xv6/pipe.c:85-93 | with wrapping 32-bit counters, a write adds one byte at the end of the queue |
| Pipe.Pop | ex4/xv6/pipe.c:114-116 | and a read takes the first one |
| Pipe.Pipe.constructor | ex4/xv6/pipe.c:33-36 | a new pipe is empty and open at both ends |
| Pipe.Pipe.WriteSection | ex4/xv6/pipe.c:83-97 | from the lock to its release a write adds as many of its bytes as fit, in order; it finishes exactly when all are in, and sleeps exactly when some are left, the read end is open and it is not killed |
| Pipe.Pipe.ReadSection | ex4/xv6/pipe.c:105-120 | a read takes a prefix of the queue, all that was asked for or all there is; it sleeps exactly on an empty pipe with an open write end, unless killed |
| Pipe.StepKeepsFlow | ex4/xv6/pipe.c:59-121 | bytes read followed by bytes buffered are the bytes accepted, after every step |
| Pipe.StrandsIff | ex4/xv6/pipe.c:86-88 | a step leaves a sleeper without reason to sleep if and only if it is a killed writer that fills the pipe and gives up while a reader sleeps |
| Pipe.PipeSafety | ex4/xv6/pipe.c:59-121 | over every run bytes are conserved, and unless such a step happens every sleeping reader has an empty open pipe and every sleeping writer a full one |
| Pipe.NoKillNoGivingUp | ex4/xv6/pipe.c:86-88 | without kill no such step happens |
| Pipe.NotBothAsleep | ex4/xv6/pipe.c:78-121 | without kill a reader and a writer never sleep at once |
| Pipe.KillStrands | ex4/xv6/pipe.c:86-88 | with kill a run strands a reader before a full pipe |
| Pipe.SentIsAccepted | ex4/xv6/pipe.c:84-94 | what a run puts into the pipe is, in order, what its writers write |
| Pipe.WriteDelivers | ex4/xv6/pipe.c:84-97 | over every run in which it is not killed and the read end stays open: a write has put in exactly the bytes before its next one, and when it has returned all of them |
| Pipe.ReadReturns | ex4/xv6/pipe.c:105-120 | a read returns what it asked for or empties the pipe; it returns nothing only if it asked for nothing or nobody can write |
| Pipe.WriteCanFinish | ex4/xv6/pipe.c:78-121 | a write of any length can be brought to its end by reads |
| Pipe.LongWrite | ex4/xv6/pipe.c:84-97 | a write of more than PIPESIZE bytes to a new pipe sleeps, and completes with all bytes accepted |
| Pipe.KilledNeverSleeps | ex4/xv6/pipe.c:86-110 | over every run a killed thread does not sleep in the pipe |
| Procs.Table.constructor | ex4/xv6/proc.c:120-154 | after userinit the first process is runnable and all other slots are unused |
| Procs.Table.Allocproc | ex4/xv6/proc.c:74-90 | the first unused slot becomes an embryo with a new pid |
| Procs.Table.Wakeup1 | ex4/xv6/proc.c:457-465 | exactly the sleepers on that channel become runnable |
| Procs.Table.Exit | ex4/xv6/proc.c:253-265 | wakes the parent, gives the children to init and wakes it if one is a zombie, and becomes a zombie |
| Procs.ExitedSlot | ex4/xv6/proc.c:253-265 | what exit does to each slot: who becomes a zombie, who gets init for a parent, who wakes; nothing else changes |
| Procs.Table.Wait | ex4/xv6/proc.c:282-310 | reaps the first zombie child and returns its pid; -1 without children or when killed; sleeps otherwise |
| Procs.Table.Kill | ex4/xv6/proc.c:480-497 | marks the first process with that pid and wakes it if it sleeps |
| Procs.StartInv | ex4/xv6/proc.c:120-154 | the invariant holds after userinit |
| Procs.ForkKeepsInv | ex4/xv6/proc.c:180-222 | every stage of fork keeps it |
| Procs.ExitKeepsInv | ex4/xv6/proc.c:227-268 | exit keeps it: no waiting parent, old or new, is left asleep with a zombie child |
| Procs.WaitKeepsInv | ex4/xv6/proc.c:272-312 | wait keeps it: a parent goes to sleep only after a scan without zombies under the same lock |
| Procs.OtherKeepsInv | ex4/xv6/proc.c:385-497 | so do sleep, wakeup, kill, yield and being scheduled |
| Procs.ProcessSafety | ex4/xv6/proc.c:180-497 | in every reachable table: no parent sleeps in wait with a zombie child, every live process but init has a live parent, pids differ, init lives |
| Procs.WaiterReaps | ex4/xv6/proc.c:253-298 | when a child exits, the parent that sleeps in wait runs again and its next scan reaps a zombie |
| Procs.Life | ex4/xv6/proc.c:120-298 | a run from userinit in which the first process forks, waits and reaps the child |
| Wakeups.StepKeepsInv | ex4/xv6/proc.c:417-474 | every step of sleep, wakeup and the critical sections keeps the invariant, for any condition on any data |
| Wakeups.NoneMissed | ex4/xv6/proc.c:417-474 | over every run: when lk is free, nobody sleeps or is about to although the condition holds |
| Wakeups.WakeupWakes | ex4/xv6/proc.c:455-474 | right after a wakeup nobody sleeps |
| SleepLock.StepKeepsInv | ex4/xv6/sleeplock.c:22-42 | every step of acquiresleep, releasesleep, sleep and wakeup on the two spin locks keeps the invariant |
| SleepLock.NoMissedWakeup | ex4/xv6/sleeplock.c:22-42 | over every run: at most one holder, and when the spin lock is free a sleeper means that the sleep lock is held |
| SleepLock.StrandedIsUnreachable | ex4/xv6/proc.c:417-452 | no run reaches a free sleep lock with somebody asleep or about to be |
| SleepLock.Handover | ex4/xv6/sleeplock.c:22-42 | an owner's release leads to a sleeper's having the lock |
| ShellGrammar.LexText | ex4/xv6/sh.c:265-308 | the lexer undoes writing, for every list of legal tokens |
| ShellGrammar.LexToken | ex4/xv6/sh.c:265-308 | a token not joined by what follows is lexed first, blank between or not |
| ShellGrammar.LexBlank | ex4/xv6/sh.c:272-273 | blanks are skipped |
| ShellGrammar.Opened | ex4/xv6/sh.c:384-394 | `<` opens for reading, `>` and `>>` for writing |
| ShellGrammar.TreeOfLineFor | ex4/xv6/sh.c:344-446 | every command tree is the meaning of some syntax, with parentheses |
| ShellGrammar.LineLexes | ex4/xv6/sh.c:265-308 | the text of a legal line lexes to its tokens |
| ShellParser.Parser.Gettoken | ex4/xv6/sh.c:265-308 | takes exactly the next token; every call before the end advances |
| ShellParser.Parser.Peek | ex4/xv6/sh.c:310-320 | tells whether the next token starts with one of the symbols, and reads only blanks |
| ShellParser.Parser.ParseRedirs | ex4/xv6/sh.c:374-397 | reads exactly the redirections that come next, of all three kinds: what it accepts is right and what is right it accepts |
| ShellParser.Parser.ParseBlock | ex4/xv6/sh.c:399-413 | likewise a parenthesised command and its redirections |
| ShellParser.Parser.ParseExec | ex4/xv6/sh.c:415-446 | likewise a simple command or a block |
| ShellParser.Parser.ParseWords | ex4/xv6/sh.c:425-445 | likewise up to nine words with redirections before, between and behind them; a tenth word is a panic |
| ShellParser.Parser.ParsePart | ex4/xv6/sh.c:431-442 | one turn of that loop: a word with the redirections behind it, or the end of the command |
| ShellParser.Parser.ParsePipe | ex4/xv6/sh.c:361-372 | likewise a pipeline, grouped to the right |
| ShellParser.Parser.ParseBackground | ex4/xv6/sh.c:350-353 | wraps the command once for each ampersand |
| ShellParser.Parser.ParseLine | ex4/xv6/sh.c:344-359 | likewise a list |
| ShellParser.Parser.ParseCmd | ex4/xv6/sh.c:327-342 | what parses lexes to a legal line and gives the tree that this stands for; every legal line parses |
| ShellParser.LineUnique | ex4/xv6/sh.c:344-446 | the grammar is unambiguous: a list of tokens is that of one line at most |
| ShellParser.Parse | ex4/xv6/sh.c:265-446 | a text parses if and only if it is that of a legal line, and then to the tree of that line |
| ShellParser.ParseWritten | ex4/xv6/sh.c:265-446 | round trip: every legal command tree has a text, and parsing that gives the tree back |
| ShellParser.ParseSample | ex4/xv6/sh.c:344-446 | the tree of one text with every kind of command and redirection |
| ShellParser.NulTerminate | ex4/xv6/sh.c:448-493 | puts a NUL after every word of the tree and damages no character of any word |
| ShellParser.StringsAre | ex4/xv6/sh.c:448-493 | then the words read as C strings are the words that were parsed |
| ShellParser.ParseInPlace | ex4/xv6/sh.c:327-342 | on a buffer: it parses if and only if it holds a legal line, and the tree of C strings left in the buffer is that line's |
| Pages.LooseOwned | ex4/xv6/kalloc.c:59-95 | what kalloc and kfree do to frames outside all address spaces changes no mapping |
| Pages.AddTable | ex4/xv6/vm.c:45-52 | a new empty table in a directory maps nothing |
| Pages.MapOwned | ex4/xv6/vm.c:69-73 | mapping a page gives its frame exactly one owner |
| Pages.UnmapOwned | ex4/xv6/vm.c:269-275 | unmapping gives the frame back |
| Pages.OthersSame | ex4/xv6/vm.c:219-298 | what happens within one address space is not noticed in another: same mappings, same contents |
| Pages.FreedOwned | ex4/xv6/vm.c:281-298 | after freevm the frames that remain are owned as before |
| Pages.Undone | ex4/xv6/vm.c:129-134 | freeing a directory that was made meanwhile restores all owners and all contents in use |
| Pages.Memory.constructor | ex4/xv6/kalloc.c:46-53 | every frame from the first free one on is on the list once |
| Pages.Memory.Kalloc | ex4/xv6/kalloc.c:79-95 | takes the first free frame, if any |
| Pages.Memory.Kfree | ex4/xv6/kalloc.c:55-77 | fills the frame with junk and puts it first on the list |
| Pages.Memory.Walkpgdir | ex4/xv6/vm.c:32-55 | the page's table, made if need be; no mapping changes; fails only without memory or permission to allocate |
| Pages.Memory.Mappages | ex4/xv6/vm.c:57-80 | exactly the pages asked for become mapped, consecutively; succeeds if and only if there are frames for the tables they still need; free frames and tables balance |
| Pages.Memory.MapOne | ex4/xv6/vm.c:69-73 | one turn of that loop: one page mapped, at most one table taken, or nothing changed |
| Pages.Memory.Setupkvm | ex4/xv6/vm.c:117-136 | the kernel's mappings and nothing else, if and only if there are frames for the directory and its tables; on failure every frame is as before |
| Pages.Memory.Allocuvm | ex4/xv6/vm.c:219-249 | new zeroed pages and nothing else, if and only if there are frames for them and for the tables still missing; on failure all mappings and their contents are as before |
| Pages.Memory.Deallocuvm | ex4/xv6/vm.c:251-279 | exactly the pages between the sizes are unmapped and their frames freed |
| Pages.Memory.Freevm | ex4/xv6/vm.c:281-298 | frees exactly the frames of that address space |
| Pages.Memory.Copyuvm | ex4/xv6/vm.c:313-343 | a copy with equal contents and flags in fresh frames, if and only if there are frames enough; on failure all is as before, except one page lost exactly if the frames run out between a page and its table |
| Pages.Memory.CopyOne | ex4/xv6/vm.c:326-336 | one turn of that loop: one page copied, or nothing changed, or one frame lost because its mapping failed |
| Pages.EnoughFrames | ex4/xv6/vm.c:332-336 | a copy with enough frames, or without enough to begin, loses no page |
| Pages.RunsOut | ex4/xv6/vm.c:332-336 | a page is lost if the frames run out at mapping it, and none if they run out before it is copied |
| Pages.NextPage | ex4/xv6/vm.c:325-337 | each page of a copy costs its frame, and a table if it is the first under it |
| Pages.Memory.Copyout | ex4/xv6/vm.c:360-384 | 0 exactly if all pages are the user's, and then exactly those bytes of that address space change; otherwise a prefix of them |
| Pages.MakeAndFree | ex4/xv6/vm.c:117-298 | setupkvm, allocuvm and freevm give back exactly the free set from before |
| AddressSpaces.Translation | ex4/xv6/vm.c:32-55 | a page is translated by entry v / 1024 of the directory and entry v % 1024 of the table there |
| AddressSpaces.NewPage | ex4/xv6/vm.c:240-241 | a page of new memory has the bits that let the user read and write it in both entries, and is zero |
| AddressSpaces.KernelPteIs | ex4/xv6/vm.c:117-136 | which frame each page of the kernel part is mapped to |
| AddressSpaces.KernelHidden | ex4/xv6/vm.c:107-115 | the kernel's pages are not the user's |
| AddressSpaces.NewProcess | ex4/xv6/vm.c:117-384 | setupkvm, allocuvm and copyout give a program an address space of its own, if and only if there are frames enough; the user finds its bytes there, may write its pages, and has no others |
| Checker.Checker.constructor | temp.c:138-151 | the copies of both bitmaps start out as the bitmaps |
| Checker.Checker.CheckUse | temp.c:162-187 | one address is accepted exactly if it is in range, marked and not used before; otherwise the image is bad |
| Checker.Checker.CheckAddresses | temp.c:160-215 | likewise all addresses of an inode |
| Checker.Checker.CheckIndirect | temp.c:190-215 | likewise those in its indirect block |
| Checker.Checker.CheckMention | temp.c:55-89 | one entry is accepted only if it may follow the entries before it |
| Checker.Checker.CheckBlock | temp.c:45-90 | likewise one block's entries, and whether "." and ".." were among them |
| Checker.Checker.CheckDir | temp.c:33-99 | likewise a directory's |
| Checker.Checker.CheckInode | temp.c:153-227 | an error is reported only if the image has it |
| Checker.Checker.CheckBitmap | temp.c:228-234 | clean exactly if no unused block is marked |
| Checker.Checker.CheckCounts | temp.c:235-250 | clean exactly if every inode in use is named and every file's link count is the number of its entries |
| Checker.Checker.Check | temp.c:131-251 | clean if and only if the image meets the condition on uses and entries in scan order; every error is one that the image has |
| Places.UsePlaces | temp.c:161-215 | the addresses that the scan checks are those of every inode and of every indirect block, each once |
| Places.MentionPlaces | temp.c:33-99 | the entries that the scan checks are those of every directory: entry j in slot j % 32 of the block named by address j / 32, or by the indirect block from the twelfth on; each once, in order |
| SoundImages.BlocksIff | temp.c:161-234 | the scan's test of addresses is one of the places, without an order |
| SoundImages.MentionsIff | temp.c:55-89 | and its test of entries is soundness of the places together with an order |
| SoundImages.LinksIff | temp.c:235-250 | the scan's counts are the numbers of places |
| SoundImages.AcceptedBlocks | temp.c:161-234 | in an accepted image no two places hold one block, every block held is marked and in range, and no other is marked |
| SoundImages.AcceptedTree | temp.c:55-89 | in an accepted image no directory is named twice by ordinary entries, and every name is of an inode in use |
| SoundImages.AcceptedDots | temp.c:61-76 | every directory of an accepted image has "." naming itself and a ".." |
| SoundImages.AcceptedCounts | temp.c:243-249 | every file's link count is the number of its entries, below 2^15 of them |
| SoundImages.LowerChildRejected | temp.c:77-88 | an image in which an ordinary entry names a directory of lower inode number than its own is never accepted |
| SoundImages.AcceptableIff | temp.c:131-251 | accepted if and only if sound and every directory is met in the one that holds it before any "." or ".." that names it |
| SoundImages.SoundVerdict | temp.c:78-83 | a sound image is clean or reported as having a directory twice, and which one depends on that order alone |
| SoundImages.CheckImage | temp.c:131-251 | the checker on any image: clean if and only if sound and in that order; every error is one that some place of the image has |
| SoundImages.TreeAcceptedIff | temp.c:61-88 | a tree is accepted if and only if it is sound and every directory is numbered above the one that holds it |
| SoundImages.GrandchildSound | temp.c:61-88 | an image with directory 3 in the root and directory 2 in directory 3 is sound, a tree, and out of order |
| SoundImages.RejectsSound | temp.c:78-83 | the checker reports that image as having a directory twice |
| Links.Tree.constructor | ex4/xv6/mkfs.c:117-128 | a fresh file system has a root with "." and ".." |
| Links.Tree.Dirlookup | ex4/xv6/fs.c:553-577 | the first entry of that name |
| Links.Tree.Dirlink | ex4/xv6/fs.c:580-607 | a new entry in the first free slot, unless the name is there |
| Links.Tree.Isdirempty | ex4/xv6/sysfile.c:167-181 | whether only the first two slots are in use |
| Paths.OneName | ex4/xv6/fs.c:625-647 | a name without slashes is a path of one element, cut to DIRSIZ |
| Paths.SlashSeparates | ex4/xv6/fs.c:625-647 | a slash separates the elements before it from those after it, however many slashes there are |
| Paths.ElementsOfJoined | ex4/xv6/fs.c:625-647 | splitting a path gives back the names that were joined into it |
| Paths.SkipElem | ex4/xv6/fs.c:610-647 | the next element and the rest, which has no leading slashes; none if only slashes are left |
| Links.Tree.Namex | ex4/xv6/fs.c:650-686 | where the path leads from the root or the working directory, whatever is there, or the directory that holds its last element; only to inodes in use |
| Links.Tree.Ialloc | ex4/xv6/fs.c:191-215 | the first free inode |
| Links.Tree.Drop | ex4/xv6/fs.c:332-353 | an inode without links or users becomes free; the invariant stays |
| Links.Tree.Link | ex4/xv6/sysfile.c:117-165 | a new name for a file and one more link, or no change at all, the link count included; the new path leads to the file, and all paths lead where they led |
| Links.Tree.Unlink | ex4/xv6/sysfile.c:183-239 | one name fewer, links counted down, or no change at all; the path then leads nowhere |
| Links.Tree.Create | ex4/xv6/sysfile.c:241-284 | a new inode under a new name, the existing file, or nothing, and exactly when each; the path leads to what is returned |
| Links.Tree.Add | ex4/xv6/sysfile.c:261-281 | the new inode, with its dots if it is a directory, under the new name |
| Links.WalkLinked | ex4/xv6/fs.c:653-686 | every path leads to an inode in use, and to a directory only if it is still linked |
| Links.WalkJoined | ex4/xv6/fs.c:665-680 | a path leads where its second part leads from where its first part leads |
| Links.WalkName | ex4/xv6/fs.c:665-685 | a path leads to an inode, of any type, if and only if the rest of it leads to a directory whose first entry of the last name is for that inode |
| Links.ParentIff | ex4/xv6/fs.c:669-673 | the directory for the last element is where the rest of the path leads |
| Links.CanLinkIff | ex4/xv6/sysfile.c:118-151 | link succeeds if and only if the old path leads to a file and the new one to nothing in a directory |
| Links.MayUnlinkIff | ex4/xv6/sysfile.c:196-216 | unlink succeeds if and only if the path leads somewhere, its last name is no dot, and a directory there has no names but the dots |
| Links.LinkLeads | ex4/xv6/sysfile.c:140-151 | after link the new path leads to the inode, and all paths lead where they led |
| Links.CreateLeads | ex4/xv6/sysfile.c:261-279 | likewise after create; the dots of a new directory lead to it and to its holder |
| Links.UnlinkGone | ex4/xv6/sysfile.c:218-229 | after unlink the path leads nowhere |
| Links.UnlinkAvoids | ex4/xv6/sysfile.c:218-229 | and every path that avoids the name leads where it led |
| Links.TwoNames | ex4/xv6/sysfile.c:118-284 | a run: a file is made, found, linked under a second name and unlinked under the first, and has the second |
| Links.LinkKeepsInv | ex4/xv6/sysfile.c:140-151 | link counts stay equal to the number of entries other than "." in linked directories, names stay unique |
| Links.CreateKeepsInv | ex4/xv6/sysfile.c:261-279 | likewise for create, ".." of a new directory included |
| Links.UnlinkFacts | ex4/xv6/sysfile.c:207-216 | the panic of unlink is unreachable, and a directory that is removed is empty with one link |
| Links.LinkKeepsInvIff | ex4/xv6/sysfile.c:140-151 | link keeps the counts right if and only if the directory of the new name is linked |
| Links.CreateKeepsInvIff | ex4/xv6/sysfile.c:241-284 | so does create, for every kind of inode |
| Links.HeldDirectory | ex4/xv6/sysfile.c:218-229 | a run to a directory that is held and not linked, in which a new file breaks the counts |
| Links.ShortPanicsIff | ex4/xv6/sysfile.c:211-212 | with link counts of 16 bits, the panic is reached if and only if the low 16 bits of the count are 0 or at least 2^15 |
| Links.EmptyOneLink | ex4/xv6/sysfile.c:211-216 | an empty directory has exactly one link |
| Links.UnlinkKeepsInv | ex4/xv6/sysfile.c:218-229 | likewise for unlink, of files and of directories |
| Links.DropKeepsInv | ex4/xv6/fs.c:336-347 | freeing an inode without links breaks no count |
| Links.FreshInv | ex4/xv6/mkfs.c:117-128 | the counts are right in a fresh file system |

## Left out

- Journal.Log.LogWrite: the two panics at `ex4/xv6/log.c:218-221` are preconditions here; `LogSpace` shows when they cannot be reached. Clients write home blocks only.
- Journal.Log.Commit: requires fewer logged blocks than buffers, without which bget panics (`JournalSteps.CommitReady`), and that no other thread uses a buffer during a commit, where the kernel lets others read.
- Journal.Log.TryBeginOp: one turn of the loop; sleeping between turns is left to `LogSpace`.
- BufferCache.Cache.Bget: waiting for a buffer's lock and the panic for want of buffers are excluded by its precondition; only the root device is cached.
- BufferCache.Cache.Victim: expects an eligible buffer to exist, for the same reason.
- Heap.Heap.Malloc: requests of 2^28 units or more are excluded, since sbrk would then be asked for a negative number of bytes (`Heap.GrowsIff`); the base header lies below the heap and the break is a multiple of the unit.
- Heap.Heap.Free: the argument is a live block; freeing anything else is undefined in the source as well.
- FileMap.FileSystem.Bfree: the panic for a free block is a precondition, which `Itrunc` always meets.
- FileMap.FileSystem.Readi: as in Writei, device files are left out, as are iupdate, readsb and the bit packing of the bitmap; the free map is one boolean for each block.
- FileMap.FileSystem.Writei: when the disk is full the source panics; the model then promises only that every block still has its owner.
- FileMap.FileSystem.Itrunc: blocks below a doubly indirect block stay allocated, as in the source.
- Lottery.RandomAtMost: draws are a finite list; that the loop ends with probability one is not modelled.
- Lottery.Schedule: tickets are positive and sum to less than 2^32 - 1; for that sum the code divides by zero. The context switch is left out.
- Pipe.Pipe.ReadSection: the page is not freed when both ends are closed.
- Procs.ForkKeepsInv: stages of fork between its lock sections; copying memory, files and the trap frame is left out, and nextpid does not wrap.
- Procs.Table.Exit: closing files and the jump into the scheduler are left out.
- ShellParser.Parser.ParseExec: the tree is built at the end instead of through a node shared inside the redirections; a redirection's mode and descriptor, which the source makes the same for `>` and `>>`, are one flag.
- Pages.Memory.Deallocuvm: the panic for physical page 0 is left out, since page 0 is never a user frame.
- Pages.Memory.Mappages: the panic for a page that is mapped already is a precondition; addresses count pages.
- Pages.Memory.Copyout: restricted to user addresses whose page tables exist, as uva2ka reads through a null pointer otherwise.
- Checker.Checker.Check: the image comes as parsed parts (words and entries of every block, one boolean for each bit); inode numbers in entries are below ninodes and names are terminated; a block outside the image reads as empty.
- Links.Tree.Namex: a relative path must start in a working directory that is still linked, since from an unlinked one `..` may name an inode that is free by now (`Links.CreateKeepsInvIff` has what goes wrong in it otherwise); a path is a string without NUL.
- Links.Tree.Link: link counts are unbounded integers, 16 bits in the source (`Links.ShortPanicsIff`); calls run one after the other, and Create expects a free inode for a new name.
- Frames, blocks and headers are sequences held by a class field rather than raw memory; aliasing through casts is not captured.
- Spin locks are atomic sections; boot code, hardware drivers, traps, context switch, exec, argument fetching, runcmd and user programs are left out.
- Copies of the same files under `xv6`, `xv62` and `project3`, and the checkers `fcheck.c`, are left out: one copy of each component is modelled.
