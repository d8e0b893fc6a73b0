# Nachos, proved in parts

Nachos 3.4 is a teaching operating system that runs on a simulated MIPS machine. The files here model the
parts of it where much can go wrong, with the student extensions in this repository, and prove what those
parts are for. `dafny verify dfyconfig.toml` checks everything.

**The file system on disk.** `BitMap.dfy`, `OpenFile.dfy` (disk, file headers, open files),
`Directory.dfy` and `FileSystem.dfy` are classes that read and write whole sectors, with the bitmap and
the directory kept in files on that same disk. `FsSpec.dfy` describes a file system as a bitmap and a
table of files, says what Create and Remove do to that description, and proves the allocation invariant
over all runs. The classes are proved to follow it sector by sector, and `FileContents.dfy` draws the
conclusion for the bytes of every file; `FileSessions.dfy` runs them through whole sessions of creating,
removing, writing and reading files by name.

**Threads, semaphores and what is built on them.** `Kernel.dfy` has the scheduler and the semaphore as
classes and as a step system in which no wakeup is lost, and `KernelRuns.dfy` runs the objects along the
step system. `Dining.dfy` runs the philosophers under every interleaving of P, V and Yield;
`DiningCooperative.dfy` runs them without a timer, where they never deadlock; `DiningEnds.dfy` proves
that every run ends, `DiningActs.dfy` says what GetSticks, Eat and PutSticks do as wholes, and
`DiningMutex.dfy` how long their `mutex` locks. `PostOffice.dfy` runs the bounded mailboxes;
`PostOfficeRuns.dfy` follows every letter and every person to the end, and `PostOfficeDeadlock.dfy` says
which sizes can deadlock. `Counting.dfy` counts threads for them.

**The MIPS machine.** `Mult.dfy` is the 32 by 32 bit multiplication, `Endian.dfy` the byte order
conversions, `Translation.dfy` paging and why it looks like flat memory, `Mips.dfy` decoding and what the
instructions compute, `MipsEncoding.dfy` the encoding that decoding undoes, `MipsLaws.dfy` the results
bit by bit. `Machine.dfy` is the machine class with `ReadMem`, `WriteMem`, `OneInstruction`, `Run`,
delayed loads and exceptions, and `MachineLaws.dfy` what its instructions do to flat memory and what the
dirty bits tell of a run. `Bytes.dfy` has words, bits and byte layout, `Common.dfy` what several modules
share.

**Frames and address spaces.** `AddrSpace.dfy` has the three placement searches, loading and unloading;
`FreeRuns.dfy` says when the block of BestFit is a best one; `SpaceRuns.dfy` shows over all creations and
exits that every space has its frames and memory to itself, and `SpaceObjects.dfy` runs real spaces.

**Devices, time and lists.** `DiskTiming.dfy` is the rotating disk with its track buffer, `Interrupt.dfy`
simulated time and pending interrupts, `List.dfy` the linked list as a sequence.

Where the code does not do what its name, its comments or its use promise, the model does what the code
does, a lemma says exactly when the two agree, and another shows an input on which they do not:
`Mips.OrRightWhen` and `OrWrongOnOneAndTwo`; `Mips.LogicalShiftRightWhen` and `LogicalShiftRightWrong`;
`AddrSpaces.WholeSegmentLoadedWhen` and `SegmentCutShort`; `FreeRuns.BestFitIsBestWhen` and
`BestFitIsNotBest`; `Interrupts.TiesKeptWhen` and `TiesAreNotFifo`; `Machines.LoadIsDelayedByOne` for a
load with an interrupt behind it; `FileHeaders.OverrunsWhen` and `FsSpec.OverrunsOnEmptyDisk` for a file
too big for its header; `AddrSpaces.HoldsProgramExactlyWhen` and `SizesWrapAround`;
`PostOfficeDeadlock.DeadlocksExactlyWhen` and `ThreeButNotTwo` for mailboxes that fill up in a circle. In
`GetSticks` a philosopher that is granted its turn and is still hungry tests again without taking
`mutex`, and then releases it once more: `DiningMutex.MutexLocksUntil` says that `mutex` locks exactly
until that first happens, and `MutexReachesTwo` is a run in which it does. So exclusion of neighbours is
proved from the steps themselves. Create and Remove compare names by their first nine characters, and two
longer names that agree so far are one name.

A step of the thread models is a stretch of code up to and including its next P, V or Yield. That is
where simulated time advances and a switch can happen (`machine/interrupt.h:17-21`). The code that leads
to a P which may block is a step of its own, which only allows more interleavings. Random numbers, the
handlers of interrupts and exceptions, and the clock of the disk are parameters, and the proofs hold for
all of their values. Times are unbounded integers; machine words wrap.

## Model

| member | source | states |
|---|---|---|
| BitMaps.BitMap.Mark | Nachos/nachos-3.4/code/userprog/bitmap.cc:46-51 | after Mark the bitmap reads as before with that one bit set: setting a bit of a packed 32-bit word disturbs no other bit |
| BitMaps.BitMap.Clear | Nachos/nachos-3.4/code/userprog/bitmap.cc:60-65 | after Clear the bitmap reads as before with that one bit clear |
| BitMaps.BitMap.Test | Nachos/nachos-3.4/code/userprog/bitmap.cc:74-83 | the masked word is non-zero exactly when the bit is set |
| BitMaps.BitMap.Find | Nachos/nachos-3.4/code/userprog/bitmap.cc:94-103 | the lowest clear bit is set and returned, or -1 is returned and nothing changes when all bits are set |
| BitMaps.BitMap.NumClear | Nachos/nachos-3.4/code/userprog/bitmap.cc:111-119 | the number of clear bits |
| BitMaps.BitMap.constructor | Nachos/nachos-3.4/code/userprog/bitmap.cc:20-27 | a new bitmap has every bit clear |
| Bytes.SetClearBit | Nachos/nachos-3.4/code/userprog/bitmap.cc:46-65 | or with 1 << k, and and with its complement, change bit k of a word and leave the other 31 |
| Bytes.MaskTestsBit | Nachos/nachos-3.4/code/userprog/bitmap.cc:79-82 | `word & (1 << k)` is non-zero exactly when bit k is set |
| BitMaps.TakeMarks | Nachos/nachos-3.4/code/filesys/filehdr.cc:46-51 | successive Find calls hand out distinct bits that were clear, and set exactly those |
| FileSystems.FetchBitMap | Nachos/nachos-3.4/code/userprog/bitmap.cc:155-159 | the words of the bitmap become the little-endian words at the start of the file |
| FileSystems.WriteBackBitMap | Nachos/nachos-3.4/code/userprog/bitmap.cc:168-172 | the bitmap file then decodes to the words in memory, and no sector outside that file changes |
| FileHeaders.FileHeader.Allocate | Nachos/nachos-3.4/code/filesys/filehdr.cc:41-52 | succeeds exactly when enough sectors are clear; then the header lists the sectors that so many Find calls return, and exactly those are marked; a failure leaves the bitmap and the list of sectors alone, also when the file is too big for a header |
| FileHeaders.OverrunsWhen | Nachos/nachos-3.4/code/filesys/filehdr.cc:45-51 | the loop stores past the header's last sector number exactly when the size is over MaxFileSize and that many sectors are clear |
| FsSpec.OverrunsOnEmptyDisk | Nachos/nachos-3.4/code/filesys/filehdr.cc:45-51 | which a file of one byte over MaxFileSize makes it do on an empty disk |
| FileHeaders.FileHeader.FillSectors | Nachos/nachos-3.4/code/filesys/filehdr.cc:49-51 | the loop of Allocate: the k-th data sector is what the k-th Find returns |
| FileHeaders.FileHeader.Deallocate | Nachos/nachos-3.4/code/filesys/filehdr.cc:61-68 | exactly the file's data sectors become clear |
| FileHeaders.FileHeader.FetchFrom | Nachos/nachos-3.4/code/filesys/filehdr.cc:77-81 | the header in memory is the decoding of the sector |
| FileHeaders.FileHeader.WriteBack | Nachos/nachos-3.4/code/filesys/filehdr.cc:90-94 | one sector changes, and decodes to the header in memory |
| FileHeaders.HeaderRoundTrip | Nachos/nachos-3.4/code/filesys/filehdr.cc:77-94 | a header encoded into the bytes of a sector decodes to itself |
| FileHeaders.FileBytesFrame | Nachos/nachos-3.4/code/filesys/filehdr.cc:106-110 | the bytes of a file depend on its own data sectors only |
| OpenFiles.OpenFile.ReadAt | Nachos/nachos-3.4/code/filesys/openfile.cc:116-144 | returns the clamped count and, for every alignment of start and end, exactly the bytes of the file from position on; nothing else in the buffer changes |
| OpenFiles.OpenFile.WriteAt | Nachos/nachos-3.4/code/filesys/openfile.cc:146-186 | returns the clamped count; the file's bytes become the old ones with exactly that stretch replaced, and no sector of another file changes |
| OpenFiles.OpenFile.Read | Nachos/nachos-3.4/code/filesys/openfile.cc:74-80 | a read at the seek position, which advances by the count returned |
| OpenFiles.OpenFile.Write | Nachos/nachos-3.4/code/filesys/openfile.cc:82-88 | a write at the seek position, which advances by the count returned |
| OpenFiles.OpenFile.ReadEdges | Nachos/nachos-3.4/code/filesys/openfile.cc:166-174 | of a partly overwritten first or last sector, the old bytes are in the buffer before the new ones are copied over them |
| OpenFiles.StoredImage | Nachos/nachos-3.4/code/filesys/openfile.cc:177-184 | the sectors written back hold the old file with the stretch replaced, also when a single partial sector is both first and last |
| Directories.Directory.FindIndex | Nachos/nachos-3.4/code/filesys/directory.cc:90-97 | the first in-use entry whose name agrees in the first nine characters, or -1 |
| Directories.Directory.Find | Nachos/nachos-3.4/code/filesys/directory.cc:108-116 | the header sector of that entry, or -1 |
| Directories.Directory.Add | Nachos/nachos-3.4/code/filesys/directory.cc:129-143 | fails exactly when the name is there already or the table is full; else the first free entry, and only that one, takes the name, filled up with NULs, and the sector |
| Directories.Directory.Remove | Nachos/nachos-3.4/code/filesys/directory.cc:153-162 | fails exactly when the name is absent; else only the found entry stops being in use |
| Directories.Directory.FetchFrom | Nachos/nachos-3.4/code/filesys/directory.cc:63-67 | the table is the decoding of the first bytes of the directory file |
| Directories.Directory.WriteBack | Nachos/nachos-3.4/code/filesys/directory.cc:76-80 | the directory file decodes to the table in memory, and no sector outside that file changes |
| Directories.StrnEqKey | Nachos/nachos-3.4/code/filesys/directory.cc:93-94 | strncmp over nine characters answers whether the nine-character keys are equal |
| Directories.StrncpyKey | Nachos/nachos-3.4/code/filesys/directory.cc:137 | a name copied with strncpy reads back as its nine-character key |
| Directories.TableRoundTrip | Nachos/nachos-3.4/code/filesys/directory.cc:63-80 | a table encoded into bytes decodes to itself |
| FsSpec.CreateSucceedsIff | Nachos/nachos-3.4/code/filesys/filesys.cc:174-215 | Create succeeds exactly when the nine-character name is absent, a slot is free, and one sector for the header and one per started sector of data are clear; a failed Create changes nothing |
| FsSpec.CreateKeepsInv | Nachos/nachos-3.4/code/filesys/filesys.cc:174-215 | Create keeps the allocation invariant: marked sectors are exactly the claimed ones, each claimed once, and no name is used twice |
| FsSpec.RemoveKeepsInv | Nachos/nachos-3.4/code/filesys/filesys.cc:257-288 | Remove keeps the allocation invariant |
| FsSpec.CreateThenRemove | Nachos/nachos-3.4/code/filesys/filesys.cc:174-288 | a successful Create followed by Remove restores the set of free sectors and the names |
| FsSpec.SectorsConserved | Nachos/nachos-3.4/code/filesys/filesys.cc:174-288 | free sectors and sectors in files add up to the same number before and after |
| FsSpec.AllocationInvariant | Nachos/nachos-3.4/code/filesys/filesys.cc:80-288 | after format and any sequence of Create and Remove the allocation invariant holds, and free sectors, file sectors and the four of the file system make up the disk |
| FileSystems.FileSystem.Format | Nachos/nachos-3.4/code/filesys/filesys.cc:80-137 | formatting any disk gives a sound, empty file system whose bitmap and directory on disk say so, and writes its own four sectors only |
| FileSystems.FileSystem.Create | Nachos/nachos-3.4/code/filesys/filesys.cc:174-215 | the on-disk bitmap, directory and headers change as the abstract Create says; a failure leaves every sector as it was, a success writes only the file system's own sectors and the new header |
| FileSystems.FileSystem.Remove | Nachos/nachos-3.4/code/filesys/filesys.cc:257-288 | the on-disk structures change as the abstract Remove says; no sector outside the file system's own is written, none at all on failure |
| FileSystems.FileSystem.Open | Nachos/nachos-3.4/code/filesys/filesys.cc:227-242 | gives a handle whose header and bytes are those of the named file, or nothing exactly when there is no such file |
| FileSystems.FileSystem.Mount | Nachos/nachos-3.4/code/filesys/filesys.cc:137-143 | opening a sound disk gives a valid file system without writing to it |
| FileSessions.Session | Nachos/nachos-3.4/code/filesys/filesys.cc:80-288 | any disk is formatted and any sequence of Create, Remove, Write and Read by name is served: every call gets the answer that a map from names to byte strings gives, the disk holds the last such map, and its bitmap and directory are sound and read as the abstract run ends |
| FileSessions.Serve | Nachos/nachos-3.4/code/filesys/filesys.cc:174-288 | one call, done by the classes: the disk goes from one map of files to the next, which differs in the named file only |
| FileSessions.WriteFile | Nachos/nachos-3.4/code/filesys/openfile.cc:146-186 | Open, Seek and Write: the named file is the old one with the data over it, as far as its length goes, and every other file is unchanged |
| FileSessions.ReadAfterWrite | Nachos/nachos-3.4/code/filesys/openfile.cc:116-186 | a read after a write of the same file gives the data where it lies, and the old bytes elsewhere |
| FileContents.CreateContents | Nachos/nachos-3.4/code/filesys/filesys.cc:174-215 | a successful Create adds one name with contents of the size asked for, and changes the contents of no other file |
| FileContents.RemoveContents | Nachos/nachos-3.4/code/filesys/filesys.cc:257-288 | a successful Remove takes one name away, and changes the contents of no other file |
| FileContents.WriteContents | Nachos/nachos-3.4/code/filesys/openfile.cc:146-186 | a write through a file's handle changes that file's bytes only: not the bitmap, not the directory, not another file |
| Kernel.Semaphore.P | Nachos/nachos-3.4/code/threads/synch.cc:64-77 | one pass of the loop: with a unit there it is taken and the thread goes on, else the thread joins the queue and the next ready one runs |
| Kernel.Semaphore.V | Nachos/nachos-3.4/code/threads/synch.cc:87-98 | the first waiter, if any, moves to the end of the ready list, and the value goes up by one |
| Kernel.Scheduler.ReadyToRun | Nachos/nachos-3.4/code/threads/scheduler.cc:53-60 | the thread is ready and last in the list |
| Kernel.Scheduler.FindNextToRun | Nachos/nachos-3.4/code/threads/scheduler.cc:70-74 | the first thread of the list is taken off it, if there is one |
| Kernel.Scheduler.Yield | Nachos/nachos-3.4/code/threads/thread.cc:199-215 | the first ready thread runs and the caller is last in the list; with nobody ready nothing changes |
| Kernel.Scheduler.Sleep | Nachos/nachos-3.4/code/threads/thread.cc:236-251 | the caller is blocked and the first ready thread runs, if there is one |
| Kernel.StepKeeps | Nachos/nachos-3.4/code/threads/synch.cc:64-98 | every P, V, Yield, Fork, Finish and dispatch keeps the kernel invariant |
| Kernel.NoLostWakeup | Nachos/nachos-3.4/code/threads/synch.cc:64-98 | on every run value + completed Ps = initial + completed Vs, every unfinished thread is in exactly one place, and while somebody queues on a semaphore its value is at most the number of woken threads that have not re-tested |
| Kernel.IdleMeansNoUnits | Nachos/nachos-3.4/code/threads/thread.cc:236-251 | when no thread can run, every semaphore somebody waits on has value zero |
| KernelRuns.Perform | Nachos/nachos-3.4/code/threads/synch.cc:64-98 | one action done by the Scheduler and Semaphore objects takes them from one state of the step system to the next, and every thread's status field to that of the place where it then is |
| KernelRuns.FromStart | Nachos/nachos-3.4/code/threads/thread.cc:199-251 | over any run from the start the objects follow the step system: values balance the completed calls of P and V, no wakeup is lost, and when the machine idles every semaphore with a queue is at zero |
| KernelRuns.StatusStep | Nachos/nachos-3.4/code/threads/thread.cc:199-251 | running, ready and blocked threads are exactly those that run, are on the ready list, or wait on a queue, after every action |
| Kernel.ReadyListIsFifo | Nachos/nachos-3.4/code/threads/scheduler.cc:53-74 | a ready thread moves up one place with each dispatch, and never otherwise |
| Kernel.DispatchedInTurn | Nachos/nachos-3.4/code/threads/scheduler.cc:70-74 | the thread at position p of the ready list is the one the dispatch number p + 1 runs |
| Kernel.QueueIsFifo | Nachos/nachos-3.4/code/threads/synch.cc:64-98 | a thread on a semaphore's queue moves up one place with each V on it, and never otherwise |
| Kernel.WokenInTurn | Nachos/nachos-3.4/code/threads/synch.cc:87-98 | the thread at position p of the queue is the one that V number p + 1 wakes: it goes to the end of the ready list and owes a test |
| Dining.ExclusiveStep | Nachos/nachos-3.4/code/threads/threadtest.cc:457-545 | no step of any philosopher, in any order, makes two neighbours eat |
| Dining.LedgerStep | Nachos/nachos-3.4/code/threads/threadtest.cc:424-580 | every step keeps the account of meals and of who has passed the two doors |
| Dining.NeighboursNeverBothEat | Nachos/nachos-3.4/code/threads/threadtest.cc:457-545 | with switches at every P, V and Yield, two neighbours are never both ISEATING, nor both inside Eat |
| Dining.InTogetherOutTogether | Nachos/nachos-3.4/code/threads/threadtest.cc:424-580 | nobody sits before all are in; no more than the given meals are eaten; nobody is released before all meals are eaten and all have put down their sticks for good |
| DiningMutex.MutexLocksUntil | Nachos/nachos-3.4/code/threads/threadtest.cc:457-545 | on every run mutex plus the philosophers between its P and V is one plus the number of times GetSticks went around its loop; so mutex locks (at most one inside, none while it is up, never above one) exactly as long as nobody has gone around |
| DiningMutex.MutexLedgerStep | Nachos/nachos-3.4/code/threads/threadtest.cc:457-545 | each step keeps that sum, but for a turn of the loop that finds the philosopher still hungry, which adds one |
| DiningMutex.MutexReachesTwo | Nachos/nachos-3.4/code/threads/threadtest.cc:464-497 | two philosophers and one meal have a run after which mutex is two |
| DiningCooperative.CoopStep | Nachos/nachos-3.4/code/threads/threadtest.cc:424-580 | a step of the running philosopher keeps the invariant of runs without a timer |
| DiningCooperative.CoopSwitch | Nachos/nachos-3.4/code/threads/threadtest.cc:403-410 | so does passing the processor on where the running philosopher yields, blocks or ends |
| DiningCooperative.HungryIsRemembered | Nachos/nachos-3.4/code/threads/threadtest.cc:457-545 | without a timer, a hungry philosopher that waits has a grant pending or a neighbour who eats |
| DiningCooperative.NoDeadlock | Nachos/nachos-3.4/code/threads/threadtest.cc:424-580 | without a timer no run gets stuck: somebody can go on, or all have left and every meal was eaten |
| DiningEnds.EveryStepWorks | Nachos/nachos-3.4/code/threads/threadtest.cc:424-580 | every step of every philosopher, on any interleaving, uses up some of a stock of work given by the places, the grants and the meals left |
| DiningEnds.EveryRunEnds | Nachos/nachos-3.4/code/threads/threadtest.cc:424-580 | every run of n philosophers and m meals with waits of at most y yields has at most n(2n + 2y + 32) + m(2y + 21) steps |
| DiningEnds.DinnerIsServed | Nachos/nachos-3.4/code/threads/threadtest.cc:424-580 | without a timer, a run that has gone on as long as it can has served every meal, and everybody is done and gone |
| DiningActs.MealsLast | Nachos/nachos-3.4/code/threads/threadtest.cc:403-410 | a meal, and the wait after PutSticks, last for as many turns of the philosopher as were drawn, on any interleaving |
| DiningActs.TakesFreeSticks | Nachos/nachos-3.4/code/threads/threadtest.cc:457-502 | with no neighbour eating, five undisturbed steps of GetSticks take both sticks and leave mutex and the own grant as they were |
| DiningActs.PutsSticksDown | Nachos/nachos-3.4/code/threads/threadtest.cc:530-548 | four undisturbed steps of PutSticks give every hungry neighbour one grant and nobody else any, and leave mutex as it was |
| PostOffice.InvStep | Nachos/nachos-3.4/code/threads/threadtest.cc:714-816 | every step of every person keeps the invariant of slots, locks, letters and persons |
| PostOffice.BoxesNeverOverflow | Nachos/nachos-3.4/code/threads/threadtest.cc:714-816 | free slots + letters in the box + promised slots = capacity for every box on every interleaving, so 0 <= MsgPtr <= capacity and no access leaves the 64 slots; never more letters sent than asked for |
| PostOffice.LettersConserved | Nachos/nachos-3.4/code/threads/threadtest.cc:726-777 | at every moment the letters posted to a person are, as a multiset, those read plus those in the box, and their number over all is MsgSentCnt |
| PostOffice.OneAtATime | Nachos/nachos-3.4/code/threads/threadtest.cc:728-781 | no two people are in the same mailbox, or at the count of letters, at once |
| PostOffice.DoneMeansOver | Nachos/nachos-3.4/code/threads/threadtest.cc:796-805 | once any done[i] holds all letters are sent and read and every box is empty, and so it stays in every later state |
| PostOfficeRuns.DoneExactly | Nachos/nachos-3.4/code/threads/threadtest.cc:796-805 | at the end of the wait, and nowhere else, done[i] becomes true exactly when all letters are sent and every box is empty |
| PostOfficeRuns.GoesHome | Nachos/nachos-3.4/code/threads/threadtest.cc:714-806 | a person who ends the wait when it is over goes home with the next step |
| PostOfficeRuns.AllNearHome | Nachos/nachos-3.4/code/threads/threadtest.cc:714-806 | once all letters are sent and read, a run goes on for 18 steps a person at most, because every step of anybody brings somebody nearer home |
| PostOfficeRuns.EverybodyGoesHome | Nachos/nachos-3.4/code/threads/threadtest.cc:714-806 | and where such a run can go on no longer everybody is done and has gone |
| PostOfficeRuns.EveryLetterIsSomewhere | Nachos/nachos-3.4/code/threads/threadtest.cc:737-777 | on every interleaving the letters people drew for person j, each under its sender's number, are, as a multiset, those j has read, those in j's box, those on their way to it, and those given up, of which there are none before all are sent |
| PostOfficeRuns.SendsOne | Nachos/nachos-3.4/code/threads/threadtest.cc:749-786 | five undisturbed steps put the letter in the recipient's next slot under the sender's number, take one free slot, count it, give the locks back, and change nothing else |
| PostOfficeRuns.ReadsOne | Nachos/nachos-3.4/code/threads/threadtest.cc:724-735 | four undisturbed steps read the newest letter, free its slot, give the lock back, and change nothing else |
| PostOfficeRuns.GivesUpOne | Nachos/nachos-3.4/code/threads/threadtest.cc:764-782 | when all letters are sent, six undisturbed steps give back the slot and the locks, and nothing else has changed |
| PostOfficeRuns.WaitLasts | Nachos/nachos-3.4/code/threads/threadtest.cc:787-795 | the wait outside lasts for as many turns of the person as were drawn, on any interleaving |
| PostOfficeRuns.StuckAtSpace | Nachos/nachos-3.4/code/threads/threadtest.cc:714-786 | whoever can never go on waits for a free slot: the mailbox locks and the lock of the count hold nobody up for good |
| PostOfficeRuns.StuckMeansFull | Nachos/nachos-3.4/code/threads/threadtest.cc:714-786 | nobody can step exactly when all have gone or everybody waits at a full box |
| PostOfficeDeadlock.DeadlocksExactlyWhen | Nachos/nachos-3.4/code/threads/threadtest.cc:714-816 | with boxes of one slot or more some interleaving deadlocks exactly when there are three people or more and letters enough to fill two boxes |
| PostOfficeDeadlock.ThreeButNotTwo | Nachos/nachos-3.4/code/threads/threadtest.cc:714-816 | so three people with boxes of one slot and two letters can, and two people never |
| Multiplier.Mult | Nachos/nachos-3.4/code/machine/mipssim.cc:634-692 | HI:LO is the exact 64-bit product, signed or unsigned, for all operands, the most negative integer included |
| Multiplier.UnsignedMult | Nachos/nachos-3.4/code/machine/mipssim.cc:657-678 | the shift-and-add loop, with its early exit, multiplies the 32 bits of a, whatever its sign, with b |
| Multiplier.AddDouble | Nachos/nachos-3.4/code/machine/mipssim.cc:665-668 | low sum, carry and high sum add two double words |
| Multiplier.ShiftDouble | Nachos/nachos-3.4/code/machine/mipssim.cc:672-676 | the two shifts and the bit carried over double a double word |
| Multiplier.NegateDouble | Nachos/nachos-3.4/code/machine/mipssim.cc:682-688 | flipping both words and adding one with carry gives 2^64 minus the double word |
| Multiplier.NextTurn | Nachos/nachos-3.4/code/machine/mipssim.cc:663-678 | one turn of the loop: the next bit joins the low ones, and neither sum nor shift overflows |
| Endian.WordToHost | Nachos/nachos-3.4/code/machine/translate.cc:41-53 | on a big-endian host the shifts and masks reverse the four bytes; elsewhere nothing happens |
| Endian.ShortToHost | Nachos/nachos-3.4/code/machine/translate.cc:55-65 | the same for the two bytes of a half word |
| Endian.LoadsLittleEndian | Nachos/nachos-3.4/code/machine/translate.cc:111-114 | a host load followed by the conversion gives the little-endian value of the bytes |
| Endian.StoresLittleEndian | Nachos/nachos-3.4/code/machine/translate.cc:160-163 | the conversion followed by a host store leaves the value little-endian in memory |
| Translation.NeverStraddles | Nachos/nachos-3.4/code/machine/translate.cc:196-210 | an aligned access of 1, 2 or 4 bytes stays in its page, and its bytes are neighbours in physical memory |
| Translation.PhysInjective | Nachos/nachos-3.4/code/machine/translate.cc:208-218 | different mapped addresses have different physical addresses when valid pages have frames of their own |
| Translation.StoreIsFlat | Nachos/nachos-3.4/code/machine/translate.cc:137-169 | a store changes the program's flat array of bytes at the addressed bytes and nowhere else |
| Translation.LoadIsFlat | Nachos/nachos-3.4/code/machine/translate.cc:87-122 | a load reads the flat array at the addressed bytes |
| Translation.MarkingIsInvisible | Nachos/nachos-3.4/code/machine/translate.cc:248-250 | setting use and dirty bits moves no byte |
| Translation.TlbGivesTableAnswer | Nachos/nachos-3.4/code/machine/translate.cc:222-234 | a TLB that agrees with the table misses, or gives the table's answer, address or fault alike |
| Translation.MarkingKeepsWalks | Nachos/nachos-3.4/code/machine/translate.cc:248-250 | use and dirty bits influence no later translation |
| Machines.Machine.Translate | Nachos/nachos-3.4/code/machine/translate.cc:186-255 | the faults in the code's order, else the physical address, with only the entry used marked; the address is inside memory |
| Machines.Machine.ReadMem | Nachos/nachos-3.4/code/machine/translate.cc:87-122 | the little-endian value at the translated address, on either host, which through a page table is the value of the flat array there; a fault leaves the registers as the handler must find them |
| Machines.Machine.WriteMem | Nachos/nachos-3.4/code/machine/translate.cc:137-169 | exactly the addressed bytes of memory, and of the flat array when there is a page table, become the low bytes of the value in little-endian order, on either host; a fault changes no memory |
| Machines.Load | Nachos/nachos-3.4/code/machine/translate.cc:101-117 | the switch in ReadMem on the bytes found, for both byte orders and both kinds of char |
| Machines.Laid | Nachos/nachos-3.4/code/machine/translate.cc:148-166 | the bytes the switch in WriteMem puts down, for both byte orders |
| Machines.StoreThenLoad | Nachos/nachos-3.4/code/machine/translate.cc:87-169 | what is stored through the page table, in 1, 2 or 4 bytes, is read back through it as far as the size goes, and addresses that do not overlap read as before |
| Translation.LoadIsFlatBytes | Nachos/nachos-3.4/code/machine/translate.cc:87-122 | the bytes a load finds are those of the flat array from its address on |
| Translation.StoreMarksFlat | Nachos/nachos-3.4/code/machine/translate.cc:137-169 | a store, with the use and dirty bits it sets, changes the flat array at its own bytes alone, and maps what was mapped |
| MachineLaws.LoadsFromFlat | Nachos/nachos-3.4/code/machine/mipssim.cc:231-343 | every load, through a page table: the bytes of flat memory at its address, extended as the operation says, are due for rt; LWL takes the whole word and LWR only its last byte |
| MachineLaws.StoresToFlat | Nachos/nachos-3.4/code/machine/mipssim.cc:471-532 | every store, through a page table: flat memory changes at its own bytes, to the register's low ones, and nowhere else; SWR changes one byte |
| MachineLaws.AccessMarks | Nachos/nachos-3.4/code/machine/translate.cc:248-250 | a store leaves its entry used and dirty, a load used and as dirty as it was, and all other entries and fields as they were |
| MachineLaws.CleanPagesAreUnchanged | Nachos/nachos-3.4/code/machine/translate.cc:248-250 | after any run of instructions every byte of memory that is not as it was is in the frame of a dirty entry: a clean page has not been written |
| Machines.Machine.RaiseException | Nachos/nachos-3.4/code/machine/machine.cc:100-111 | the handler finds BadVAddr set and the pending load done, and nothing else changed |
| Machines.Machine.DelayedLoad | Nachos/nachos-3.4/code/machine/mipssim.cc:575-582 | the pending load takes effect, the next one is noted, and register 0 is zero |
| Mips.Instruction.Decode | Nachos/nachos-3.4/code/machine/mipssim.cc:589-626 | the fields are those that MipsEncoding proves to be the inverse of assembling |
| Mips.DecodeTotal | Nachos/nachos-3.4/code/machine/mipssim.cc:589-626 | every 32-bit word decodes to a case of the switch, with register numbers below 32 and constants that fit their field; RFE, SPECIAL and BCOND never remain |
| Mips.DecodeImmediate | Nachos/nachos-3.4/code/machine/mipssim.cc:595-606 | decoding undoes the encoding of an immediate-format instruction |
| Mips.DecodeRegister | Nachos/nachos-3.4/code/machine/mipssim.cc:595-615 | decoding undoes the encoding of a register-format instruction |
| MipsEncoding.DecodesWhatWasAssembled | Nachos/nachos-3.4/code/machine/mipssim.h:117-150 | for every operation, by an independent table of its number in bits 31:26, the function field or the rt field: the word assembled from it and its fields decodes to that operation with those fields |
| MipsEncoding.AssemblesWhatWasDecoded | Nachos/nachos-3.4/code/machine/mipssim.h:117-150 | every word that decodes to an operation that can be written is the one assembled from what it decodes to |
| MipsEncoding.WordsWithoutCode | Nachos/nachos-3.4/code/machine/mipssim.h:117-150 | the other words are unimplemented, exactly those of coprocessors, BREAK and the conditions of BCOND that the simulator does not know, or reserved |
| Mips.Evaluate | Nachos/nachos-3.4/code/machine/mipssim.cc:121-544 | the computing cases of the switch give the instruction's mathematical result, or overflow exactly when the sum or difference does not fit |
| Mips.SumOverflows | Nachos/nachos-3.4/code/machine/mipssim.cc:125-143 | the sign-bit tests of ADD and ADDI hold exactly when the sum does not fit a word |
| Mips.DifferenceOverflows | Nachos/nachos-3.4/code/machine/mipssim.cc:457-465 | the sign-bit test of SUB holds exactly when the difference does not fit a word |
| MipsLaws.Comparisons | Nachos/nachos-3.4/code/machine/mipssim.cc:404-434 | SLT, SLTI, SLTU and SLTIU give one exactly when the first operand is below the second by the highest bit in which they differ, the sign bit counting the other way for the signed ones |
| MipsLaws.LogicBits | Nachos/nachos-3.4/code/machine/mipssim.cc:371-381 | AND, OR, XOR, NOR, their immediate forms and LUI, bit by bit, with constants extended by zeros; OR as the code has it |
| MipsLaws.ShiftBits | Nachos/nachos-3.4/code/machine/mipssim.cc:395-455 | the shifts, bit by bit: left shifts bring in zeros, right shifts repeat the sign, the logical ones too |
| MipsLaws.DestinationByCode | Nachos/nachos-3.4/code/machine/mipssim.cc:121-544 | operations with a constant in the word write rt, those of SPECIAL write rd, MTHI and MTLO write HI and LO |
| Mips.Divide | Nachos/nachos-3.4/code/machine/mipssim.cc:195-217 | quotient toward zero and remainder with the sign of the dividend, zeros for a zero divisor, and the unsigned pair |
| Mips.HostFaultExactly | Nachos/nachos-3.4/code/machine/mipssim.cc:195-204 | the one signed quotient that no word holds is the most negative integer by minus one |
| Mips.BranchTarget | Nachos/nachos-3.4/code/machine/mipssim.cc:161-229 | the address after the delay slot, for every branch and jump |
| MachineLaws.ReturnAddress | Nachos/nachos-3.4/code/machine/mipssim.cc:166-229 | JAL, BGEZAL, BLTZAL and JALR leave the address after the delay slot, eight on from themselves, in register 31 or rd, taken or not; no other branch changes a general register |
| MachineLaws.BranchLeadsTo | Nachos/nachos-3.4/code/machine/mipssim.cc:161-193 | a conditional branch leads so many words on from the delay slot when its test holds, and past the delay slot when not |
| Mips.ExtendByte | Nachos/nachos-3.4/code/machine/mipssim.cc:231-243 | LB and LBU extend the byte as they say, whatever the sign of the host's char |
| Mips.ExtendHalf | Nachos/nachos-3.4/code/machine/mipssim.cc:245-261 | LH and LHU extend the half word as they say |
| Mips.OrRightWhen | Nachos/nachos-3.4/code/machine/mipssim.cc:375-377 | OR takes rs twice: it is the architecture's OR exactly when rs has every bit of rt |
| Mips.OrWrongOnOneAndTwo | Nachos/nachos-3.4/code/machine/mipssim.cc:375-377 | 1 OR 2 comes out wrong |
| Mips.LogicalShiftRightWhen | Nachos/nachos-3.4/code/machine/mipssim.cc:445-455 | SRL and SRLV shift a signed integer: they are logical shifts exactly when the value is not negative or nothing is shifted |
| Mips.LogicalShiftRightWrong | Nachos/nachos-3.4/code/machine/mipssim.cc:445-455 | -2 shifted right by one place comes out as -1 |
| Machines.Machine.Execute | Nachos/nachos-3.4/code/machine/mipssim.cc:117-565 | each case of the switch with what follows it: the effect of every instruction on registers, memory and use and dirty bits, and which outcomes end Nachos |
| Machines.Machine.OneInstruction | Nachos/nachos-3.4/code/machine/mipssim.cc:93-565 | fetch, decode and execute: a fetch fault traps; otherwise the decoded instruction has its effect; the entries used by the fetch and by the access are marked and no others; which instructions end Nachos |
| Machines.PreciseException | Nachos/nachos-3.4/code/machine/machine.cc:100-111 | at handler entry PC, NextPC, HI, LO and memory are unmoved and no general register has changed but by the pending load; register 0 is zero |
| Machines.Completion | Nachos/nachos-3.4/code/machine/mipssim.cc:557-565 | after an instruction the program counters have moved on by one place, register 0 is zero, the pending load is done, at most one other general register changed, and LoadReg names a general register |
| Machines.LoadIsDelayedByOne | Nachos/nachos-3.4/code/machine/mipssim.cc:575-582 | with a clock tick between two instructions, a load is delayed by one instruction exactly when no interrupt fires at the tick: then the next instruction still finds the old value and the loaded one stands after it; otherwise the next instruction finds the loaded value and may overwrite it |
| Machines.Machine.Run | Nachos/nachos-3.4/code/machine/mipssim.cc:30-46 | a run is a chain of whole states: each instruction starts in the state that the one before left, after the kernel if that trapped and after the tick, does what OneInstruction says, and leaves register 0 at zero; it stops early exactly at an instruction that ends Nachos |
| Machines.Machine.Tick | Nachos/nachos-3.4/code/machine/interrupt.cc:324-327 | any positive number of interrupts does the pending load once, before the next instruction |
| Machines.ZeroAtStart | Nachos/nachos-3.4/code/machine/mipssim.cc:30-46 | register 0 is also zero where an instruction starts, if an interrupt has just fired or the kernel leaves it at zero |
| AddrSpaces.AddrSpace.FirstFit | Nachos/nachos-3.4/code/userprog/addrspace.cc:46-104 | ends, although the index is set back to 0; succeeds exactly when so many frames in a row are free; gives the lowest such start |
| AddrSpaces.AddrSpace.BestFit | Nachos/nachos-3.4/code/userprog/addrspace.cc:111-169 | succeeds exactly when there is room and the last frame is free; gives the lowest start that fits |
| AddrSpaces.AddrSpace.WorstFit | Nachos/nachos-3.4/code/userprog/addrspace.cc:170-228 | succeeds exactly when there is room and the last frame is free; gives the start of the first of the longest free runs |
| AddrSpaces.AddrSpace.MemoryAllocation | Nachos/nachos-3.4/code/userprog/addrspace.cc:34-41 | the algorithm asked for; a number that names none changes nothing |
| AddrSpaces.ChosenIsFree | Nachos/nachos-3.4/code/userprog/addrspace.cc:34-228 | any success names a block inside memory, all of it free |
| FreeRuns.BestFitIsBestWhen | Nachos/nachos-3.4/code/userprog/addrspace.cc:111-169 | on every map of frames, BestFit finds a block in a shortest fitting free run exactly when there is room, the last frame is free, and no fitting run is shorter than the first one |
| FreeRuns.BestFitIsNotBest | Nachos/nachos-3.4/code/userprog/addrspace.cc:142-151 | with a pair of free frames before a single one, a request for one frame gets one of the pair |
| AddrSpaces.AddrSpace.Translate | Nachos/nachos-3.4/code/userprog/addrspace.cc:264-297 | a negative address faults, and any other gives what the machine's translation of a byte read gives: fault or address, and the entry marked as used |
| AddrSpaces.AddrSpace.LoadSegment | Nachos/nachos-3.4/code/userprog/addrspace.cc:230-259 | memory changes exactly at the first LoadedLength bytes of the segment, to the bytes of the file, and exactly the pages read to are marked as used |
| AddrSpaces.WholeSegmentLoadedWhen | Nachos/nachos-3.4/code/userprog/addrspace.cc:235-242 | LoadSegment copies the whole segment exactly when it starts on a page boundary, is shorter than a page, or is whole pages |
| AddrSpaces.SegmentCutShort | Nachos/nachos-3.4/code/userprog/addrspace.cc:235-242 | 300 bytes loaded at address 16 lose the last 44 |
| AddrSpaces.AddrSpace.constructor | Nachos/nachos-3.4/code/userprog/addrspace.cc:336-394 | the space has the fewest pages that hold its three segments and 1024 bytes of stack, when 32 bits hold the sum; the frames found are marked, and mapped in order by entries that are valid, writable and clean, and used where loading touched them; the space holds data over code over zeros; no other byte and no other bit changes; without room nothing changes |
| AddrSpaces.HoldsProgramExactlyWhen | Nachos/nachos-3.4/code/userprog/addrspace.cc:348-351 | the space is large enough for the program exactly when the sum of the sizes fits 32 bits |
| AddrSpaces.SizesWrapAround | Nachos/nachos-3.4/code/userprog/addrspace.cc:348-351 | and two segments of nearly two gigabytes each get four pages |
| AddrSpaces.NoffRoundTrip | Nachos/nachos-3.4/code/bin/noff.h:12-25 | a header laid out as the file format says, field by field, is read back as it was |
| AddrSpaces.NoffBytesRoundTrip | Nachos/nachos-3.4/code/bin/noff.h:12-25 | every forty bytes are the encoding of the header they are read as |
| AddrSpaces.AddrSpace.Destroy | Nachos/nachos-3.4/code/userprog/addrspace.cc:400-414 | exactly the space's frames are zeroed and its bits cleared |
| SpaceRuns.FramesAreOwned | Nachos/nachos-3.4/code/userprog/addrspace.cc:336-414 | over any creations and exits MainMemMap marks exactly the frames of the live spaces, and each frame has one owner |
| SpaceObjects.Session | Nachos/nachos-3.4/code/userprog/addrspace.cc:336-414 | real spaces created and destroyed in any order on one map and one memory follow a run of the step system, and every live one still holds its program |
| SpaceObjects.FromEmpty | Nachos/nachos-3.4/code/userprog/addrspace.cc:336-414 | from an empty machine each live space reads through its page table as data over code over zeros of a program asked for under its number |
| SpaceObjects.CreatedIntact | Nachos/nachos-3.4/code/userprog/addrspace.cc:336-394 | creating a space changes no byte of another |
| SpaceRuns.ExitReturnsWhatCreationTook | Nachos/nachos-3.4/code/userprog/addrspace.cc:336-414 | creation followed by exit restores the map exactly |
| SpaceRuns.StoresStayHome | Nachos/nachos-3.4/code/userprog/addrspace.cc:336-394 | a store through one live space's page table changes no byte another live space can read |
| SpaceRuns.SpaceIsFlat | Nachos/nachos-3.4/code/userprog/addrspace.cc:363-373 | a space's page table maps valid pages to frames of their own, end to end |
| SpaceRuns.NewSpaceReads | Nachos/nachos-3.4/code/userprog/addrspace.cc:378-392 | read through its page table, a new space is data over code over zeros |
| SpaceRuns.SegmentReadsAsFile | Nachos/nachos-3.4/code/userprog/addrspace.cc:230-259 | every byte of a segment that is loaded whole reads as its byte on file |
| DiskTiming.Disk.TimeToSeek | Nachos/nachos-3.4/code/machine/disk.cc:179-194 | the seek time, and the time from there to the next sector boundary |
| DiskTiming.Disk.ModuloDiff | Nachos/nachos-3.4/code/machine/disk.cc:202-209 | the sectors of rotation between two positions, on every pair |
| DiskTiming.Disk.ComputeLatency | Nachos/nachos-3.4/code/machine/disk.cc:232-253 | the track buffer serves a read exactly when, on the same track, the whole sector has passed under the head since it came to rest there; otherwise the request ends at the earliest boundary after the seek at which the head has just swept the sector; every latency is between 500 and 31*500 + 499 + 32*500 |
| DiskTiming.Disk.UpdateLast | Nachos/nachos-3.4/code/machine/disk.cc:261-271 | a seek restarts the buffer at the next boundary after it |
| DiskTiming.Disk.Request | Nachos/nachos-3.4/code/machine/disk.cc:115-153 | the same for the request as a whole; after a change of track the head has come to rest at the end of the seek and the buffer begins to fill at the first boundary after that, otherwise both are as they were |
| DiskTiming.Disk.HandleInterrupt | Nachos/nachos-3.4/code/machine/disk.cc:161-166 | the device is idle again, with its invariant |
| DiskTiming.FirstSweep | Nachos/nachos-3.4/code/machine/disk.cc:232-253 | from a boundary on, the sector is first swept after the rotational delay computed and one sector more |
| DiskTiming.EnoughHavePassed | Nachos/nachos-3.4/code/machine/disk.cc:239-247 | the buffer test holds exactly when the sector has passed |
| DiskTiming.Run | Nachos/nachos-3.4/code/machine/disk.cc:115-166 | over any run of requests and interrupts exactly the requests that find the device idle are served, one after the other, each in the time that the law of ComputeLatency gives for a head that came to rest at the end of the last seek |
| DiskTiming.NeverFromAnotherTrack | Nachos/nachos-3.4/code/machine/disk.cc:232-271 | so no read is answered before its whole sector has passed since the head came to rest on the sector's track, and no write before it has passed since the request |
| Interrupts.Interrupt.CheckIfDue | Nachos/nachos-3.4/code/machine/interrupt.cc:290-336 | fires the first pending interrupt when it is due, or when the clock may jump to it; otherwise puts it back, which leaves the list as it was exactly when no other interrupt waits for the same time; never fires early, and keeps time adding up |
| Interrupts.Interrupt.FireDue | Nachos/nachos-3.4/code/machine/interrupt.cc:169-170 | the firing loop ends, because each turn uses up one of the due interrupts; the interrupts due at the start fire, those and no others, in their order and all at this time; an idle machine leaves only its timer; the list then holds what was not due and what the handlers scheduled, each at its place, and a switch is asked for exactly when it was before or a handler that fired asks for it |
| Interrupts.Interrupt.OneTick | Nachos/nachos-3.4/code/machine/interrupt.cc:150-179 | time advances by 10 or 1, all of it system or all of it user time; exactly what is then due fires, in order; nothing due is left and nothing else is lost: the list with what fired is, as a multiset, the old list with what the handlers that fired scheduled; the thread yields exactly when a switch was asked for before or by one of them; interrupts are on again |
| Interrupts.Interrupt.SetLevel | Nachos/nachos-3.4/code/machine/interrupt.cc:114-127 | turning interrupts on takes a tick, with all that OneTick promises of one; anything else takes no time |
| Interrupts.Interrupt.Idle | Nachos/nachos-3.4/code/machine/interrupt.cc:210-234 | the clock jumps to the first pending interrupt, which fires first, and the others then due after it in order, with the same account of what is pending; halts exactly when nothing, or only the timer, is pending |
| Interrupts.Interrupt.Schedule | Nachos/nachos-3.4/code/machine/interrupt.cc:264-275 | the interrupt is in the list at its time, behind its equals |
| Interrupts.OrderlyFire | Nachos/nachos-3.4/code/machine/interrupt.cc:290-336 | firing keeps scheduled times in order over the run and takes the first off those due, whatever the handler schedules |
| Interrupts.NothingLost | Nachos/nachos-3.4/code/machine/interrupt.cc:169-170 | what is pending after the firing loop, together with what fired, is what was pending and what the handlers of the fired ones scheduled, with multiplicity |
| Interrupts.DueComeFirst | Nachos/nachos-3.4/code/machine/interrupt.cc:264-336 | the due interrupts are the first ones of the list, and all of those |
| Interrupts.TiesRotate | Nachos/nachos-3.4/code/machine/interrupt.cc:309-312 | putting back an early interrupt moves it behind all others of the same time |
| Interrupts.TiesKeptWhen | Nachos/nachos-3.4/code/machine/interrupt.cc:309-312 | so the list keeps its order exactly when nothing else waits for the time of its first entry |
| Interrupts.DistinctTiesKeptWhen | Nachos/nachos-3.4/code/machine/interrupt.cc:309-312 | with distinct entries, exactly when the second one is for a later time |
| Interrupts.TiesAreNotFifo | Nachos/nachos-3.4/code/machine/interrupt.cc:309-312 | two interrupts for the same time change places |
| Lists.List.Append | Nachos/nachos-3.4/code/threads/list.cc:76-88 | the sequence of items with the new one last |
| Lists.List.Prepend | Nachos/nachos-3.4/code/threads/list.cc:102-114 | the sequence with the new item first |
| Lists.List.SortedInsert | Nachos/nachos-3.4/code/threads/list.cc:178-202 | the sequence with the new item before the first greater key |
| Lists.List.SortedRemove | Nachos/nachos-3.4/code/threads/list.cc:217-237 | the first item with its key, and the rest of the sequence; first and last stay right down to the empty list |
| Lists.List.Remove | Nachos/nachos-3.4/code/threads/list.cc:124-128 | the first item, and the rest of the sequence |
| Lists.List.IsEmpty | Nachos/nachos-3.4/code/threads/list.cc:154-161 | whether the sequence is empty |
| Lists.InsertedIsSorted | Nachos/nachos-3.4/code/threads/list.cc:178-202 | a sorted list stays sorted, loses nothing, and equal keys leave in the order they came |

## Left out

- FileHeaders.FileHeader.Allocate: asks that its loop does not leave the header (`FileHeaders.OverrunsWhen` says when it would), because what the code then writes over is not part of the model; and for a size that is not negative.
- FileHeaders.FileHeader.Deallocate: asks that the header's sectors are marked, which the code asserts sector by sector.
- FileSystems.FileSystem.Create: asks for a size that is not negative and, where it would succeed, not over MaxFileSize, for the same reason.
- FileSystems.FileSystem.Mount: asks for a sound disk; on one that never was a file system the code reads headers that mean nothing.
- OpenFiles.OpenFile.ReadAt: asks that position + numBytes does not overflow an int, that position is not negative, and that the buffer is as long as the clamped count, all of which the code takes for granted; from a negative position it would count sectors before the file's first.
- OpenFiles.OpenFile.WriteAt: the same.
- OpenFiles.OpenFile.Read: asks for a seek position that is not negative, for the same reason; so does OpenFile.Write.
- Directories.Directory.WriteBack: the padding bytes of an entry, which the compiler leaves as they are, are written as zeros.
- Machines.Machine.Execute: LWL, LWR, SWL and SWR are modelled where their address is aligned; elsewhere an assertion ends Nachos, and so does a signed division whose quotient does not fit a word on the host.
- Machines.Machine.Run: an interrupt at a tick does the pending load and no more; the switches to other threads that it may lead to give the registers back as they were.
- Machines.Machine.OneInstruction: ends where the exception handler is called; what the kernel then does is an arbitrary function in Machine.Run.
- AddrSpaces.AddrSpace.constructor: asks for the magic number, for segments inside the space and a header in the file, as the code does or takes for granted; a program that asks for no pages at all is shut out. The header is read little-endian: on a little-endian host the swapped magic number never occurs, and on a big-endian host swapping gives the same; a header in a big-endian host's own order is not modelled.
- AddrSpaces.AddrSpace.BestFit: says nothing about a request for no frames, which the constructor does not make; so does WorstFit.
- AddrSpaces.AddrSpace.LoadSegment: asks for a segment inside the space; outside it the code goes on with an address it has not been given.
- AddrSpaces.AddrSpace.Destroy: the process table, the parent's semaphore and the end of the thread are not part of it.
- FileSessions.Session: sizes of new files are at most MaxFileSize, and positions do not overflow an int.
- Interrupts.Interrupt.CheckIfDue: the call of machine->DelayedLoad before the handler is in Machines.Machine.Tick, one for each interrupt that fires.
- DiskTiming.Disk.Request: the bytes read or written are modelled in SectorDisk, not here.
- Interrupts.Interrupt.OneTick: tells whether the running thread yields on return; what other threads do before the yield returns is the thread models' matter.
- The structures on disk are laid out as on a little-endian host; only the MIPS memory is modelled for both byte orders.
- Kernel's classes hold the ready list and the queues as sequences; List.dfy proves that the linked list is one.
- The post office comes to an end only from where all letters are sent and read, or in a deadlock; before that nothing makes every person run again. GetSticks has no claim of deadlock freedom when a timer switches threads, only that every run ends.
- DinPhilBusyWait, PostOfficeLoop, Shout and CheckInputOnly: versions of the tasks without semaphores, which would add easier members.
- Locks, conditions, SynchList, the network post office: in this repository a lock does nothing and waiting on a condition aborts.
- ProcessList, Exec, Join and the other system calls: a process waits on a counter its children share, so there is no promise about which child it waits for.
- SynchDisk waits for the interrupt of each request; here a sector is read or written in one step.
- Console, network devices, timer, the command line, printing and the host's files.
- code/bin, c++example, addrspace_marcus, system2.cc and the copy of threadtest.cc among the submission documents: old tools, dead code and duplicates.
- Overflow of tick counters.
