# Verified models of the Nachos kernel and machine

This project models the parts of Nachos that carry state and proves what they keep, for all inputs and all runs.
`dafny verify dfyconfig.toml` checks everything.

* **File system.** The disk is an array of 256-byte sectors.
  `SynchDisk`, `BitMap`, `FileHeader`, `OpenFile`, `Directory` and `FileSystem` work on it in place, as the kernel does: the free map and the directory are themselves files, so each operation goes through `ReadAt` and `WriteAt`.
  `Catalog` states who owns which sector; `FsInvariant` shows that every operation keeps it; `FsRefinement` and `FsRun` show that every run from a formatted disk is a run of a map from names to byte sequences; `FsNames` says what a run does to the file of a name; `FsClient` holds a file system with its open files, and shows that whatever is asked of these objects is such a run; `Stream` covers reading and writing piece by piece.
* **Event clock.** `List` is the linked list with its pointers; `EventClock` is the clock with its sorted pending interrupts as a machine on values, for arbitrary handlers; `ClockSteps` says exactly when an interrupt fires and when the machine halts; `FiringOrder` is about interrupts with the same due time; `Interrupt` is the object, proved to do the same on the linked list, in every run.
* **Threads.** `Threads` is the protocol of Fork, Yield, P, V, Join and Finish for any number of threads and semaphores, in steps that run with interrupts disabled; `ThreadOrder` is about who comes next, `ThreadHistory` about what the state says of the past, `Joins` about joins that never return and `Wakeups` about those that still can; `Scheduler` holds the operations and semaphores on the kernel's linked lists and tables, proved to represent those steps; `KernelRun` puts the scheduler and all semaphores together, and shows that whatever calls are made on these objects are a run of the protocol; `ThreadList` the loops over the active list; `Philosophers`, `PhilosopherTurns` and `PhilosopherEnd` the busy-waiting philosophers for any N.
* **Machine.** `Multiply`, `Translate`, `DiskTiming`; `Frames` and `Paging` for frame ownership under demand paging, and `FifoOrder` for the order of eviction; `Isolation` puts ownership and translation together.

The host is the i386: 32-bit little-endian integers, signed `char`, and 20 bytes for a directory entry.
Machine words are integers with their range written out; `Bits` defines the bitwise operators digit by digit.

What the proofs brought to light:

* `WriteAt` reads only the bytes of the file into its buffer, so the rest of a last sector gets arbitrary bytes. No file changes by this (`OpenFiles.OpenFile.WriteAt`).
* A new file has whatever bytes its sectors held before (`FsRefinements.CreateFiles` fixes its length only).
* Interrupts with the same due time need not fire in the order in which they were scheduled: each look at one that is not due moves it behind the others. They do exactly when the number of looks is a multiple of their number (`FiringOrder.FireAsScheduledIff`, `FiringOrder.SecondFiresFirst`).
* Threads come to wait in Join only for one another exactly when one of them joins a child that already has a parent, whose place it takes, or a child that waits for it, perhaps through others; joining oneself is the shortest such cycle (`Joins.RunDeadlocksIff`, `Joins.SecondJoinRun`, `Joins.MutualJoinRun`). The code checks for neither. Every other thread in Join can still be woken (`Wakeups.WokenIff`); whether it is depends on whether the threads it waits for finish.
* FIFO replacement evicts the oldest page as long as no address space exits. After that it may evict the newest, because the frames of the exited one stay in the queue (`FifoOrder.FifoWithoutExits`, `FifoOrder.EvictsOldestIff`, `FifoOrder.StaleQueueEvictsNewest`).
* The philosophers can deadlock in one way only (`Philosophers.DeadlockIff`), and not as long as they take turns (`PhilosopherTurns.NoDeadlock`), which the ready list makes them do (`ThreadOrder.RoundRobin`); then all of them leave in the end (`PhilosopherEnd.FairRunsEnd`, `PhilosopherEnd.AllGoHome`). A time slice can cost one of them its turn, and then they can deadlock (`Philosophers.DeadlockReached`).
* The comment in `V` says that the woken thread consumes the V at once. In the code it looks at the value again when it runs, and another thread may have been faster (`ThreadOrder.WokenTakesIff`, `ThreadOrder.OvertakenRun`).
* A header has room for `MaxFileSize` (15872) bytes, which the code relies on without checking it: a larger size is modelled only where there are too few clear sectors for it, so that Create fails.

## Model

| member | source | states |
|---|---|---|
| SynchDisks.SynchDisk.ReadSector | code/filesys/synchdisk.cc:72-79 | exactly one sector arrives in the buffer at the given place; the rest of the buffer and the whole disk stay |
| SynchDisks.SynchDisk.WriteSector | code/filesys/synchdisk.cc:90-97 | exactly one sector of the disk changes, to the given 256 bytes |
| Bytes.WordsRoundTrip | code/userprog/bitmap.cc:150-167 | an array of 32-bit words stored little-endian in a file is read back unchanged, whatever follows it |
| Bytes.EncodedDigit | code/userprog/bitmap.cc:150-167 | byte k of a stored word is digit k of its value in base 256 |
| BitMaps.MarkWord | code/userprog/bitmap.cc:46-51 | or-ing a shifted one into a word adds exactly that bit number to the set that the words represent |
| BitMaps.ClearWord | code/userprog/bitmap.cc:60-65 | and-ing with the complement removes exactly that bit number |
| BitMaps.LeastClearIsLeast | code/userprog/bitmap.cc:94-103 | what Find returns is clear, and every smaller bit is marked |
| BitMaps.BitMap.constructor | code/userprog/bitmap.cc:20-27 | a new map represents the empty set, although the words start with arbitrary bits |
| BitMaps.BitMap.Mark | code/userprog/bitmap.cc:46-51 | the represented set gains the bit |
| BitMaps.BitMap.Clear | code/userprog/bitmap.cc:60-65 | the represented set loses the bit |
| BitMaps.BitMap.Test | code/userprog/bitmap.cc:74-83 | true exactly for members of the represented set |
| BitMaps.BitMap.Find | code/userprog/bitmap.cc:94-103 | marks and returns the least clear bit; -1 and no change if and only if there is none |
| BitMaps.BitMap.NumClear | code/userprog/bitmap.cc:111-119 | the cardinality of the complement of the represented set |
| FileHeaders.HeaderRoundTrip | code/filesys/filehdr.cc:77-94 | a header written to a sector and fetched again has the same fields |
| FileHeaders.YieldsClear | code/filesys/filehdr.cc:49-50 | the sectors that the allocation loop takes were clear, lie on the disk and come in increasing order |
| FileHeaders.YieldsLeast | code/filesys/filehdr.cc:49-50 | the allocation loop skips no clear sector |
| FileHeaders.TakenSectors | code/filesys/filehdr.cc:49-50 | they are pairwise distinct and disjoint from what was marked |
| FileHeaders.FileHeader.AllocateAndDeallocate | code/filesys/filehdr.cc:41-68 | Deallocate right after Allocate meets its ASSERT and restores every bit of the map, and the pair succeeds if and only if enough sectors are clear |
| FileHeaders.FileHeader.Allocate | code/filesys/filehdr.cc:41-52 | succeeds if and only if enough sectors are clear; then the header lists the first clear ones and exactly those become marked; otherwise the map does not change |
| FileHeaders.FileHeader.Deallocate | code/filesys/filehdr.cc:61-68 | unmarks exactly the listed sectors; the ASSERT inside the loop holds at every round |
| FileHeaders.FileHeader.FetchFrom | code/filesys/filehdr.cc:77-81 | the header in memory is the one stored in the sector |
| FileHeaders.FileHeader.WriteBack | code/filesys/filehdr.cc:90-94 | only that sector changes, and fetching it gives this header |
| FileHeaders.HeaderLayout | code/filesys/filehdr.h:59-63 | the length, the number of sectors and sector i of a header are stored little-endian from bytes 0, 4 and 8 + 4i on |
| OpenFiles.LoadedBytes | code/filesys/openfile.cc:130-141 | of the whole sectors that were read, the bytes at the offset of the request are the requested slice of the file |
| OpenFiles.Assemble | code/filesys/openfile.cc:167-178 | fetching only the first and last sector, and those only if they are partly overwritten, is enough to rebuild every sector of the request |
| OpenFiles.StoreIsWrote | code/filesys/openfile.cc:181-183 | writing the rebuilt sectors changes exactly the slice of the file and no sector outside the touched ones |
| OpenFiles.OpenFile.constructor | code/filesys/openfile.cc:30-35 | the open file has the header stored in its sector and starts at position 0 |
| OpenFiles.OpenFile.Length | code/filesys/openfile.cc:193-197 | the length of the file as a byte sequence |
| OpenFiles.OpenFile.ReadAt | code/filesys/openfile.cc:116-144 | for any alignment, exactly min(numBytes, length - position) bytes of the file arrive in the buffer, none if the request is empty or starts past the end |
| OpenFiles.OpenFile.WriteAt | code/filesys/openfile.cc:146-186 | for any alignment, including one partial sector and a file that ends inside a sector, the file becomes its old contents with that slice replaced, and every untouched sector of the disk is unchanged |
| OpenFiles.OpenFile.Seek | code/filesys/openfile.cc:55-59 | the position of the next Read or Write |
| OpenFiles.OpenFile.Read | code/filesys/openfile.cc:74-80 | ReadAt at the position, which moves by the number of bytes read |
| OpenFiles.OpenFile.Write | code/filesys/openfile.cc:82-88 | WriteAt at the position, which moves by the number of bytes written |
| Streams.TwoWrites | code/filesys/openfile.cc:82-88 | two consecutive writes are one write of the concatenation, also when the end of the file cuts either of them short |
| Streams.ChunkedWrite | code/filesys/openfile.cc:82-88 | any split of a buffer into consecutive Write calls gives the file and position of one WriteAt of the whole buffer |
| Streams.ChunkedRead | code/filesys/openfile.cc:74-80 | any sequence of Read sizes returns the pieces of one ReadAt of their sum |
| Streams.ReadUntilEnd | code/filesys/fstest.cc:89-92 | reading from 0 in positive pieces until a read returns nothing has returned exactly the file |
| Streams.Copy | code/filesys/fstest.cc:61-64 | the copy loop leaves the file equal to its source |
| Streams.ReadBack | code/filesys/fstest.cc:89-92 | the print loop delivers exactly the contents of the file |
| Directories.StrncmpIsKeyEquality | code/filesys/directory.cc:90-97 | two names compare equal if and only if their keys, the at most nine characters before the terminator, are the same |
| Directories.StoredNameKey | code/filesys/directory.cc:138-138 | a stored name has the key of the name it was made from, also when it fills all nine characters |
| Directories.EntryRoundTrip | code/filesys/directory.h:32-39 | an entry survives its 20-byte layout in memory |
| Directories.TableRoundTrip | code/filesys/directory.cc:63-80 | a table written to the directory file is fetched unchanged |
| Directories.Directory.constructor | code/filesys/directory.cc:38-44 | no entry of a new directory is in use |
| Directories.Directory.FetchFrom | code/filesys/directory.cc:63-67 | the table is the one that the bytes of the file encode |
| Directories.Directory.WriteBack | code/filesys/directory.cc:76-80 | the file becomes the encoded table; nothing outside its sectors changes |
| Directories.Directory.FindIndex | code/filesys/directory.cc:90-97 | the first entry in use whose name agrees with the given one in nine characters, or -1 if there is none |
| Directories.Directory.Find | code/filesys/directory.cc:108-116 | the header sector stored there, or -1 |
| Directories.Directory.Add | code/filesys/directory.cc:129-143 | succeeds if and only if the key is absent and an entry is free; then exactly the first free entry changes |
| Directories.Directory.Remove | code/filesys/directory.cc:153-162 | succeeds if and only if the key is present; then exactly its entry goes out of use |
| Directories.KeyIs | code/filesys/directory.cc:94-94 | a key is the name up to its terminator, or its first nine characters if there are more |
| Directories.KeyEquality | code/filesys/directory.cc:94-94 | two keys are equal if and only if the names agree in every one of the first nine characters up to the terminator |
| Directories.TableLayout | code/filesys/directory.h:32-39 | the flag, the sector in little-endian order and the name of entry k are stored from bytes 20k, 20k + 4 and 20k + 8 on |
| DiskLayouts.WroteDirectory | code/filesys/directory.cc:76-80 | after the directory is written to its file, the directory on disk is that table and no other sector changed |
| DiskLayouts.WroteFreeMap | code/userprog/bitmap.cc:163-167 | after the map is written to its file, the free map on disk is that set and no other sector changed |
| DiskLayouts.FetchBitMap | code/userprog/bitmap.cc:150-154 | the map in memory represents the free map on disk |
| DiskLayouts.WriteBitMap | code/userprog/bitmap.cc:163-167 | the free map on disk becomes the represented set; one sector changes |
| DiskLayouts.MarkedOnDisk | code/userprog/bitmap.cc:74-83 | a sector is marked on disk if and only if bit s mod 32 of word s div 32 of sector 2 is set |
| Catalogs.FreeSectors | code/filesys/filesys.cc:185-212 | the number of clear sectors is what the four reserved ones and the listed files leave |
| Catalogs.AddFile | code/filesys/filesys.cc:185-212 | a new file made of unmarked sectors keeps: marked if and only if reserved or owned, owners disjoint, names distinct |
| Catalogs.DropFile | code/filesys/filesys.cc:265-283 | dropping a file from the directory and unmarking its sectors keeps it too |
| FileSystems.EmptyIsSound | code/filesys/filesys.cc:84-126 | a freshly formatted disk satisfies the invariant of the file system |
| FileSystems.FileSystem.Format | code/filesys/filesys.cc:80-143 | formatting makes an empty file system of a disk with arbitrary contents; the two ASSERTs about space hold |
| FileSystems.FileSystem.Mount | code/filesys/filesys.cc:137-142 | opening the two files of a disk formatted earlier |
| FileSystems.FileSystem.Create | code/filesys/filesys.cc:174-215 | succeeds if and only if the key is absent, an entry is free and 1 + ceil(size / 256) sectors are clear; then only one header, one entry and the marks of the first clear sectors change; otherwise no byte of the disk does |
| FileSystems.FileSystem.Open | code/filesys/filesys.cc:227-241 | an open file with the header of the listed file, or null if and only if the key is absent |
| FileSystems.FileSystem.Remove | code/filesys/filesys.cc:257-288 | succeeds if and only if the key is present; then only the entry and the marks of the file's own sectors change; otherwise no byte of the disk does |
| FsInvariants.CreateCatalog | code/filesys/filesys.cc:174-215 | Create changes one slot of the catalog and the bytes of no listed file |
| FsInvariants.CreateKeepsSound | code/filesys/filesys.cc:174-215 | Create, successful or not, keeps the ownership invariant of the disk |
| FsInvariants.RemoveCatalog | code/filesys/filesys.cc:257-288 | Remove empties one slot of the catalog and changes the bytes of no listed file |
| FsInvariants.RemoveKeepsSound | code/filesys/filesys.cc:257-288 | Remove, successful or not, keeps the ownership invariant of the disk |
| FsInvariants.WriteKeepsFile | code/filesys/openfile.cc:146-186 | a write to one file keeps the header of every file and the bytes of every other one |
| FsInvariants.WriteFrame | code/filesys/openfile.cc:146-186 | a write keeps the catalog and the ownership invariant |
| FsInvariants.CreateThenRemove | code/filesys/filesys.cc:174-288 | Create followed by Remove of that name restores the free map and the result of every lookup |
| FsRefinements.CatalogCost | code/filesys/filesys.cc:185-212 | the sectors in use are determined by the lengths of the named files alone |
| FsRefinements.SectorsLeft | code/filesys/filesys.cc:185-212 | so is the number of clear sectors |
| FsRefinements.CanCreateAbstractly | code/filesys/filesys.cc:174-215 | whether Create succeeds can be told from the names and lengths of the files alone |
| FsRefinements.CreateFiles | code/filesys/filesys.cc:174-215 | Create adds one named byte sequence of the requested length and leaves all others |
| FsRefinements.RemoveFiles | code/filesys/filesys.cc:257-288 | Remove deletes one named byte sequence and leaves all others |
| FsRefinements.WriteFiles | code/filesys/openfile.cc:146-186 | a write replaces a slice of one named byte sequence and leaves all others |
| FsRefinements.CreateRefines | code/filesys/filesys.cc:174-215 | Create on sectors is Create on the map from names to bytes, and open handles stay usable |
| FsRefinements.RemoveRefines | code/filesys/filesys.cc:257-288 | Remove on sectors is deletion from the map, and handles of other files stay usable |
| FsRefinements.OpenRefines | code/filesys/filesys.cc:227-241 | the handle that Open gives refers to the named file |
| FsRefinements.WriteRefines | code/filesys/openfile.cc:146-186 | WriteAt through a handle is the slice update of the file it was opened on |
| FsRuns.StepRefines | code/filesys/filesys.cc:174-288 | every operation on sectors keeps the invariant and is the same operation on the map from names to bytes |
| FsRuns.RunIsSound | code/filesys/filesys.cc:80-288 | the invariant holds in every state of every run from a formatted disk |
| FsRuns.RunRefines | code/filesys/filesys.cc:80-288 | every run of Create, Remove, Open, ReadAt and WriteAt is a run of the map from names to bytes that starts empty |
| FsRuns.SectorOwnership | code/filesys/filesys.cc:84-283 | in every reachable state a bit of the free map on disk is set if and only if its sector is reserved or is the header or one data sector of exactly one listed file |
| FsNames.NameFound | code/filesys/directory.cc:90-97 | in every sound state a name stands for a file if and only if it agrees with the name of the file in nine characters, and for one file only |
| FsNames.CreateIff | code/filesys/filesys.cc:174-215 | in every run Create succeeds if and only if no file agrees with the name in nine characters, there are fewer than ten files, and the header and ceil(size / 256) sectors fit beside the other files into 1020; then that file alone is added |
| FsNames.OpenIff | code/filesys/filesys.cc:227-241 | in every run Open succeeds if and only if there is such a file, and the handle is for it |
| FsNames.RemoveIff | code/filesys/filesys.cc:257-288 | in every run Remove succeeds if and only if there is such a file, and drops it alone |
| FsNames.OtherNames | code/filesys/filesys.cc:174-288 | in every run Create and Remove leave the files of all other names as they are |
| FsNames.TwoNamesTwoFiles | code/filesys/filesys.cc:174-215 | after one file was created, Create of a name that agrees with it in nine characters fails, and of any other new name succeeds if and only if there is room |
| FsNames.ReadIs | code/filesys/openfile.cc:116-144 | ReadAt returns byte p after the position if and only if it was asked for and the file has it |
| FsNames.WriteIs | code/filesys/openfile.cc:146-186 | WriteAt replaces byte p of the file if and only if it was given; no other byte of any file changes |
| FsNames.WrittenIsRead | code/filesys/openfile.cc:116-186 | what was written through one handle is read back through any handle of that file |
| FsClients.Session.constructor | code/filesys/filesys.cc:80-143 | a formatted disk is the start of a run: no files, none open |
| FsClients.Session.Create | code/filesys/filesys.cc:174-215 | with any number of files open: one Create step on the sectors and on the map from names to bytes, and every open file stays usable |
| FsClients.Session.Remove | code/filesys/filesys.cc:257-288 | one Remove step on both; exactly the open files of that name are given up |
| FsClients.Session.Open | code/filesys/filesys.cc:227-241 | one Open step on both; the new open file refers to the named bytes |
| FsClients.Session.ReadAt | code/filesys/openfile.cc:117-144 | the bytes are that slice of the named byte sequence; nothing changes |
| FsClients.Session.WriteAt | code/filesys/openfile.cc:146-186 | one WriteAt step on both; every open file, of the same name or another, stays usable |
| FsClients.Serve | code/filesys/filesys.cc:174-288 | a request is served exactly when it is possible, by the operation asked for |
| FsClients.Execute | code/filesys/filesys.cc:80-288 | for every sequence of requests to the objects the states they go through are a run of exactly the operations asked for, so that all that is proved of runs holds of the code |
| Lists.InsertAdds | code/threads/list.cc:184-208 | SortedInsert adds one entry and loses none |
| Lists.InsertSorted | code/threads/list.cc:184-208 | it keeps a sorted list sorted |
| Lists.InsertPosOrder | code/threads/list.cc:184-208 | the new entry comes after all entries with the same key |
| Lists.List.constructor | code/threads/list.cc:43-47 | a new list is empty |
| Lists.List.IsEmpty | code/threads/list.cc:160-167 | true if and only if the represented sequence is empty |
| Lists.List.Append | code/threads/list.cc:77-90 | the represented sequence grows at its end; the count goes up |
| Lists.List.Prepend | code/threads/list.cc:106-119 | the represented sequence grows at its front; the count goes up |
| Lists.List.Remove | code/threads/list.cc:129-134 | the first item is removed and returned; the count goes down even if there was none |
| Lists.List.SortedInsert | code/threads/list.cc:184-208 | pointer updates in all four cases realise insertion before the first greater key; the count stays |
| Lists.List.SortedRemove | code/threads/list.cc:223-243 | the first entry is removed and returned with its key; the count stays |
| ThreadLists.FilteredDrops | code/threads/thread.cc:164-171 | what Finish leaves of the active list is every thread but the current one, each exactly once |
| ThreadLists.LeaveActive | code/threads/thread.cc:164-171 | although the bound of the loop shrinks while it goes on, exactly the current thread is removed; the others keep their order except that the last one moves to the front; the count stays the length |
| ThreadLists.FoundIffPresent | code/userprog/exception.cc:65-84 | a thread is found if and only if one with that ID is on the list, and it is the last such one |
| ThreadLists.GetID | code/userprog/exception.cc:65-84 | the full rotation leaves the list in its original order |
| ThreadLists.FilteredOrder | code/threads/thread.cc:164-171 | those before the current thread move up behind the last, and those after it stay where they are |
| EventClocks.FiringReducesDue | code/machine/interrupt.cc:165-171 | every handler call leaves fewer interrupts due, whatever the handler schedules: the loop of OneTick ends |
| EventClocks.NothingDue | code/machine/interrupt.cc:290-336 | when CheckIfDue fires nothing, nothing is due, or an idle machine has only its timer |
| EventClocks.FireDueSound | code/machine/interrupt.cc:165-171 | the loop keeps the invariant |
| EventClocks.FireDueEnds | code/machine/interrupt.cc:165-171 | when the loop ends nothing is due, or an idle machine has only its timer |
| EventClocks.ScheduleSound | code/machine/interrupt.cc:264-275 | Schedule keeps the invariant of list, log and firings |
| EventClocks.CheckIfDueSound | code/machine/interrupt.cc:290-336 | so does every branch of CheckIfDue |
| EventClocks.OneTickSound | code/machine/interrupt.cc:150-179 | after a tick every pending interrupt lies strictly in the future |
| EventClocks.IdleSound | code/machine/interrupt.cc:210-234 | after idling no pending interrupt is overdue |
| EventClocks.RunSound | code/machine/interrupt.cc:150-336 | the invariant holds after every sequence of ticks, idling and device requests, whatever the handlers do |
| EventClocks.PendingOrFiredOnce | code/machine/interrupt.cc:264-336 | in every run each scheduled interrupt is pending once or has fired once, not both |
| EventClocks.FiredInOrderAndOnTime | code/machine/interrupt.cc:150-336 | in every run due times of fired interrupts do not decrease, none fires early or more than a system tick late, and total = idle + system + user ticks |
| ClockSteps.CheckIfDueIff | code/machine/interrupt.cc:290-336 | an interrupt fires if and only if one is pending, it is due or the clock may be advanced to it, and it is not a lone timer of an idle machine; it is the first one, at the later of now and its time, and only idle time passes; otherwise nothing is lost |
| ClockSteps.IdleIff | code/machine/interrupt.cc:210-234 | the machine goes on if and only if something other than a lone timer is pending; then the first interrupt fires before all others, at the later of now and its time |
| ClockSteps.TickSpends | code/machine/interrupt.cc:150-179 | a tick adds ten to the total and to system time, or one to the total and to user time, and nothing to any other |
| ClockSteps.SwitchesIff | code/machine/interrupt.cc:172-178 | a tick ends with a context switch if and only if one of the handlers that it called has asked for it |
| ClockSteps.NoneOwed | code/machine/interrupt.cc:172-234 | in every run no context switch is owed between two events |
| ClockSteps.HandlerRequests | code/machine/interrupt.cc:264-275 | what a handler asks for when it is called is due as long after that time as it says |
| ClockSteps.RequestIsHonoured | code/machine/interrupt.cc:264-336 | in every run a device request for so many ticks later is pending, or has fired once, not before that time and at most a system tick after it |
| FiringOrder.GroupInsert | code/threads/list.cc:184-208 | a new interrupt comes behind all that have the same due time |
| FiringOrder.FireInTurnedOrder | code/machine/interrupt.cc:290-336 | from any moment of any run on, interrupts for one time fire in the order in which they stand then, turned by one for every look that found them first and not yet due |
| FiringOrder.FireAsScheduledIff | code/machine/interrupt.cc:290-336 | in every run interrupts for the same time that stand in the order of their requests fire in that order if and only if the number of looks at them is a multiple of their number |
| FiringOrder.SecondFiresFirst | code/machine/interrupt.cc:309-312 | a run of two requests for time 20 and two system ticks in which the second one fires first |
| Interrupts.Interrupt.constructor | code/machine/interrupt.cc:60-67 | interrupts start disabled, with none pending |
| Interrupts.Interrupt.Schedule | code/machine/interrupt.cc:264-275 | realises the abstract schedule on the linked list |
| Interrupts.Interrupt.CheckIfDue | code/machine/interrupt.cc:290-336 | realises the abstract step in every branch, with the exact condition for firing, and restores status and level |
| Interrupts.Interrupt.OneTick | code/machine/interrupt.cc:150-179 | realises the abstract tick, ends, and leaves interrupts enabled |
| Interrupts.Interrupt.SetLevel | code/machine/interrupt.cc:114-127 | time advances exactly when interrupts go from off to on |
| Interrupts.Interrupt.Idle | code/machine/interrupt.cc:210-234 | realises the abstract idling; the machine halts if and only if nothing or only the timer is pending, and otherwise the first pending interrupt fires next |
| Interrupts.Interrupt.Execute | code/machine/interrupt.cc:150-336 | any sequence of ticks, idling and requests on the object with its linked list ends where the abstract run of it does, so that all that is proved of those runs holds of the object |
| Threads.StepInvariant | code/threads/scheduler.cc:53-143 | every step by any thread or interrupt handler keeps the placement, counting and parent invariants |
| Threads.RunInvariant | code/threads/thread.cc:148-249 | they hold in every state of every run |
| Threads.OnePlace | code/threads/thread.cc:91-249 | in every run each started thread is in exactly one place: running, on the ready list, in one semaphore queue, in Join, or finished; no list holds it twice; a running thread is not joined |
| Threads.SemaphoreCounts | code/threads/synch.cc:64-98 | in every run value = initial + completed V - completed P; it is never negative if it did not start so; queued waiters and a positive value imply that many woken threads on their way; and none is left asleep beside a positive value when nothing is ready |
| Threads.ParentIsBlocked | code/userprog/exception.cc:236-277 | in every run the parent of a live child is blocked in Join, and for that child only |
| Threads.NeverDispatchedAgain | code/threads/thread.cc:148-175 | in every run a finished thread is never again running or ready |
| ThreadOrder.BoundedWaiting | code/threads/scheduler.cc:53-83 | in every run a thread on the ready list is passed by no more dispatches than there were threads in front of it or parents woken since |
| ThreadOrder.RoundRobin | code/threads/thread.cc:195-213 | in every run, while a thread that yielded waits for its next turn, every thread that was ready gets one |
| ThreadOrder.SleepsInOrder | code/threads/synch.cc:64-98 | in every run a thread at place p of a semaphore queue stays queued through the next p calls of V, moving up by one each time |
| ThreadOrder.WokenInOrder | code/threads/synch.cc:87-98 | the call of V after those makes it ready: waiters are woken in the order in which they went to sleep |
| ThreadOrder.ValueAfter | code/threads/synch.cc:64-98 | between any two moments of a run the value changes by the completed calls of V minus those of P, and it never becomes negative |
| ThreadOrder.WokenTakesIff | code/threads/synch.cc:69-74 | in every run a woken thread takes the semaphore when it next runs if and only if fewer calls of P completed since than there was value and calls of V to serve them; otherwise it is last in the queue again |
| ThreadOrder.OvertakenRun | code/threads/synch.cc:69-74 | a run from boot in which a woken thread finds the value taken and sleeps again |
| ThreadOrder.ValueFromNew | code/threads/synch.cc:36-98 | in every run the value is the one that the semaphore was made with, plus the completed calls of V and less those of P since; its queue starts empty |
| ThreadHistory.Roster | code/threads/thread.cc:91-175 | in every run the threads are the main one and those forked, finished are those that called Finish, and active are those forked onto the list that have not finished |
| ThreadHistory.JoinWaits | code/userprog/exception.cc:236-263 | in every run Join of an active child puts the caller to sleep for as long as the child does not finish and nobody takes its place |
| ThreadHistory.JoinReturns | code/threads/thread.cc:148-175 | then, when the child finishes, the caller is at the front of the ready list |
| ThreadHistory.JoinOfNobody | code/userprog/exception.cc:236-263 | Join of a thread that is not active changes nothing |
| ThreadHistory.ParentRunsNext | code/threads/scheduler.cc:69-83 | the thread that runs next after the child has finished is the one that waited for it |
| Joins.DeadlockForever | code/threads/thread.cc:148-175 | threads in Join that wait only for one another stay blocked in every continuation of the run |
| Joins.DeadlockedOrWoken | code/userprog/exception.cc:236-263 | there are such threads if and only if some thread in Join waits, through its chain of joins, for no live thread outside Join |
| Joins.SecondJoin | code/userprog/exception.cc:245-253 | joining a child that has a parent leaves the first parent waiting for nobody |
| Joins.CyclicJoin | code/userprog/exception.cc:245-253 | joining a child that waits, perhaps through others, for the joining thread closes a cycle; joining oneself is the shortest |
| Joins.DeadlocksIff | code/userprog/exception.cc:236-277 | a step brings about the first deadlock of joins if and only if it is one of these two |
| Joins.RunDeadlocksIff | code/userprog/exception.cc:236-277 | in a run some threads come to wait in Join only for one another if and only if one of its steps was one of these two |
| Joins.SecondJoinRun | code/userprog/exception.cc:245-253 | a run from boot in which two threads join the same child |
| Joins.MutualJoinRun | code/userprog/exception.cc:245-253 | a run from boot in which two threads join each other, neither of which had a parent |
| Wakeups.Flood | code/threads/synch.cc:87-98 | from every reachable state enough calls of V can empty the queue of a semaphore |
| Wakeups.CanRun | code/threads/thread.cc:195-249 | from every reachable state a live thread that is not in Join can get to run outside P, while nobody joins, finishes or is forked |
| Wakeups.FinishLast | code/threads/thread.cc:148-175 | the last thread of a chain of joins can finish, and the chain that is left is one shorter |
| Wakeups.WakeChain | code/threads/thread.cc:148-175 | so a whole chain can finish one after the other, until its first thread is woken |
| Wakeups.NotWoken | code/userprog/exception.cc:236-263 | a thread whose chain of joins ends in no live thread outside Join is one of those that wait only for one another |
| Wakeups.WokenIff | code/userprog/exception.cc:236-277 | from every state of every run: a thread in Join can still be woken by some continuation of the run if and only if its chain of joins ends in a live thread that is not in Join |
| Schedulers.Scheduler.constructor | code/threads/scheduler.cc:30-33 | empty lists, with the main thread running, represent the boot state of the protocol |
| Schedulers.Scheduler.ReadyToRun | code/threads/scheduler.cc:53-59 | the linked ready list grows at its end; the active list is not touched |
| Schedulers.Scheduler.FindNextToRun | code/threads/scheduler.cc:69-73 | the first thread leaves the linked list, or there is none |
| Schedulers.Scheduler.WakeUpFromJoin | code/threads/scheduler.cc:75-83 | the parent goes to the front of the linked ready list and is no longer joined |
| Schedulers.Scheduler.Wait | code/threads/thread.cc:234-249 | one look of Sleep at the ready list is the Dispatch step of the protocol, or the processor has to idle |
| Schedulers.Scheduler.Fork | code/threads/thread.cc:91-102 | the lists and tables then represent the Fork step |
| Schedulers.Scheduler.Yield | code/threads/thread.cc:195-213 | the lists and tables then represent the Yield step |
| Schedulers.Scheduler.Join | code/userprog/exception.cc:236-263 | the child is the active thread that the rotation of getID finds by its ID; the lists and tables then represent the Join step, or nothing happens |
| Schedulers.Unlisted | code/threads/thread.cc:164-171 | what the loop of Finish leaves of the active list lacks the address of the current thread and no other |
| Schedulers.Scheduler.Finish | code/threads/thread.cc:148-175 | through the loop over the active list, the lists and tables then represent the Finish step |
| Schedulers.Semaphore.constructor | code/threads/synch.cc:36-41 | a new semaphore has the given value and an empty queue of its own, and represents the NewSemaphore step |
| Schedulers.Semaphore.P | code/threads/synch.cc:64-77 | one pass of the loop on the linked queue represents the P step; says whether the semaphore was taken |
| Schedulers.Semaphore.V | code/threads/synch.cc:87-98 | moving the first waiter from the linked queue to the linked ready list represents the V step |
| KernelRuns.System.constructor | code/threads/scheduler.cc:30-33 | the scheduler without semaphores is the start of a run |
| KernelRuns.System.New | code/threads/synch.cc:36-41 | the run of the objects, which is a run of the protocol, goes on with the NewSemaphore step; all other semaphores stay valid |
| KernelRuns.System.Fork | code/threads/thread.cc:91-102 | it goes on with the Fork step, and all semaphores stay valid |
| KernelRuns.System.Yield | code/threads/thread.cc:195-213 | it goes on with the Yield step, and all semaphores stay valid |
| KernelRuns.System.Wait | code/threads/thread.cc:234-249 | it goes on with the Dispatch step, and all semaphores stay valid |
| KernelRuns.System.P | code/threads/synch.cc:64-77 | it goes on with the P step on one semaphore; all others, which share no list with it, stay valid |
| KernelRuns.System.V | code/threads/synch.cc:87-98 | it goes on with the V step on one semaphore; all others stay valid |
| KernelRuns.System.Join | code/userprog/exception.cc:236-263 | it goes on with the Join step for the active thread that has the ID; if there is none nothing happens |
| KernelRuns.System.Finish | code/threads/thread.cc:148-175 | it goes on with the Finish step, and all semaphores stay valid |
| KernelRuns.System.CanMake | code/threads/thread.cc:91-249 | whether a call can be made now is told from the objects exactly as from the state of the protocol |
| KernelRuns.System.Perform | code/threads/thread.cc:91-249 | any call is the one step of the protocol that it calls for, or nothing, exactly when it cannot be made or is a Join for an unknown ID |
| KernelRuns.Execute | code/threads/thread.cc:91-249 | for every sequence of calls on the scheduler and any number of semaphores, all on linked lists, the states they go through are a run of the protocol with a step for every call that can be made, and the invariant holds at the end |
| KernelRuns.Replay | code/threads/thread.cc:91-249 | every run of the protocol without Join can be carried out on the objects, state by state |
| Philosophers.StepInvariant | code/threads/threadtest.cc:126-188 | every step of every philosopher keeps the chopstick, barrier and meal invariants |
| Philosophers.ChopstickHeldOnce | code/threads/threadtest.cc:147-176 | for every N and every interleaving a chopstick flag is false if and only if exactly one philosopher holds it |
| Philosophers.NeighboursNeverEatTogether | code/threads/threadtest.cc:147-176 | for every N >= 2 and every interleaving philosophers i and (i + 1) mod N never eat at once, and who eats has both of its chopsticks |
| Philosophers.AllArriveFirst | code/threads/threadtest.cc:135-143 | nobody holds a chopstick before all have arrived, and no more meals are eaten than there are |
| Philosophers.DeadlockIff | code/threads/threadtest.cc:149-155 | in every reachable state nobody can go on if and only if all have left, or all hold the left chopstick and wait for the right one |
| Philosophers.DeadlockReached | code/threads/threadtest.cc:149-155 | three philosophers, switching only at yields but with one turn lost to a time slice, can get into that deadlock |
| Philosophers.EveryMealIsEaten | code/threads/threadtest.cc:144-188 | in every run the count of meals is the number of times that somebody began to eat, and nobody leaves before exactly as many have been eaten as there are |
| PhilosopherTurns.RunTurns | code/threads/threadtest.cc:147-176 | in every run of turns, who waits for a chopstick that lies on the table has had no turn since its owner put it down |
| PhilosopherTurns.NoDeadlock | code/threads/threadtest.cc:126-188 | for every N, if between two turns of one philosopher every other one gets a turn, nobody ever deadlocks: until all are gone somebody can go on |
| PhilosopherEnd.StepUses | code/threads/threadtest.cc:126-188 | every step by any philosopher brings a measure of what is left to do down |
| PhilosopherEnd.GetsTurn | code/threads/thread.cc:195-213 | as long as nothing changes, every philosopher who is not gone gets one of any N consecutive fair turns |
| PhilosopherEnd.Progress | code/threads/threadtest.cc:149-188 | in any six rounds of fair turns, in which nobody eats or thinks for more than five turns, something is used up |
| PhilosopherEnd.FairRunsEnd | code/threads/threadtest.cc:126-188 | for every N and every number of meals no such run is longer than a bound given outright |
| PhilosopherEnd.FairRunGoesOn | code/threads/threadtest.cc:126-188 | as long as somebody is left every such run can go on |
| PhilosopherEnd.AllGoHome | code/threads/threadtest.cc:126-188 | every such run is the beginning of one at whose end all philosophers have left and all meals are eaten |
| Multiply.AddWords | code/machine/mipssim.cc:665-668 | adding two double words through the carry test gives the exact sum |
| Multiply.DoubleWords | code/machine/mipssim.cc:672-676 | shifting a double word through the top bit test doubles it exactly |
| Multiply.NegateWords | code/machine/mipssim.cc:682-688 | complementing and incrementing a double word negates it modulo 2^64 |
| Multiply.UnsignedProduct | code/machine/mipssim.cc:659-678 | the loop computes the exact unsigned product, despite the early break and the arithmetic shift of a negative multiplier |
| Multiply.Mult | code/machine/mipssim.cc:635-692 | for all 32-bit operands, including the minimum integer, hi:lo is the exact 64-bit product, signed or unsigned as requested |
| Translation.PhysicalInjective | code/machine/translate.cc:186-255 | different virtual addresses have different physical addresses when no frame is mapped twice |
| Translation.WithinPage | code/machine/translate.cc:186-255 | an aligned access of 1, 2 or 4 bytes stays in its page and in memory, so its bytes are consecutive |
| Translation.LoadOfStore | code/machine/translate.cc:87-169 | loading what was stored gives the word, its low half zero-extended, or its low byte sign-extended |
| Translation.SpliceIsUpdate | code/machine/translate.cc:137-169 | a store changes exactly its own virtual bytes |
| Translation.ReadAfterWrite | code/machine/translate.cc:87-169 | after a write a read of the same place sees the bytes written |
| Translation.Machine.Translate | code/machine/translate.cc:186-255 | raises each exception exactly under its condition; otherwise gives the address in the frame of the page at the same offset and sets use and dirty bits; the bounds ASSERT holds |
| Translation.Machine.ReadMem | code/machine/translate.cc:87-122 | the value is the little-endian load from flat virtual memory |
| Translation.Machine.WriteMem | code/machine/translate.cc:137-169 | flat virtual memory changes in exactly the stored bytes, and so does physical memory; nothing changes if an exception is raised |
| Translation.CheckRaises | code/machine/translate.cc:186-255 | for each exception the exact condition under which an access raises it; a page fault if and only if the access is aligned and its page is in the table and not in memory |
| Translation.StoredDigit | code/machine/translate.cc:137-169 | byte k of a store is digit k of the value in base 256 |
| Translation.LoadOfPart | code/machine/translate.cc:87-169 | a load of a part of what was stored gives that byte or half of the value |
| Translation.ReadPartAfterWrite | code/machine/translate.cc:87-169 | after a write a read of any size inside the written bytes sees that part of them |
| Frames.EvictionFindsPage | code/userprog/addrspace.cc:231-255 | when memory is full every victim, by queue or by chance, is owned, and Swapout finds its page |
| Frames.CreateSound | code/userprog/addrspace.cc:126-143 | a new address space has the given number of pages, none of them in memory, touches no other one and keeps the ownership invariant |
| Frames.FaultSound | code/userprog/addrspace.cc:228-270 | a page fault, with or without eviction, keeps it and maps the page |
| Frames.ExitSound | code/userprog/addrspace.cc:358-373 | deleting an address space frees exactly the frames it owned and touches no other space |
| Frames.RunSound | code/userprog/addrspace.cc:126-373 | in every state of every run a frame is marked if and only if exactly one page of one live space maps it, and the inverted table names its thread |
| Frames.NeverSwappedIn | code/userprog/addrspace.cc:457-516 | in every run no page is marked as swapped, so a fault never reads one back through Swapin |
| Frames.VictimFrom | code/userprog/addrspace.cc:231-246 | the victim is the head of the queue under FIFO, and the random number modulo the number of frames otherwise |
| Frames.AnyFrameCanGo | code/userprog/addrspace.cc:240-246 | under random replacement every frame is the victim for some random number |
| Frames.FaultTakes | code/userprog/addrspace.cc:228-270 | a fault takes the first clear frame and touches no other page, or, if there is none, gives up exactly the page in the victim |
| FifoOrder.QueueIsRecent | code/userprog/addrspace.cc:228-264 | in every FIFO run the queue is the end of the history of loads |
| FifoOrder.EvictsOldestIff | code/userprog/addrspace.cc:233-239 | in every FIFO run a fault that finds memory full evicts the frame whose last load is the oldest if and only if every other frame is in the queue after the last entry for the one at its head |
| FifoOrder.QueueIsExact | code/userprog/addrspace.cc:228-264 | in every FIFO run without exits the queue holds every frame in use exactly once |
| FifoOrder.FifoWithoutExits | code/userprog/addrspace.cc:233-239 | so there every eviction takes the frame whose last load is the oldest |
| FifoOrder.StaleQueueReachable | code/userprog/addrspace.cc:358-373 | a run from boot after which the queue still holds an entry from an address space that has exited |
| FifoOrder.StaleQueueEvictsNewest | code/userprog/addrspace.cc:233-239 | in that state the next fault evicts the page loaded last |
| Paging.AddrSpace.constructor | code/userprog/addrspace.cc:126-143 | no page of a new table is in memory |
| Paging.AddrSpace.Swapout | code/userprog/addrspace.cc:483-516 | exactly the page in the given frame is given up |
| Paging.Pager.PageFault | code/userprog/addrspace.cc:213-270 | the fault on objects realises the abstract fault and keeps the ownership invariant |
| Paging.Pager.Evict | code/userprog/addrspace.cc:231-255 | the victim is the head of the linked queue or the random frame, and its owner gives it up |
| Paging.Pager.NewSpace | code/userprog/addrspace.cc:126-143 | realises the abstract creation |
| Paging.Pager.Delete | code/userprog/addrspace.cc:358-373 | the clearing loop realises the abstract exit |
| Paging.Execute | code/userprog/addrspace.cc:126-373 | for every sequence of creations, faults and exits the states that the objects go through are a run of exactly those events that are possible, and the ownership invariant holds at the end |
| Isolation.SpaceIsInjective | code/machine/translate.cc:186-255 | every address space of a sound system meets the assumption of the translation results: no frame twice, all in memory |
| Isolation.NoSharedFrame | code/userprog/addrspace.cc:228-270 | valid pages of different address spaces are in different frames |
| Isolation.StoreIsPrivate | code/machine/translate.cc:137-169 | a store by one process changes no byte that another one can address |
| Isolation.FaultsWhenPossible | code/userprog/exception.cc:347-352 | an aligned access of a process raises a page fault if and only if a fault on that page is an event that the kernel can handle |
| Isolation.FaultIsCured | code/userprog/exception.cc:347-352 | after the fault was handled the same access goes through, unless it writes to a read-only page |
| DiskTiming.CompletesPastSector | code/machine/disk.cc:232-253 | an unbuffered request completes on a sector boundary with the requested sector as the last one past the head |
| DiskTiming.LatencyBounds | code/machine/disk.cc:232-253 | every latency is at least RotationTime and below (SectorsPerTrack + NumTracks) * RotationTime, and the buffer is never slower |
| DiskTiming.BufferHasSector | code/machine/disk.cc:239-246 | the track buffer serves a read if and only if the head stays on the track and the sector has passed completely under it since the buffer was started |
| DiskTiming.RequestSettles | code/machine/disk.cc:115-153 | a request keeps the buffer start on a sector boundary not in the future of its completion |
| DiskTiming.RunSettles | code/machine/disk.cc:115-271 | so it is after every run of requests |
| DiskTiming.Disk.TimeToSeek | code/machine/disk.cc:179-194 | the number of tracks crossed times SeekTime, and the time to the next sector boundary |
| DiskTiming.Disk.ComputeLatency | code/machine/disk.cc:232-253 | the latency to which the bounds apply |
| DiskTiming.Disk.UpdateLast | code/machine/disk.cc:261-271 | the buffer is restarted exactly when the head moves to another track |
| DiskTiming.Disk.HandleInterrupt | code/machine/disk.cc:161-166 | the disk is ready for the next request |
| DiskTiming.Disk.StartRequest | code/machine/disk.cc:129-132 | the state between requests is kept, and one disk interrupt is scheduled for the time of completion |
| DiskTiming.Disk.ReadRequest | code/machine/disk.cc:115-133 | so for a read; the sector arrives in the buffer |
| DiskTiming.Disk.WriteRequest | code/machine/disk.cc:135-153 | so for a write; exactly that sector of the disk changes |
| DiskTiming.CrossOne | code/machine/disk.cc:179-194 | a seek to the same track takes no time and one to a neighbouring track takes SeekTime |
| DiskTiming.CrossAdds | code/machine/disk.cc:179-194 | a seek takes the sum of the seeks to and from any track on the way |
| DiskTiming.LatencyByTracks | code/machine/disk.cc:232-253 | an unbuffered request takes at least tracks * SeekTime + RotationTime, and less than a turn and one sector more; a buffered one takes RotationTime |
| DiskTiming.BufferRestarts | code/machine/disk.cc:261-271 | the buffer goes on while the head stays on its track, and otherwise starts at the first sector boundary after the seek |

## Left out

- FsRuns.RunRefines: runs consist of Create, Remove, Open, ReadAt and WriteAt with handles of files that have not been removed; Read, Write and Seek are ReadAt and WriteAt plus a move of the position, which `OpenFiles.OpenFile.Read`, `OpenFiles.OpenFile.Write` and `Streams` cover.
- OpenFiles.OpenFile.ReadAt: positions are non-negative and sums of position and length are unbounded integers, so signed overflow of `position + numBytes` is not modelled.
- Directories.Directory.WriteBack: the padding bytes of an entry are written as zero; in the code they are arbitrary, and nothing reads them.
- SynchDisks.SynchDisk.ReadSector: the wait for the completion interrupt is part of one atomic step; the lock around it does nothing in the code.
- Threads.Kernel: the processor idles between the two halves of Sleep, where an interrupt handler may call V at any time; semaphores are not deleted.
- Schedulers.Semaphore.P: one pass of the loop is one call, because the thread sleeps in between; Schedulers.Scheduler.Wait is one look at the ready list, and the idling between two looks is `Interrupts.Interrupt.Idle`.
- Philosophers.Step: how long a philosopher eats or thinks is arbitrary; `PhilosopherEnd` takes it to be at most five turns, which the code draws at random.
- KernelRuns.Replay: runs with Join are left out, because which child a Join is for depends on the IDs, which the protocol does not have.
- Interrupts.Interrupt.OneTick: the context switch after the handlers is reported, not made; what handlers schedule is a parameter of the run.
- Frames.Fault: the contents of pages, the swap file, the dirty bit and the page locks are not modelled, `swapped` starts out false (then it stays false and Swapin is never reached), and a policy other than FIFO or random, for which the code stops, is excluded.
- Paging.Pager.PageFault: the page locks are left out; a fault is one atomic step.
- FileHeaders.FileHeader.Allocate: sizes that do not fit the header's table although there are enough clear sectors are excluded; so for FileSystems.FileSystem.Create and FsClients.Session.Create.
- FileSystems.FileSystem.Create: sizes as for Allocate; negative ones are excluded too.
- FsClients.Session.Create: sizes as for Allocate; FsClients.Serve passes over sizes above `MaxFileSize`.
- FileSystems.FileSystem.Mount: the headers of the free map and of the directory are required to be those of a formatted disk.
- DiskTiming.Disk.HandleInterrupt: the call of the kernel's handler is left out; that it comes when the interrupt fires is a matter of the script of the run.
- Lists.List: `next` is taken to be a field of the element, as list.cc uses it.
- The TLB path of `Translate`, which nothing in this kernel fills.
- The rest of the MIPS interpreter, the disassembler and the COFF tools: many shallow branches.
- `Lock` and `Condition`, which are empty; `SynchList`, the network and the post office, which depend on them.
- `SWITCH`, stacks, saved registers, the console, timer randomness and host files.
- Exec, system call plumbing, printing, listing and statistics.
- `PhiloSema`, `RockBand` and the zombie and shouting demonstrations.
