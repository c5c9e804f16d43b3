# Verified models of the file system and the threading protocol

Three parts of the repository are modelled in Dafny and proved correct.

**Coffee** (`access_control/sfs/cfs/cfs-coffee.c`), a file system for flash that is erased
a sector at a time. A write can only set bits, seen through the inverting driver. Files are
runs of pages; overwrites go to a log beside the file.

| files | what they hold |
|---|---|
| `Arithmetic`, `Flash`, `Header` | the device, its symbolic geometry, and headers as bytes |
| `Layout`, `Collect`, `Straddle`, `Pass`, `Search`, `Allocation` | page layouts: the quick-skip scan, the garbage collector, the first-fit search, and the allocator as a function |
| `Pages`, `Disk`, `Volume` | from bytes to layouts and live extents; allocator and collector as code |
| `MicroLog`, `FileState`, `FileSteps`, `FileTouch`, `FileLog`, `FileRemoval`, `FileMerge`, `FileWrite` | logs, cached files and descriptors as values, and what each step does to them |
| `FileLoop`, `FileFate` | the loop of a logged write, and how it will end |
| `Coffee` | the file operations as code |
| `Reclaim` | removing a file and making another: what a pass is for |
| `FlatFiles`, `FlatViews`, `Session` | flat files by name, how the file layer stands for them, and whole runs |
| `Overrun`, `Witness` | what a seek behind an extent gives away, and two runs on a small device |

A file is its extent with the newest records of its log over it. Everything rests on one
invariant of the tables and the disk, `FileStates.Ok`, and on two relations: `SameViews`
(no descriptor notices) and `Wrote` (these bytes were written at this descriptor, and
nothing else changed for anybody, on the flash included). The main result is
`Sessions.RunFormatted`: from a formatted device, any run of opening, closing, reading,
writing, seeking and removing behaves like a map from names to byte sequences, as long as
no request is refused and up to a seek beyond an extent. `FlatFiles.Step` is that map's
semantics. It leaves three things open: when a closed file drops out of the cache; when a
log is merged, which decides what an extent keeps; and what a seek finds behind the end of
a file that was not blank there. A file that has to be looked up again is exactly what its
extent kept, and it is not found only while every slot of the cache has an open file
(`FlatFiles.Crowded`). A run without a
refusal is one in which no extent, slot or descriptor ran short (`Coffee.shortages`) and no
request was withheld because its collection would have stranded the allocator
(`Coffee.strandings`); the two are counted apart.

When a request for pages is refused is exact on every device: there is no run behind the
hint, and a pass is not worth a try or leaves none either (`Allocations.Starved`). A removal
makes a pass worth a try again, so making a file after it succeeds exactly if there is room
behind the hint or after a pass (`Reclaims.RemoveThenCreate`). A write that falls short leaves
a file whose next extent or log is denied (`CoffeeFiles.Coffee.Denied`), so that the same
request would be refused again (`CoffeeFiles.DeniedAgain`).

On one-sector devices every refusal of a write can be foretold: `WriteFates.FateOf` computes from the
state before a logged write whether it will be refused, complete, cut short, or end with a
spoiled byte, and `CoffeeFiles.Coffee.CfsWrite` is proved to do just that.

**The threading protocol** (`control_flow/`): a scheduler with a fixed pool of thread
control blocks, and the entry and exit stubs of protected modules.

| files | what they hold |
|---|---|
| `Scheduling`, `Scheduler` | the FIFO on values, and the linked lists that realise it |
| `Protocol` | modules, scheduler and everybody else as one transition system |
| `Stubs` | the stubs as code over a private stack of frames and over the scheduler's lists |
| `StubCode` | the exit stub instruction by instruction, over registers and words |
| `Arrival` | what every jump leads to, and what that means over whole runs |

Modules without stubs, and all unprotected code, may jump to any entry with any registers.
The invariant `Protocols.Inv` says that the open frames of a module belong to one thread
and that a suspended thread finds its module waiting for it. `Arrivals` says without reference
to the stubs what a jump leads to: every activation of a module starts at an entry it has,
on behalf of whom it will return to (`Arrivals.LegalActivations`), and whatever arrives at
the scheduler is one event of the FIFO, so that a waiting thread gets its turn after as many
decisions as there are threads before it (`Arrivals.WaitsItsTurn`).

**The access-control front end** (`access_control/sfs/sfs-ram.c`): two pools of linked
records and a cache of descriptors in front of a file system.

| files | what they hold |
|---|---|
| `AccessControl` | the front end as a map from files and modules to permissions, and what holds over runs |
| `PermissionPools`, `PermissionSteps`, `FileRemovalSteps` | the pools and their lists as values, and each change to them |
| `Sfs` | the calls as code, each refining the map |
| `CallEffect` | what every call asks of the back end, answers and changes |
| `Secure` | the front end with flat files behind it |

With flat files behind it (`SecureFiles`), a character put at an offset is what is read there
afterwards (`SecureFiles.PutSeekGet`), and over any run a file is what it was unless somebody
who was granted it wrote, stretched, opened or removed it (`SecureFiles.RunUntouched`).

## What does not hold as written

- A greedy pass can strand the allocator. Whenever it is unsafe, the next search can use
  the page at the new hint, and an extent put there is found by no scan
  (`Allocations.UnsafePassStrands`, for every layout; `Collecting.HintStaysReachable` is the
  exact condition on the old layout; `Straddling.UnsafePassLosesFile` follows a file until
  it is erased).
- `cfs_seek` compares with the extent size without the header. Behind such a seek other
  descriptors on the file read bytes of the page behind the extent, exactly if the read
  reaches so far (`SeekOverruns.SeekThenRead`); `Witnesses.LeakRun` reads another file's
  name that way. No other seek does this (`SeekOverruns.OwnBytesOnly`), and the file layer
  stays in order exactly without such a seek (`FileSteps.SoughtOk`).
- A closed file that drops out of the cache gets its size back from its extent alone, so it
  loses trailing zeros, and also trailing bytes that only its log has
  (`FlatViews.ReloadedExactly`; only zeros are lost without a log).
- `cfs_open` without flags counts a reference that no close takes back
  (`FileSteps.OpenedExactly`).
- The search for the next log record does not stop at a hit (`MicroLogs.NextRecordExact`).
- When a request is refused in the middle of a growing write, after the log was merged, the
  dummy end marker replaces the last byte written, and the call reports the whole size even
  though less was written (`WriteLoops.WriteOutcome`). That cannot happen to a write that
  does not grow the file, appends without a log, or fits into one log
  (`WriteLoops.Unharmed`); otherwise it depends on the room behind the hint
  (`WriteFates.FateOf`), and it does happen (`Witnesses.HarmedRun`).
- `start_scheduling` without a thread leaves the scheduler running nobody
  (`Scheduling.StartWithNobody`).
- A busy return on behalf of a thread that runs on after a yield, or a portal registered with
  the return mark as its entry, makes the scheduler resume a module that does not wait for
  that thread (`Protocols.SpuriousBusyMixesThreads`, from the start of the system;
  `Protocols.SchedulerKeepsExactly`).
- A call that finds a busy callee is repeated without its arguments
  (`StubCode.ModuleCode.CallAndRetry`), and once there is a scheduler the question for the
  current thread costs every call of a module the argument registers r12 to r14
  (`StubCode.ModuleCode.AskThread`).
- `SFS_CREATOR`, documented as non-assignable, can be handed out by `sfs_chmod`
  (`AccessControl.CreatorCanBeGiven`; `AccessControl.GivesCreator` is the exact guard).
- Where plain `char` has a sign, reading or writing 0xff is answered like a failure
  (`AccessControl.AnswersApart`).
- The comment at `control_flow/sched/scheduler.c:68` lists the states of queued threads
  without BUSY, which `busy_get_next` enqueues; the model follows the code.

## Model

| member | source | states |
|---|---|---|
| FlashDevice.Flash.Read | access_control/sfs/cfs/flash_driver.c:101-124 | a read gives the inverted cells: an erased byte reads as zero |
| FlashDevice.Flash.Program | access_control/sfs/cfs/flash_driver.c:165-196 | programming the inverted bytes onto cells that only go from one to zero is, for the reader, a bitwise OR into the addressed range and nothing else |
| FlashDevice.Flash.EraseSector | access_control/sfs/cfs/flash_driver.c:83-98 | erasing makes exactly one sector read as zero |
| FlashDevice.OrIntoBlank | access_control/sfs/cfs/flash_driver.c:165-196 | over a blank range OR-programming is plain writing; the other bytes stay |
| Headers.HeaderRoundTrip | access_control/sfs/cfs/cfs-coffee.c:210-218 | decoding the 16-bit little-endian layout of an encoded header gives the header back |
| Headers.LittleEndian | access_control/sfs/cfs/cfs-coffee.c:210-218 | the lower byte of a field comes first |
| Headers.HeaderOr | access_control/sfs/cfs/cfs-coffee.c:245-250 | programming a header over another that agrees with it or is zero in each field yields the new fields and the union of the flags |
| Pages.IsolationWins | access_control/sfs/cfs/cfs-coffee.c:370-386 | an isolation header OR-ed over whatever stale data a page holds makes the page read as isolated |
| Layouts.NoPositionInside | access_control/sfs/cfs/cfs-coffee.c:433-451 | the quick-skip scan never lands inside an extent it passes |
| Layouts.LiveDisjoint | access_control/sfs/cfs/cfs-coffee.c:433-451 | two extents that the scan finds do not overlap |
| Layouts.FreeTail | access_control/sfs/cfs/cfs-coffee.c:560-593 | when a scan position is free, the rest of its sector is blank |
| Layouts.ReserveKeeps | access_control/sfs/cfs/cfs-coffee.c:651-691 | reserving an eligible run keeps the layout scannable |
| Layouts.ReserveLive | access_control/sfs/cfs/cfs-coffee.c:651-691 | after a reservation the scan finds the new extent and all the old ones, and nothing else |
| Collecting.PassKeepsExtents | access_control/sfs/cfs/cfs-coffee.c:388-430 | after one greedy pass over any scannable layout the layout is scannable and a scan from page 0 finds exactly the active extents it found before, as long as they were |
| Collecting.ActivePagesUntouched | access_control/sfs/cfs/cfs-coffee.c:401-428 | no page of an active extent is erased or isolated by a pass |
| Collecting.HintStaysReachable | access_control/sfs/cfs/cfs-coffee.c:411-422 | the hint after a pass, the lowest erased sector or the old hint, is still a scan position exactly when the lowest erased sector starts at a scan position or the hint lay below it |
| Collecting.HintFindsNoActive | access_control/sfs/cfs/cfs-coffee.c:413-416 | even from the hint of an unsafe pass no page of an active extent is ever found free |
| Collecting.HintMovesExactly | access_control/sfs/cfs/cfs-coffee.c:411-422 | the hint moves only down to a sector without active and with obsolete pages, and below every other such sector |
| Collecting.PassReclaims | access_control/sfs/cfs/cfs-coffee.c:405-422 | after a pass every page of such a sector is blank |
| Allocations.PlacedIsLive | access_control/sfs/cfs/cfs-coffee.c:651-691 | of all the runs a search from the hint can return, those and only those at scan positions hold a new extent that the scan finds |
| Allocations.UnsafePassStrands | access_control/sfs/cfs/cfs-coffee.c:401-428 | after every unsafe pass over any layout the page at the hint is eligible, and an extent put there is not found |
| Collecting.PassKeepsNoFreeBelow | access_control/sfs/cfs/cfs-coffee.c:413-416 | after a safe pass no reachable free page lies below the hint |
| Straddling.UnsafePassLosesFile | access_control/sfs/cfs/cfs-coffee.c:401-428 | a layout in which an obsolete extent starts in a kept sector and ends in an erased one: a later reservation in that sector is invisible to the scan, and the next pass erases it |
| Passes.WalkStep | access_control/sfs/cfs/cfs-coffee.c:318-335 | one turn of the classifier's loop accounts for one whole extent or isolated page |
| Passes.StatsDecide | access_control/sfs/cfs/cfs-coffee.c:407-412 | the counts of the classifier decide exactly which sectors are erasable |
| Passes.SweptErase | access_control/sfs/cfs/cfs-coffee.c:413-422 | isolating the tail of the spilling extent and erasing the sector is one sector's share of the pass |
| Searching.SearchFree | access_control/sfs/cfs/cfs-coffee.c:565-583 | one turn of the search at a free page: the run is long enough, keeps growing, or there is none |
| Searching.HintMissesNothing | access_control/sfs/cfs/cfs-coffee.c:563-593 | a search from the hint misses no run that a search from page 0 would find |
| Disks.ReserveDisk | access_control/sfs/cfs/cfs-coffee.c:678-682 | writing the header of a found run adds one blank extent to the disk and leaves all others byte for byte |
| Disks.HeaderDisk | access_control/sfs/cfs/cfs-coffee.c:614-615 | rewriting a live header changes that extent only, and removes it from the disk when it is marked obsolete |
| Disks.CollectDisk | access_control/sfs/cfs/cfs-coffee.c:388-430 | a pass leaves the bytes of every live extent as they were |
| Volumes.Volume.GetSectorStatus | access_control/sfs/cfs/cfs-coffee.c:269-367 | called sector by sector from 0, the counts equal a page-by-page count of the layout and sum to the sector size, the static state is exactly the spill into later sectors, and the result is how much of it to isolate |
| Volumes.Volume.IsolatePages | access_control/sfs/cfs/cfs-coffee.c:369-386 | exactly the given pages become isolated |
| Volumes.Volume.CollectGarbage | access_control/sfs/cfs/cfs-coffee.c:388-430 | a pass turns the layout into its collected form, moves the hint accordingly and keeps the bytes of every active page |
| Volumes.Volume.FindContiguousPages | access_control/sfs/cfs/cfs-coffee.c:559-593 | the result is the lowest eligible run from the hint on; no result means there is none; the hint moves past the run if that starts at it |
| Volumes.Volume.Reserve | access_control/sfs/cfs/cfs-coffee.c:651-682 | the lowest run behind the hint if there is one; otherwise, unless a pass is not worth a try, the lowest run behind the new hint in the collected layout; refused exactly if there is none there either or no pass was tried, and then a pass is not worth a try any more; no byte of an active extent is lost; unless the pass was unsafe the disk gains exactly one blank extent that was nobody's |
| Allocations.ServedAnswers | access_control/sfs/cfs/cfs-coffee.c:651-682 | search, pass and second search as a function answer with the lowest run of the layout as it is or as it is after a pass, and with none exactly if there is none in both or no pass was tried |
| Allocations.RefusedStalls | access_control/sfs/cfs/cfs-coffee.c:651-676 | after a refusal there is no room behind the hint and a pass is not worth a try |
| Allocations.StaysStalled | access_control/sfs/cfs/cfs-coffee.c:1248-1256 | and programming inside an extent does not change that |
| Allocations.EmptiedServes | access_control/sfs/cfs/cfs-coffee.c:651-682 | with no live extent left and a pass worth a try, every request smaller than the device is served, and safely |
| Volumes.Volume.RewriteHeader | access_control/sfs/cfs/cfs-coffee.c:244-250 | a live header is merged with the new one; marked obsolete, the extent is gone |
| Volumes.Volume.ScanFor | access_control/sfs/cfs/cfs-coffee.c:511-523 | the scan finds the first live file of this name, or there is none on the disk |
| Volumes.Volume.Program | access_control/sfs/cfs/cfs-coffee.c:1265-1266 | programming inside a live extent changes that extent by OR and no other |
| MicroLogs.PageCountIsCeiling | access_control/sfs/cfs/cfs-coffee.c:644-649 | the page count is the exact ceiling: header and data fit, in one page less they would not |
| MicroLogs.RecordsFillLog | access_control/sfs/cfs/cfs-coffee.c:798-821 | the log is as large as its table and its records, which lie behind the table up to its end |
| MicroLogs.ReadRegion | access_control/sfs/cfs/cfs-coffee.c:768-796 | inside one region the content is one run of bytes: of the newest record, or of the extent |
| MicroLogs.AppendedByte | access_control/sfs/cfs/cfs-coffee.c:981-1006 | after a record was appended its region reads as the record and every other byte as before |
| MicroLogs.AppendedClean | access_control/sfs/cfs/cfs-coffee.c:981-1006 | appending a record uses the next free table entry and leaves the rest of the log blank |
| MicroLogs.NewestUsed | access_control/sfs/cfs/cfs-coffee.c:780-784 | searching only the records in use finds the same record |
| MicroLogs.NextRecordExact | access_control/sfs/cfs/cfs-coffee.c:897-935 | the search for the next record, which goes on after a hit, is right exactly when the table fits in one batch or the record lies in the last one |
| FileStates.OpenCountUpdate | access_control/sfs/cfs/cfs-coffee.c:1056-1070 | how the number of descriptors on a slot changes when one is rewritten |
| FileSteps.LoadedOk | access_control/sfs/cfs/cfs-coffee.c:453-493 | taking over a free or unreferenced slot for an uncached file keeps every table in order, and no descriptor notices |
| FileSteps.FreeUnreferenced | access_control/sfs/cfs/cfs-coffee.c:465-482 | a slot that may be taken has no references, so none in use is ever evicted |
| FileSteps.DefaultConfig | access_control/sfs/cfs/cfs-coffee.c:694-703 | the default log configuration suits every file on the device |
| FileSteps.OpenedOk | access_control/sfs/cfs/cfs-coffee.c:1056-1059 | opening counts one reference more and changes nobody else's view |
| FileSteps.ClosedOk | access_control/sfs/cfs/cfs-coffee.c:1063-1071 | closing counts one less and changes nobody else's view |
| FileSteps.ReservedOk | access_control/sfs/cfs/cfs-coffee.c:651-691 | a reserved file is empty, new, and unnoticed by every descriptor |
| FileSteps.SoughtOk | access_control/sfs/cfs/cfs-coffee.c:1094-1103 | a seek keeps the file layer in order exactly when the offset leaves room for the header |
| SeekOverruns.SoughtReadable | access_control/sfs/cfs/cfs-coffee.c:1094-1103 | after any seek that is accepted every descriptor on the file can be read: inside the extent, or at most one header behind it |
| SeekOverruns.SeekThenRead | access_control/sfs/cfs/cfs-coffee.c:1094-1146 | a read after a seek gives the bytes of the extent followed by those of the page behind it, and reaches the latter exactly if the seek went behind the extent through another descriptor and the read asks for so much |
| SeekOverruns.OwnBytesOnly | access_control/sfs/cfs/cfs-coffee.c:1094-1170 | after a seek inside the extent the content of a file, with or without a log, is a function of its own two extents |
| Witnesses.LeakRun | access_control/sfs/cfs/cfs-coffee.c:1073-1146 | on a small device an empty file is read thirty-two bytes long, and the last byte is the name of another file |
| FileSteps.SoughtContent | access_control/sfs/cfs/cfs-coffee.c:1098-1101 | a seek behind the end grows the file with zeros |
| FileRemovals.RemovedOk | access_control/sfs/cfs/cfs-coffee.c:595-643 | removing a file and its log closes its descriptors and changes no other extent, table entry or view |
| FileTouches.TouchedOk | access_control/sfs/cfs/cfs-coffee.c:939-1010 | a change to one file and its log keeps every table in order and every view of another file |
| FileLogs.AppendDisk | access_control/sfs/cfs/cfs-coffee.c:981-1006 | appending a patched record: the file reads as before but for the new bytes, and only its log extent was written |
| FileLogs.OldRecordOf | access_control/sfs/cfs/cfs-coffee.c:966-973 | the newest record of a region, or the extent, is what the region reads as |
| FileLogs.PatchedOf | access_control/sfs/cfs/cfs-coffee.c:975-977 | the new bytes over the old record give the region's new content, as far as the file can reach |
| FileLogs.CreatedLogOk | access_control/sfs/cfs/cfs-coffee.c:798-821 | a file that is given an empty log reads as before |
| FileLogs.AppendedOk | access_control/sfs/cfs/cfs-coffee.c:939-1010 | a record written through the tables: invariant kept, only the file's own extents written |
| FileMerges.ReplacedOk | access_control/sfs/cfs/cfs-coffee.c:868-891 | with the copy in the place of the old file every descriptor of the old file has the copy open, at its offset, with the same content |
| FileMerges.MergedOk | access_control/sfs/cfs/cfs-coffee.c:825-894 | after a merge every offset below the end reads the same, the end and the log configuration are kept, every descriptor has moved, and the copy is blank behind its end |
| FileMerges.TakenOver | access_control/sfs/cfs/cfs-coffee.c:868-889 | moving the descriptors, removing the old file with its log and completing the copy's header add up to that replacement |
| FileWrites.WroteTrans | access_control/sfs/cfs/cfs-coffee.c:1217-1246 | two writes one after the other are one write of both |
| FileWrites.PlainWrote | access_control/sfs/cfs/cfs-coffee.c:1265-1281 | programming the blank part behind the end appends |
| FileWrites.RecordWrote | access_control/sfs/cfs/cfs-coffee.c:1233-1245 | a log record with the offset and the end moved behind it is a write at the offset |
| FileWrites.MarkedLogged | access_control/sfs/cfs/cfs-coffee.c:1248-1256 | the dummy end marker is invisible where the log has a record |
| FileWrites.MarkedPlain | access_control/sfs/cfs/cfs-coffee.c:1248-1256 | without a log the dummy end marker overwrites the last byte of the file |
| CoffeeFiles.Coffee.GetRecordIndex | access_control/sfs/cfs/cfs-coffee.c:723-765 | the batched backward search finds the newest record for a region |
| CoffeeFiles.Coffee.ReadLogPage | access_control/sfs/cfs/cfs-coffee.c:768-796 | the newest record's bytes, clipped to the region, or -1 if there is no record |
| CoffeeFiles.Coffee.CfsRead | access_control/sfs/cfs/cfs-coffee.c:1124-1180 | exactly the next bytes of the flat file, as many as asked for or left; for a file without a log whose end was moved behind its extent, the bytes of the device that follow; only the descriptor's offset changes |
| CoffeeFiles.Coffee.LoadFile | access_control/sfs/cfs/cfs-coffee.c:453-493 | the first free slot; without one the last unreferenced one; none exactly if every slot has an open file |
| CoffeeFiles.Coffee.FindFile | access_control/sfs/cfs/cfs-coffee.c:495-523 | the cached file of this name, or one loaded from the flash; no view changes |
| CoffeeFiles.Coffee.FileEnd | access_control/sfs/cfs/cfs-coffee.c:525-556 | one past the last byte of the extent that is not zero |
| CoffeeFiles.Coffee.Reserve | access_control/sfs/cfs/cfs-coffee.c:651-691 | a new blank extent with a slot exactly if there is room behind the hint or after a pass, a slot to be had, and the pass would not strand the allocator; otherwise a refusal that nobody notices, counted by its cause |
| CoffeeFiles.Coffee.Create | access_control/sfs/cfs/cfs-coffee.c:1041-1048 | a new file for a name without one, exactly if the pages and a slot for it can be had |
| CoffeeFiles.DeniedAgain | access_control/sfs/cfs/cfs-coffee.c:651-691 | a request that was denied is refused whenever it is made again: there is no room behind the hint and no pass to be tried, or no slot, or no descriptor |
| CoffeeFiles.Coffee.CfsOpen | access_control/sfs/cfs/cfs-coffee.c:1027-1061 | a fresh descriptor at 0 or at the end, exactly if one is free and the file can be found, or, unless it is opened for reading only, can be made; on the file of this name with the content it has, or on a new empty one; nobody else notices; short of pages only if there is no room behind the hint and a pass is not worth a try or leaves none |
| CoffeeFiles.Coffee.CfsClose | access_control/sfs/cfs/cfs-coffee.c:1063-1071 | the descriptor is closed, its file has one reference less, and no other view changes |
| CoffeeFiles.Coffee.CfsSeek | access_control/sfs/cfs/cfs-coffee.c:1073-1103 | the new offset, or -1 and no change; the invariant survives exactly when the offset leaves room for the header |
| CoffeeFiles.Coffee.RemoveByPage | access_control/sfs/cfs/cfs-coffee.c:595-643 | exactly the extent, its log if asked for, its slots and its descriptors go, the hint stays, and a pass is worth a try again |
| CoffeeFiles.Coffee.CfsRemove | access_control/sfs/cfs/cfs-coffee.c:1105-1122 | exactly if the file can be found, it and its log leave the disk, its descriptors are closed, a pass is worth a try again, and nothing else changes for anybody |
| Reclaims.RemoveThenCreate | access_control/sfs/cfs/cfs-coffee.c:595-691 | after a removal a file is made exactly if there is room behind the hint or after a pass, whatever was refused before; with nothing left on the device always, if it is large enough |
| CoffeeFiles.Coffee.CreateLog | access_control/sfs/cfs/cfs-coffee.c:798-821 | the file has an empty log of the right size and reads as before, exactly if pages and a slot for the log can be had; otherwise a refusal nobody notices |
| CoffeeFiles.Coffee.FindNextRecord | access_control/sfs/cfs/cfs-coffee.c:897-935 | the cached count, or what the batched search computes |
| CoffeeFiles.Coffee.ReadOldRecord | access_control/sfs/cfs/cfs-coffee.c:962-973 | the old content of the region to be patched |
| CoffeeFiles.Coffee.AppendRecord | access_control/sfs/cfs/cfs-coffee.c:956-1007 | one record, patched and appended: the file reads as before but for the new bytes |
| CoffeeFiles.Coffee.CopyFile | access_control/sfs/cfs/cfs-coffee.c:849-866 | the copying loop ends with the whole content in the fresh extent |
| CoffeeFiles.Coffee.MoveDescriptors | access_control/sfs/cfs/cfs-coffee.c:868-874 | every descriptor of the old file, and no other, refers to the copy, which counts them |
| CoffeeFiles.Coffee.MergeLog | access_control/sfs/cfs/cfs-coffee.c:824-894 | exactly if pages, a slot and a descriptor can be had, the merge preserves content, end, configuration and every descriptor, in an extent as large or twice as large; otherwise nobody notices |
| CoffeeFiles.Coffee.WriteLogPage | access_control/sfs/cfs/cfs-coffee.c:938-1010 | one record, or a merge of a full log, or a refusal exactly if the log or the merge cannot be had; never more than the region holds |
| CoffeeFiles.Coffee.ExtendFile | access_control/sfs/cfs/cfs-coffee.c:1201-1216 | doubling ends, with room for the request that half the pages would not give, and changes no content; it gives up only while the request does not fit and pages, slot or descriptor for an extent twice as large are denied |
| CoffeeFiles.Coffee.WriteStep | access_control/sfs/cfs/cfs-coffee.c:1217-1246 | one turn of the writing loop: bytes written and offset moved, or a merge, or a refusal that leaves the log alone and a file whose next record is denied |
| CoffeeFiles.Coffee.MarkEnd | access_control/sfs/cfs/cfs-coffee.c:1248-1256 | the dummy end marker changes nothing for a file with a log and the last byte otherwise |
| CoffeeFiles.Coffee.WriteLogged | access_control/sfs/cfs/cfs-coffee.c:1217-1257 | all bytes written through the log across any number of merges, or a prefix after a refusal, as foretold on a one-sector device |
| WriteLoops.WritingStep | access_control/sfs/cfs/cfs-coffee.c:1218-1246 | one turn more of the loop: the bytes written so far, the marker that is due, the room left in the log and what the extent is worth to file_end |
| WriteLoops.LoggedAfter | access_control/sfs/cfs/cfs-coffee.c:1201-1257 | extension and loop together answer the call: what is stored is the request or a prefix of it, with its last byte spoiled only in a write that grows the file and that one log cannot take |
| WriteFates.CycleStep | access_control/sfs/cfs/cfs-coffee.c:1218-1246 | the loop goes through a first log, a merge and a second log, at the hints computed beforehand |
| WriteFates.StuckEnding | access_control/sfs/cfs/cfs-coffee.c:1224-1256 | where it gets stuck is where the state before the write says: refused, cut short, or harmed after exactly so many bytes |
| Witnesses.HarmedRun | access_control/sfs/cfs/cfs-coffee.c:1181-1283 | from a formatted small device: a write of four bytes answers four, and read back the file has two of them, the second one replaced by the marker |
| CoffeeFiles.Coffee.CfsWrite | access_control/sfs/cfs/cfs-coffee.c:1181-1283 | the file behind the descriptor becomes the old bytes with the written ones over them at the offset, which moves behind them; other files, other offsets and other extents stay; all is written unless a larger extent, a log or a merge is denied, which still holds at the end; a write that cannot be harmed by its guard stores what was asked for or a prefix; on a one-sector device the outcome is the foretold one |
| FileLogs.OthersRestTrans | access_control/sfs/cfs/cfs-coffee.c:939-1010 | steps that touch one file and its log add up: no other file appears, and no other slot changes extent or size |
| FileMerges.MergedRest | access_control/sfs/cfs/cfs-coffee.c:868-889 | a merge gives up the slots of the old file and its log, takes one for the copy, and leaves the others |
| FileSteps.OpenedExactly | access_control/sfs/cfs/cfs-coffee.c:1056-1059 | the file layer stays in order exactly when a descriptor is opened for something |
| FlatViews.ForeignUntouched | access_control/sfs/cfs/cfs-coffee.c:1181-1283 | a file that is neither the written one nor its log keeps every byte, its log, and its slot if it still has one |
| FlatViews.ReadStands | access_control/sfs/cfs/cfs-coffee.c:1124-1180 | a read of the file layer is a read of the flat file |
| FlatViews.WriteStands | access_control/sfs/cfs/cfs-coffee.c:1181-1283 | a write of the file layer is a write to the flat file of that name, for every descriptor on it, and to no other file |
| FlatViews.SeekStands | access_control/sfs/cfs/cfs-coffee.c:1073-1103 | a seek inside the extent moves the flat offset, and a seek behind the end pads with zeros if nothing lies there |
| FlatViews.CloseStands | access_control/sfs/cfs/cfs-coffee.c:1063-1071 | closing drops the descriptor and keeps the file, its content and its size |
| FlatViews.OpenStands | access_control/sfs/cfs/cfs-coffee.c:1027-1061 | opening yields the lowest free descriptor on the file of this name: as it was if its size is cached, exactly what its extent kept if not, empty if it is new |
| FlatViews.NotFoundFlat | access_control/sfs/cfs/cfs-coffee.c:465-489 | a file that exists is not found only if its size is not in the cache and as many different files are open as the cache has slots |
| FlatViews.RemoveStands | access_control/sfs/cfs/cfs-coffee.c:1105-1122 | removing drops the file of this name and every descriptor on it, and no other |
| FlatViews.ReloadedPrefix | access_control/sfs/cfs/cfs-coffee.c:525-556 | a size found again from the extent gives the prefix of the file of exactly that size |
| FlatViews.ReloadedExactly | access_control/sfs/cfs/cfs-coffee.c:525-556 | it gives the whole file if and only if the last byte is not zero in the extent, whatever the log says |
| FlatFiles.RunRemains | access_control/sfs/cfs/cfs-coffee.c:453-493 | over any run that does not write, seek in or remove it, a file keeps all of its content or exactly what its extent kept |
| FlatFiles.RunKeeps | access_control/sfs/cfs/cfs-coffee.c:453-493 | a file whose size stays in the cache reads as before after any such run, closed and opened again or not |
| Sessions.Perform | access_control/sfs/cfs/cfs-coffee.c:1027-1283 | every call refines the flat files: answer and new state are ones the flat files allow |
| Sessions.Replay | access_control/sfs/cfs/cfs-coffee.c:1027-1283 | every run of opens, closes, reads, writes, seeks and removals over any state that stands for flat files is explained by flat files, up to a seek beyond the extent, as long as no request is refused |
| Sessions.RunFormatted | access_control/sfs/cfs/cfs-coffee.c:1027-1283 | the same from a formatted device and no files, where neither a shortage nor a withheld request occurred |
| Scheduling.DispatchedValid | control_flow/sched/scheduler.c:146-157 | choosing the next thread keeps all thread ids distinct and used once |
| Scheduling.RegisterValid | control_flow/sched/scheduler.c:384-397 | registration refuses exactly when the pool is empty; otherwise the new id is one never used before and the thread is last in the queue |
| Scheduling.RetireValid | control_flow/sched/scheduler.c:217-244 | a finished or killed thread is kept aside and the next one runs, or none if the queue was empty |
| Scheduling.RunValid | control_flow/sched/scheduler.c:247-351 | every run of yields, busy returns, ends and registrations keeps the invariant |
| Scheduling.BoundedWait | control_flow/sched/scheduler.c:263-351 | the thread at place k of the queue becomes current after exactly k + 1 decisions of any kind, where it is to be started or continued, and waits before |
| Scheduling.RunsAgain | control_flow/sched/scheduler.c:280-351 | a thread that yields runs again after one turn of the others at its yield point; one sent back busy, at the entry it was to be started at |
| Scheduling.StartWithNobody | control_flow/sched/scheduler.c:399-414 | started with an empty queue the scheduler runs nobody and counts as running |
| Schedulers.Scheduler.InitDataStructures | control_flow/sched/scheduler.c:164-186 | the pool becomes one free list and all else is empty |
| Schedulers.Scheduler.ReadyEnqueue | control_flow/sched/scheduler.c:131-144 | the queue is extended by the block, although the first branch does not clear the block's link |
| Schedulers.Scheduler.ReadyDequeue | control_flow/sched/scheduler.c:146-157 | the head leaves the queue, with a link to the new head or to nothing |
| Schedulers.Scheduler.AllocTcb | control_flow/sched/scheduler.c:109-123 | the head of the free list, with the given content |
| Schedulers.Scheduler.RegisterThreadPortal | control_flow/sched/scheduler.c:384-397 | the linked lists refine the registration of the FIFO |
| Schedulers.Scheduler.StartScheduling | control_flow/sched/scheduler.c:399-421 | the linked lists refine the start of the FIFO, or refuse a second start |
| Schedulers.Scheduler.YieldGetNext | control_flow/sched/scheduler.c:263-300 | every block stays in exactly one list and the queue becomes the FIFO after a yield; with the scheduler off the caller goes on |
| Schedulers.Scheduler.BusyGetNext | control_flow/sched/scheduler.c:322-351 | the same for a busy return |
| Schedulers.Scheduler.DoneGetNext | control_flow/sched/scheduler.c:217-319 | the same for a finished or killed thread |
| Schedulers.Scheduler.GetCurThrId | control_flow/sched/scheduler.c:451-464 | the id of the current thread, or 0 |
| Protocols.StartedInv | control_flow/spm-compiler/asm_sm/sm_entry.s:14-20 | a system with empty stacks satisfies the protocol's invariant |
| Protocols.StepKeeps | control_flow/spm-compiler/asm_sm/sm_entry.s:14-160 | any step, arbitrary jumps of the others included, keeps, if and only if it is no harmful arrival at the scheduler: one thread per module, suspended threads' modules waiting for them, and every accepted call or return in the thread the module saved |
| Protocols.SchedulerKeeps | control_flow/spm-compiler/asm_sched/sm_entry.s:14-100 | the scheduler's entry stub keeps the invariant: return, busy, yield, report, register, start and every malformed jump |
| Protocols.ModuleKeeps | control_flow/spm-compiler/asm_sm/sm_entry.s:14-110 | a module's entry stub keeps the invariant |
| Protocols.EnterFrames | control_flow/spm-compiler/asm_sm/sm_entry.s:61-103 | no entry stub mixes the threads of a module's open frames |
| Protocols.EnterWaiting | control_flow/spm-compiler/asm_sm/sm_entry.s:61-91 | a module that waits for the scheduler in another thread is left as it is |
| Protocols.RunKeeps | control_flow/spm-compiler/asm_sm/sm_entry.s:14-160 | over whole runs from any sound state the invariant holds all along if and only if every step is safe |
| Protocols.ProperRunIsSafe | control_flow/spm-compiler/asm_sched/sm_entry.s:14-100 | it is in every run whose callers of the scheduler keep to three rules |
| Protocols.BusyCall | control_flow/spm-compiler/asm_sm/sm_entry.s:77-91 | a call from another thread is answered busy and changes nothing in the module; any other well-formed call is accepted in the current thread |
| Protocols.SuspendedApart | control_flow/sched/scheduler.c:280-299 | two suspended threads never wait in the same module, nor in one that serves the current thread |
| Protocols.NotAskingIsSound | control_flow/spm-compiler/asm_sm/sm_entry.s:67-75 | the stub that skips the thread check on a return from the scheduler behaves like one that always checks, and such a return is never rejected |
| Protocols.FrameGoes | control_flow/spm-compiler/asm_sm/sm_exit.s:87-112 | whatever step is taken, a module's stack changes at its top only, and a frame goes only when its recorded callee returns, which resumes that frame |
| Protocols.FramesStay | control_flow/spm-compiler/asm_sm/sm_entry.s:21-40 | well-bracketing over any run: as long as the recorded callee of a frame has not returned to it, the frame and all below it stay untouched |
| Protocols.DeadFramesStay | control_flow/sched/scheduler.c:217-244 | the frames of a finished or killed thread are never resumed in any safe run |
| Protocols.DoneStays | control_flow/sched/scheduler.c:384-397 | a thread that is done stays done: its id is not reused |
| Protocols.SchedulerKeepsExactly | control_flow/spm-compiler/asm_sched/sm_entry.s:14-100 | an arrival at the scheduler keeps the invariant if and only if it is harmless: the exact hypotheses of the protocol |
| Protocols.ReachesTwoThreads | control_flow/sched/scheduler.c:280-299 | from the start of the system, by proper steps only, thread 1 has yielded in a module and gone on inside it, and thread 2 is registered |
| Protocols.SpuriousBusyMixesThreads | control_flow/sched/scheduler.c:322-351 | from there one busy return for the thread that runs on lets it resume the frame the other thread left behind |
| Stubs.ProtectedModule.SmEntry | control_flow/spm-compiler/asm_sm/sm_entry.s:14-110 | the stub's checks, in their order, on the private stack realise the protocol's reaction, which Arrivals.CallArrives and Arrivals.ReturnArrives describe |
| Arrivals.CallArrives | control_flow/spm-compiler/asm_sm/sm_entry.s:14-110 | a call runs the module exactly if its index is below the number of entries, its return address is the caller's, and the module is idle or in the same thread; from another thread it is answered busy; otherwise the caller is reported; the module changes in nothing but the thread it saves |
| Arrivals.ReturnArrives | control_flow/spm-compiler/asm_sm/sm_exit.s:64-132 | a return is accepted exactly from the callee of the top frame in the saved thread: busy, the module asks for another turn; else it resumes the caller or repeats the call that was put aside; otherwise it is reported and nothing changes |
| Arrivals.Leaves | control_flow/spm-compiler/asm_sm/sm_exit.s:13-60 | a call out leaves a frame with callee, entry, return address and thread; leaving for good leaves none |
| Arrivals.ReachesOutside | control_flow/spm-compiler/asm_sm/unprotected_entry.s:12-24 | who has no entry stub is reached by any jump |
| Arrivals.LegalActivations | control_flow/spm-compiler/asm_sm/sm_entry.s:42-60 | over any run, arbitrary jumps included, every activation of a module was started at an entry it has by whom it will return to, in the thread it saved |
| Stubs.ProtectedModule.RetEntry | control_flow/spm-compiler/asm_sm/sm_exit.s:69-130 | a return resumes, repeats the call, or asks for another turn when the callee was busy |
| StubCode.CallRefines | control_flow/spm-compiler/asm_sm/sm_exit.s:13-60 | the twelve words of an open call are one exit frame with the callee, the entry and the module to return to |
| StubCode.NothingElseLeaves | control_flow/spm-compiler/asm_sm/sm_exit.s:32-60 | what a module passes to its callee depends on where it calls and on the arguments that its mask names, and on no other register |
| StubCode.ReturnRefines | control_flow/spm-compiler/asm_sm/sm_exit.s:64-132 | what the stub does to the words on a return is what the protocol does to the frames: resume the caller, repeat the call, or wait for a turn |
| StubCode.ModuleCode.Return | control_flow/spm-compiler/asm_sm/sm_exit.s:64-132 | the instructions of a return, over any stack of open calls, come to that |
| StubCode.ModuleCode.CallAndReturn | control_flow/spm-compiler/asm_sm/sm_exit.s:13-109 | whatever the registers hold when a call comes back, its caller finds its stack and its own registers again, and the results |
| StubCode.ModuleCode.CallAndRetry | control_flow/spm-compiler/asm_sm/sm_exit.s:13-132 | after a busy answer the same entry is called at the same address from the same stack, with the arguments cleared in between |
| StubCode.ModuleCode.AskThread | control_flow/spm-compiler/asm_sm/sm_entry.s:77-97 | the question for the current thread inside an entry keeps the stack and every register but three of the arguments |
| Stubs.SchedulerModule.SmEntry | control_flow/spm-compiler/asm_sched/sm_entry.s:14-100 | the scheduler's stub over the linked lists does what the protocol's scheduler does, which Arrivals.ArrivalIsEvent describes |
| Arrivals.ArrivalIsEvent | control_flow/spm-compiler/asm_sched/sm_entry.s:14-100 | any jump to a running scheduler is one event: a yield, a busy thread, a finished one, a killed one, a registration; a decision jumps to module and entry of the thread that was first in the queue, or of the one put aside if nobody waits |
| Arrivals.PutLast | control_flow/sched/scheduler.c:280-351 | a thread that yields or was busy goes behind all others, to go on where it yielded or to be started where it was to be started; one that ended is in the queue no more |
| Arrivals.ArrivalWhenOff | control_flow/spm-compiler/asm_sched/sm_entry.s:14-100 | a scheduler that is not running registers, starts the first thread of the queue, sends everybody else back who calls, and stops the machine on a report or a return |
| Arrivals.ArrivalWithNobody | control_flow/sched/scheduler.c:217-351 | a scheduler that was started without a thread stops the machine on the first decision it has to make |
| Arrivals.UnprotectedReturns | control_flow/spm-compiler/asm_sched/sm_entry.s:14-100 | a return from unprotected code ends the scheduling |
| Arrivals.WaitsItsTurn | control_flow/sched/scheduler.c:217-351 | over whole safe runs of the system, a thread at place k of the queue does not run for k decisions, keeps its place among the others, and is jumped into by the next decision |
| AccessControl.ServeKeeps | access_control/sfs/sfs-ram.c:482-659 | every call keeps: each file has its creator's entry, each entry a file, each descriptor an entry, and the pools add up |
| AccessControl.RunKeeps | access_control/sfs/sfs-ram.c:482-659 | the same over every run |
| AccessControl.DescriptorsAreGranted | access_control/sfs/sfs-ram.c:310-331 | every open descriptor stems from a successful open by its module on its file, and nothing has taken it away since |
| AccessControl.AccessIsAuthorised | access_control/sfs/sfs-ram.c:593-626 | a character is read or written only for a module that was granted the descriptor and whose permission on the file allows it at that moment; what is written is the character of the call |
| AccessControl.GrantsBoth | access_control/sfs/sfs-ram.c:116-122 | all the flags that are wanted must be there, and each of them |
| AccessControl.GrantsNothing | access_control/sfs/sfs-ram.c:116-122 | asking for nothing is always granted, and having nothing grants nothing else |
| AccessControl.CharOfIs | access_control/sfs/sfs-ram.c:593-626 | a character is answered as the value of a plain char, signed or not, with the same low byte |
| AccessControl.FlagOrder | access_control/sfs/sfs.h:72-89 | a creator has all a root has, a root may read and write and is no creator, and reading and writing are apart |
| CallEffects.RequestsExactly | access_control/sfs/sfs-ram.c:310-640 | every call makes exactly these requests to the back end, each once, and these arguments: open with the name and the size for who may open, with a close after a descriptor out of range; delete for a root holder if nobody has the file open; read, write and seek for the owner with the permission; a close for each descriptor of a revoked entry |
| CallEffects.AnswersExactly | access_control/sfs/sfs-ram.c:482-678 | what every call answers, in terms of who gets through and what the back end said |
| CallEffects.EntriesExactly | access_control/sfs/sfs-ram.c:375-659 | every entry afterwards is the creator's new one, the one a chmod set or took away, gone with its file, or what it was |
| CallEffects.OwnersExactly | access_control/sfs/sfs-ram.c:482-591 | a file has a creator from the open that makes it to the removal, and no other call changes that |
| CallEffects.DescriptorsExactly | access_control/sfs/sfs-ram.c:310-369 | a descriptor is taken by the open that the back end answers with it, and given back by its owner's close or a revocation |
| SecureFiles.AnswersAreFresh | access_control/sfs/sfs-ram.c:310-331 | with flat files behind it no open is answered with a descriptor in use |
| SecureFiles.CallKeepsLinked | access_control/sfs/sfs-ram.c:310-640 | after every call each descriptor of the front end is open behind it on the file of that name, for reading and writing |
| SecureFiles.NothingYet | access_control/sfs/sfs-ram.c:224-262 | they are linked at the beginning, when there are no files |
| SecureFiles.PutSeekGet | access_control/sfs/sfs-ram.c:593-640 | a character that is put, sought back to and read is answered by all three calls as it should be, and is the same |
| SecureFiles.OnlyWritersWrite | access_control/sfs/sfs-ram.c:482-640 | over any call a file is what it was, or a holder of SFS_WRITE put one character at its offset, the owner of a descriptor stretched it, somebody who may opened or made it, or a holder of SFS_ROOT removed it |
| SecureFiles.RunUntouched | access_control/sfs/sfs-ram.c:482-640 | over whole runs without such a call the file is what it was |
| AccessControl.OnlyRootChanges | access_control/sfs/sfs-ram.c:554-659 | a permission changes only by creation of the file, by removal, or by a chmod, the latter two by a holder of SFS_ROOT, and never from SFS_CREATOR by chmod |
| AccessControl.ChmodBinds | access_control/sfs/sfs-ram.c:642-659 | a successful chmod binds descriptors that are open already |
| AccessControl.RevocationCloses | access_control/sfs/sfs-ram.c:338-369 | a revocation closes exactly the revoked module's descriptors on that file |
| AccessControl.CreatorStays | access_control/sfs/sfs-ram.c:661-678 | attestation of the creator succeeds in every run until the file is removed |
| AccessControl.SoleCreatorsExactly | access_control/sfs/sfs-ram.c:375-408 | after a call only creators can be attested, exactly if it is no chmod with all SFS_CREATOR bits that the guards of the call let through |
| AccessControl.OnlyCreatorsAttested | access_control/sfs/sfs-ram.c:661-678 | over every run without such a chmod, attestation confirms the creator of a file and nobody else |
| AccessControl.CreatorCanBeGiven | access_control/sfs/sfs-ram.c:375-408 | such a chmod answers SUCCESS, and can be made over an existing entry, or with one more bit for a new one |
| PermissionPools.ListOmitted | access_control/sfs/sfs-ram.c:362-363 | unlinking an element that is not the first leaves the rest of the list |
| PermissionPools.CountZero | access_control/sfs/sfs-ram.c:563-569 | a file's count is zero exactly when no descriptor refers to it |
| PermissionSteps.SlotOpened | access_control/sfs/sfs-ram.c:327-330 | taking a descriptor keeps every count exact |
| PermissionSteps.SlotClosed | access_control/sfs/sfs-ram.c:107-112 | giving a descriptor back keeps every count exact |
| PermissionSteps.FlagsWritten | access_control/sfs/sfs-ram.c:392-394 | overriding an entry keeps the structure and changes one permission |
| PermissionSteps.EntryAppended | access_control/sfs/sfs-ram.c:399-406 | an entry from the free list at the end of an access list: pools stay partitioned, one permission is added |
| PermissionSteps.EntryUnlinked | access_control/sfs/sfs-ram.c:360-364 | an entry behind the first goes back to the free list: pools stay partitioned, one permission is gone |
| PermissionSteps.FileCreated | access_control/sfs/sfs-ram.c:510-517 | a file with its creator's entry at the head: pools stay partitioned, and the map has the new file |
| FileRemovalSteps.FileRemoved | access_control/sfs/sfs-ram.c:571-583 | a file no descriptor refers to goes with its whole list: pools stay partitioned, and the map loses exactly that file |
| FrontEnd.Sfs.InitDataStructures | access_control/sfs/sfs-ram.c:224-262 | both pools become free lists and nothing is open |
| FrontEnd.Sfs.LookupFile | access_control/sfs/sfs-ram.c:193-205 | the file of this name with its predecessor, or none |
| FrontEnd.Sfs.LookupPerm | access_control/sfs/sfs-ram.c:155-160 | the module's entry with its predecessor, or none and the last entry |
| FrontEnd.Sfs.OpenBackEndFile | access_control/sfs/sfs-ram.c:310-331 | the descriptor cache and the count change as the map says, or the bad descriptor is closed again |
| FrontEnd.Sfs.SfsOpen | access_control/sfs/sfs-ram.c:482-530 | refines the map: creation, permission check, back-end open |
| FrontEnd.Sfs.SfsClose | access_control/sfs/sfs-ram.c:532-547 | refines the map; only the owner of the descriptor can close it |
| FrontEnd.Sfs.SfsRemove | access_control/sfs/sfs-ram.c:554-591 | refines the map; refuses while any descriptor is open on the file |
| FrontEnd.Sfs.SfsGetc | access_control/sfs/sfs-ram.c:593-608 | reaches the back end exactly when the map grants SFS_READ now |
| FrontEnd.Sfs.SfsPutc | access_control/sfs/sfs-ram.c:610-626 | refines the map: the character of the call reaches the back end exactly when the map grants SFS_WRITE now |
| FrontEnd.Sfs.SfsSeek | access_control/sfs/sfs-ram.c:628-640 | reaches the back end for the owner of the descriptor, whatever the permissions |
| FrontEnd.Sfs.RevokeAcl | access_control/sfs/sfs-ram.c:338-369 | refines the map; every descriptor of the entry is closed before the entry is freed |
| FrontEnd.Sfs.AddAcl | access_control/sfs/sfs-ram.c:375-408 | refines the map; the creator's entry is neither overridden nor assigned as a new one |
| FrontEnd.Sfs.SfsChmod | access_control/sfs/sfs-ram.c:642-659 | refines the map; only a holder of SFS_ROOT gets through |
| FrontEnd.Sfs.SfsAttest | access_control/sfs/sfs-ram.c:661-678 | says whether the module's entry has all SFS_CREATOR bits |

## Left out

- CoffeeFiles.Coffee.Reserve: where the source would run a collection that strands the allocation hint, the file layer makes no request and counts it in `strandings`; `Volumes.Volume.Reserve` and everything below it do what the source does.
- CoffeeFiles.Coffee.CfsRead: file names, which the source compares as strings, are fields of fixed length padded with zeros; sizes and offsets are mathematical integers; what is read behind the extent of a file that has a log is not described.
- CoffeeFiles.Coffee.CfsOpen: a descriptor is opened with some flag; FileSteps.OpenedExactly says what happens otherwise.
- CoffeeFiles.Coffee.CfsWrite: the outcome is foretold on devices of one sector, for writes that need at most two logs; on others it depends on the layout, and only WriteLoops.Unharmed is stated for all.
- CoffeeFiles.Coffee.FindNextRecord: files are assumed to have at most as many log records as one table read takes; the exact condition without that is MicroLogs.NextRecordExact.
- Volumes.NextFile: the bit mask that rounds to the next sector is sector arithmetic, for sector sizes that need not be a power of two.
- CoffeeFiles.Coffee.LoadFile: 8-bit reference counts and 16-bit record counts do not overflow with the pool sizes and log sizes assumed, so they are not bounded.
- CoffeeFiles.Coffee.CfsSeek: stated with an if-and-only-if, because a seek beyond the extent breaks the file layer.
- FlatViews.OpenStands: which closed files drop out of the cache, and when, is left open.
- Sessions.RunFormatted: nothing is said about files after a refused request; CoffeeFiles.Coffee.CfsWrite says what such a write leaves, and names without an open descriptor may then have a second extent.
- Sessions.Replay: a name fills the whole field of the header, and a descriptor is opened with some flag.
- Reluctant garbage collection, which the shipped configuration never reaches.
- Directory listing, the I/O semantics flags of descriptors, changing a file's log configuration, and checkpointing.
- The SPI commands of the flash driver; only the effect of reading, programming and erasing is modelled.
- Protocols.Step: an entry stub with its question for the current thread is one step, and only transfers of control are kept; registers and arguments are in StubCode.
- Stubs.ProtectedModule.SmExit: pushes one frame; that the words pushed and popped are such a frame is StubCode.CallRefines and StubCode.ReturnRefines.
- StubCode.ModuleCode.RetEntry: the register set is that of the exit stub; status bits and the words of the entry stub below a running function are not modelled.
- Schedulers.Scheduler.StartScheduling: the call of the first module and the return to the main thread are steps of the protocol; printing is left out.
- Liveness under mutual busy waiting: two threads that each hold a module the other wants retry forever.
- FrontEnd.Sfs.SfsOpen: the answers and the data of the back end are parameters, and it is assumed to answer only with descriptors that are not in use, which SecureFiles.AnswersAreFresh shows of flat files.
- SecureFiles.CallKeepsLinked: behind the front end are flat files as long as Sessions.Replay explains them, that is without a refused request and up to a seek beyond an extent; the size hint of an open, which Coffee ignores, says nothing to them.
- FrontEnd.Sfs.InitDataStructures: formatting the back end is not recorded as a request.
- Stubs.SchedulerModule.SmEntry: a return from unprotected code to the scheduler, and any arrival at one that was started without a thread, are steps of the protocol only.
- The abandoned prototype, the shared-memory back end with its allocator, and the compiler and linker glue.
