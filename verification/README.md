# Proofs about the freeos system-call layer

A Dafny model of the stateful core of the freeos kernel: pipes and descriptor
tables, `select`/`poll`/`epoll`, `getdents64`, System V shared memory, futexes,
the byte-moving calls, hard links, user strings, and part of the small user C
library. `dafny verify dfyconfig.toml` checks all of it.

Concurrent parts (pipes, shared memory, the futex table) are transition systems:
an event is one atomic piece of a system call, any interleaving of events is a
run, and the theorems speak about every state of every run. Code that updates
things in place is a class or works on an array, and each of its methods is
proved against the function that gives it its meaning.

| file | what it models |
|---|---|
| `PipeRing.dfy` | the 256-byte ring, and the locked sections of `read` and `write` |
| `PipeSystem.dfy`, `PipeRuns.dfy` | all pipes, descriptor tables and calls in flight; what every run keeps |
| `PipeCalls.dfy` | what each event of a `read` or `write` does in every run |
| `PipePolling.dfy` | `poll` of a pipe end against `read` and `write`, and what the multiplexers make of it |
| `DescriptorCalls.dfy` | `close`, `dup`, `dup2`, `pipe2`, the table copy of fork and the clearing at exit |
| `Select.dfy`, `SelectCall.dfy` | the bit-set scan of `select`, and the call with its polling rounds |
| `Multiplex.dfy`, `MultiplexAgreement.dfy` | `poll` and `epoll`; the three multiplexers compared |
| `DirRecords.dfy`, `Getdents.dfy` | directory records and their reader; sequences of `getdents64` calls |
| `Shm.dfy`, `ShmRuns.dfy`, `ShmLifetimes.dfy` | `shmget`, `shmat`, `shmdt`, `shmctl` as steps; their invariants and the lifetimes of segments |
| `ShmCalls.dfy`, `ShmManager.dfy` | what each of these calls does, and the code of the manager |
| `Futex.dfy`, `FutexCalls.dfy` | the table of wait queues and its guards; wait, wake and requeue as events of it |
| `FileBytes.dfy`, `CopyInPlace.dfy` | what a write leaves in a file; copying within one file chunk by chunk |
| `ByteMoves.dfy` | `copy_file_range`, both directions of `splice`, `readv`, `writev` |
| `HardLinks.dfy` | the hard-link manager |
| `UserString.dfy` | the checked search for the end of a user string |
| `CLib.dfy`, `Stdio.dfy` | `printint`, `atoi`, `memset`; the line buffer of standard output |
| `Common.dfy` | the few types and functions the others share |

## What the outside world answers

Clocks, the page allocator, the address space, user pointers and the readiness of
files appear as parameters (`rounds`, `pages`, `layout`, `bufOk`, `world`), or as a free choice inside `File` and `Pipe` of `ByteMoves`,
where every transfer may be short and every call may fail. The theorems hold for
all answers.

## Where the code surprises

- A guard on a futex queue is never its last owner, because the table owns it
  too, so the branch of `drop` that unlinks a queue never runs
  (`FutexTable.GuardIsNeverLast`): queues are permanent.
- Attach counts of shared memory leak: when `shmat` has counted and then finds no
  address, when it records an attachment where another is recorded, when `shmdt`
  gives its record up although the unmapping fails, and when a process exits, which
  drops all its records and touches no count. `ShmLifetimes.CountIsRecordsExactly`
  says that these are all the ways: the count is the number of records iff none of
  them has happened. A segment that has leaked is never unregistered
  (`ShmLifetimes.LeakedForGood`).
- A private segment of size zero can be made and never attached
  (`ShmCalls.ValidationIsExact`).
- A write to a pipe that nobody can read is refused with EPIPE even when it has
  nothing to write (`PipeCalls.CheckIsExact`).
- End of file on a pipe is never reported by `select`, `poll` or `epoll`: `poll` of
  the read end looks at the ring only, although a `read` would return at once
  (`PipePolling.EofIsNeverReported`; `PipePolling.EofHappens` is a run that gets there).
- `poll` reports an error on a descriptor that does not poll even when nobody asked
  for errors; `select` and `epoll` do not. `MultiplexAgreement.AgreementIsExact`
  gives the exact condition.
- `select` writes its three answers back one after the other. The value it returns
  is the number of bits left, whatever the descriptors do, iff no two of its
  arguments are one set that asks about a descriptor below `nfds`
  (`SelectCall.CountIsRightExactly`).
- `dup2` onto a number outside the table panics the kernel, and the model's `Dup2`
  answers `Panic` for exactly those calls (`DescriptorCalls.Dup2CanPanic` makes one).
- `copy_file_range` within one file reads chunks it may already have overwritten. It
  copies what the file held at first, for every file and however the reads fall, iff
  the target starts no later than the source or behind its end
  (`CopyInPlace.InPlaceIsExact`); `CopyInPlace.FullReadsGoWrong` is a copy of 12288
  bytes from 0 to 4096 that goes wrong.
- Unlinking a path that other links lead to removes its file and leaves those links
  without one, and this is the only operation that does
  (`HardLinks.TargetsExistExactly`).
- `out` clears the line buffer before it compares the result of the write with the
  buffer's length, so a short write loses the rest and is not noticed. What was
  written and what is buffered are what was put out iff every write was complete
  (`Stdio.OutputIsExact`).
- The comment on `create_link` says that targets which are not files are refused
  with `NotFile`; the code refuses targets which are not directories. The model
  follows the code.
- The dangling-key branch of `get_or_create` is never taken
  (`ShmRuns.MapsAreInverse`), and neither is the error branch of
  `decrease_ref_count` (`HardLinks.Manager.LinkRemove`).

## Model

| member | source | states |
|---|---|---|
| `PipeRing.StoreAppends` | api/src/file/pipe.rs:37-44 | storing at the tail appends one byte to the bytes between head and tail, in every position of the ring; into a full ring it leaves that byte alone |
| `PipeRing.TakeDropsFirst` | api/src/file/pipe.rs:46-54 | advancing the head removes exactly the oldest byte; on an empty ring it makes 255 stale bytes readable |
| `PipeRing.RingBuffer.constructor` | api/src/file/pipe.rs:28-35 | a new ring is valid and holds nothing |
| `PipeRing.RingBuffer.AvailableRead` | api/src/file/pipe.rs:57-65 | is the number of bytes waiting, for every head, tail and status |
| `PipeRing.RingBuffer.AvailableWrite` | api/src/file/pipe.rs:68-74 | and the bytes waiting add up to 256 |
| `PipeRing.RingBuffer.Poll` | api/src/file/pipe.rs:188-194 | the code on indices and status is `PollSpec`, on which `PipePolling` builds |
| `PipeRing.RingBuffer.WriteByte` | api/src/file/pipe.rs:37-44 | appends a byte to the contents and keeps the ring valid |
| `PipeRing.RingBuffer.ReadByte` | api/src/file/pipe.rs:46-54 | returns and removes the first byte of the contents |
| `PipeRing.RingBuffer.ReadSection` | api/src/file/pipe.rs:123-139 | one locked pass of `read` takes the smaller of what the ring holds and what fits, in order and from the front; it takes nothing iff one of them is zero, and then says end of file iff closed; the rest of the buffer is untouched |
| `PipeRing.RingBuffer.WriteSection` | api/src/file/pipe.rs:155-174 | one locked pass of `write` appends the smaller of the room and what is left of the buffer, and advances by that; it ends as `WriteSpec` says |
| `PipeRuns.CloneKeepsRefs` | api/src/file/mod.rs:185-191 | taking one more reference to something held keeps both reference counts equal to what is held |
| `PipeRuns.DropKeepsRefs` | api/src/file/mod.rs:199-206 | dropping a reference, and with the last one the pipe end, keeps both reference counts equal to what is held |
| `PipeRuns.RefsKept` | api/src/file/mod.rs:153-206 | every event keeps the counts of ends and rings equal to the places that hold them |
| `PipeRuns.OpsKept` | api/src/file/pipe.rs:115-175 | a running call keeps its own pipe end alive through every event of every other task |
| `PipeRuns.DataKept` | api/src/file/pipe.rs:123-174 | every event keeps delivered bytes followed by the ring equal to accepted bytes |
| `PipeRuns.MergeKept` | api/src/file/pipe.rs:115-175 | every event keeps each writer's share of the stream a prefix of its buffer of length `write_size`, and each reader's share what it returns |
| `PipeRuns.ClosedMeans` | api/src/file/pipe.rs:104-106 | seen from a live end, a ring count of one means that nothing holds the other end, and conversely |
| `PipeRuns.DeadStaysDead` | api/src/file/pipe.rs:83-106 | an end nobody holds is not reached again by any event |
| `PipeRuns.ReadOutcomeHonest` | api/src/file/pipe.rs:123-139 | a read that returns 0 leaves an empty ring and no holder of the write end |
| `PipeRuns.WriteOutcomeHonest` | api/src/file/pipe.rs:155-174 | a write that returns short leaves a full ring and no holder of the read end |
| `PipeRuns.OutcomesKept` | api/src/file/pipe.rs:115-175 | no later event contradicts what a finished call was told |
| `PipeRuns.StepKeepsInv` | api/src/file/pipe.rs:82-175 | the whole invariant is kept by every event |
| `PipeRuns.RunKeepsInv` | api/src/file/pipe.rs:82-175 | it holds in every state of every run |
| `PipeRuns.StreamIsPreserved` | api/src/file/pipe.rs:115-175 | for every interleaving of any number of readers and writers: delivered bytes then ring are the accepted bytes in order, all of them come from writers of that pipe, and the projection to each writer is the prefix it reports |
| `PipeRuns.ClosedIsExact` | api/src/file/pipe.rs:104-106 | in every run, `closed()` on a held end iff no table slot and no call in flight holds the other |
| `PipeRuns.ReadWaitsExactly` | api/src/file/pipe.rs:123-139 | a pass of `read` changes nothing iff the ring is empty and someone holds the write end; otherwise it returns |
| `PipeRuns.WriteWaitsExactly` | api/src/file/pipe.rs:155-174 | a pass of `write` returns iff room is left over after its bytes, or the ring is full and nobody holds the read end |
| `PipeRuns.DeadForGood` | api/src/file/pipe.rs:83-106 | once an end has no holder it has none for the rest of the run |
| `PipeRuns.NothingMoreAccepted` | api/src/file/pipe.rs:142-175 | with the write end gone, the accepted stream never changes again |
| `PipeRuns.EofIsFinal` | api/src/file/pipe.rs:115-140 | when a read of a non-empty buffer has returned 0, in every later state of the run all accepted bytes have been delivered, no byte was added and nobody holds the write end |
| `PipeRuns.ShortWriteMeansNoReader` | api/src/file/pipe.rs:142-175 | a returned write took its whole buffer unless the ring is full and the read end gone, for good; EPIPE moved nothing |
| `PipeCalls.StartIsExact` | api/src/file/pipe.rs:115-154 | a call starts with the length or the bytes its caller gave, on the end its handle refers to, with nothing moved |
| `PipeCalls.RequestKept` | api/src/file/pipe.rs:115-175 | in every run a call keeps its end and its request from start to end |
| `PipeCalls.CheckIsExact` | api/src/file/pipe.rs:115-151 | in every run a call gets EPERM iff it is on the wrong end, a write EPIPE iff nothing holds the read end, and it returns at once iff it asks for nothing; the check touches nothing else |
| `PipeCalls.ReadIsExact` | api/src/file/pipe.rs:123-139 | in every run a pass of `read` takes min(ring, length) bytes from the front and touches no other pipe or call |
| `PipeCalls.WriteIsExact` | api/src/file/pipe.rs:155-174 | in every run a pass of `write` appends min(room, rest) bytes and touches no other pipe or call |
| `PipePolling.PollAgainstRead` | api/src/file/pipe.rs:188-194 | in every run `poll` says readable iff a pass of `read` would return, exactly when the ring is not empty or someone holds the write end; at end of file the read returns and `poll` says no |
| `PipePolling.PollAgainstWrite` | api/src/file/pipe.rs:188-194 | `poll` says writable iff a pass of `write` with bytes left moves some |
| `PipePolling.EofStays` | api/src/file/pipe.rs:123-139 | a pipe at end of file stays there for the rest of the run |
| `PipePolling.EofHappens` | api/src/file/pipe.rs:115-140 | a run of five events that reaches end of file, where `poll` says not readable and a read returns nothing |
| `PipePolling.EofIsNeverReported` | api/src/file/pipe.rs:188-194 | from then on no `select`, `poll` or `epoll` reports the read end, whatever was asked for, while every read returns |
| `DescriptorCalls.Descriptors` | api/src/file/mod.rs:156-168 | the ids of a table are exactly its occupied slots |
| `DescriptorCalls.Kernel.GetFileLike` | api/src/file/mod.rs:185-191 | clones the reference of an occupied slot into a local handle and changes nothing else, or EBADF and no change |
| `DescriptorCalls.Kernel.AddFile` | api/src/file/mod.rs:194-196 | fails with EMFILE iff the table is full, and then the file is dropped; otherwise it fills one free slot |
| `DescriptorCalls.Kernel.Close` | api/src/imp/fs/fd_ops.rs:112-116 | empties exactly that slot, or EBADF and no change |
| `DescriptorCalls.Kernel.Dup` | api/src/imp/fs/fd_ops.rs:118-127 | EBADF and EMFILE exactly when they are due, and no other error; on success one new slot with the same file |
| `DescriptorCalls.Kernel.Dup2` | api/src/imp/fs/fd_ops.rs:129-145 | afterwards the target slot has the file of the source slot; EBADF and the panic exactly when they happen |
| `DescriptorCalls.Dup2CanPanic` | api/src/imp/fs/fd_ops.rs:137-142 | from the start, one open file in slot 3 and `dup2` to 1024 panic |
| `DescriptorCalls.Kernel.AddWriteEnd` | api/src/imp/fs/pipe.rs:19-21 | the second insertion fails iff the table is full, and rolls the first one back completely |
| `DescriptorCalls.Kernel.Pipe2` | api/src/imp/fs/pipe.rs:10-28 | fails iff the table has no two free slots; then no slot changed and every count of the new pipe is zero; otherwise two different slots hold its two ends; the new ring is empty, and all other rings and streams and all calls are as before |
| `DescriptorCalls.Kernel.CopyInner` | api/src/file/mod.rs:155-162 | the child's table equals the parent's, and no other holder, ring, stream or call changed |
| `DescriptorCalls.Kernel.Clear` | api/src/file/mod.rs:164-170 | exactly the slots of that table are gone; rings, streams and calls are as before |
| `DescriptorCalls.Orphaned` | api/src/imp/fs/pipe.rs:17-21 | in every reachable state a pipe held nowhere has all counts at zero |
| `Words.TestBit` | api/src/imp/fs/io_mpx/select.rs:96-97 | masking with a single bit is non-zero iff the word has it |
| `Select.CopyFdSet` | api/src/imp/fs/io_mpx/select.rs:39-47 | the row gets the user's words below the limit, all zeros for a null pointer, and no other row changes |
| `Select.MarkIfReady` | api/src/imp/fs/io_mpx/select.rs:104-120 | setting one result bit and counting it extends a correct result by one descriptor |
| `Select.PollFd` | api/src/imp/fs/io_mpx/select.rs:101-122 | one descriptor's match arms extend all three results and the count correctly |
| `Select.FdSets.From` | api/src/imp/fs/io_mpx/select.rs:29-60 | the saved sets are those of the user below `nfds`, clamped to 1024 |
| `Select.FdSets.PollBit` | api/src/imp/fs/io_mpx/select.rs:95-124 | the body of the inner loop advances the covered range by one descriptor |
| `Select.FdSets.PollWord` | api/src/imp/fs/io_mpx/select.rs:94-124 | the inner loop covers its word and stops at `nfds`, so stray bits never matter |
| `Select.FdSets.PollAll` | api/src/imp/fs/io_mpx/select.rs:62-126 | each result set is exactly the requested descriptors below `nfds` that are readable, writable or failing; the count is the sum of the three sizes; the stepped pointers stay inside the array |
| `SelectCall.DistinctSetsKeepTheCount` | api/src/imp/fs/io_mpx/select.rs:128-149 | with distinct pointers the count equals the bits left in the user's sets, and each set is exactly its ready part |
| `SelectCall.ApartSetsKeepTheCount` | api/src/imp/fs/io_mpx/select.rs:128-149 | the count is right as well when a shared set asks about nothing below the limit |
| `SelectCall.ClashLosesBits` | api/src/imp/fs/io_mpx/select.rs:128-149 | for every pair of equal arguments that ask about something there is a snapshot in which more is returned than is left |
| `SelectCall.CountIsRightExactly` | api/src/imp/fs/io_mpx/select.rs:128-149 | the value equals the bits left in every snapshot iff no two arguments are one set that asks about a descriptor below the limit, counted for each argument or once for each set |
| `SelectCall.AliasedSetsDoMiscount` | api/src/imp/fs/io_mpx/select.rs:128-149 | a set used for both on which the call returns 1 and leaves no bit |
| `SelectCall.WriteBackTwice` | api/src/imp/fs/io_mpx/select.rs:128-143 | the write-back of a later round hides that of an earlier one |
| `SelectCall.UserMemory.Round` | api/src/imp/fs/io_mpx/select.rs:62-149 | a round answers the saved request and writes the answer to the user |
| `SelectCall.UserMemory.PollUntil` | api/src/imp/fs/io_mpx/mod.rs:26-46 | the loop ends in the first round that has an answer or is past the deadline, all rounds before were fruitless, and until then the user's sets are empty |
| `SelectCall.UserMemory.SysSelect` | api/src/imp/fs/io_mpx/select.rs:164-199 | for any number of rounds: errors exactly when they occur and without effect; the value is the number of answers to the original request, unless two arguments are one set that asks about something also the number of bits left, and zero only past the deadline; while the call waits the user's sets are empty |
| `Multiplex.PollOne` | api/src/imp/fs/io_mpx/poll.rs:17-46 | one entry gets exactly its `revents`, and counts iff they are not zero |
| `Multiplex.PollFds` | api/src/imp/fs/io_mpx/poll.rs:13-54 | every entry gets its `revents` in place, nothing else changes, and the count is the number of entries with non-zero `revents` |
| `Multiplex.FiringIs` | api/src/imp/fs/io_mpx/epoll.rs:77-102 | the firing list has exactly the descriptors whose registered interest is met |
| `Multiplex.FiringKeepsOrder` | api/src/imp/fs/io_mpx/epoll.rs:77-102 | in increasing order, each once |
| `Multiplex.FiringCut` | api/src/imp/fs/io_mpx/epoll.rs:78-80 | stopping when the array is full reports a prefix of that list |
| `Multiplex.Ascending` | api/src/imp/fs/io_mpx/epoll.rs:77 | the iteration order of the registry: all keys, increasing |
| `Multiplex.EpollInstance.Control` | api/src/imp/fs/io_mpx/epoll.rs:45-71 | each error exactly when it is due and without effect; after Add and Mod the descriptor has the event given, after Del it has none, and no other is touched |
| `Multiplex.CtlIsExact` | api/src/imp/fs/io_mpx/epoll.rs:45-71 | the step of a ctl call on the interest list has that meaning in every state |
| `Multiplex.ReportIsTruthful` | api/src/imp/fs/io_mpx/epoll.rs:82-101 | an event tells the registered data and one flag that was asked for and holds, or the error of a descriptor that does not poll |
| `Multiplex.EpollInstance.PollAll` | api/src/imp/fs/io_mpx/epoll.rs:73-104 | the first min(maxevents, ready) firing descriptors in ascending order, one event each; an event has the registered data and a flag that was asked for and holds, readable preferred; the rest of the array is untouched |
| `MultiplexAgreement.AgreeWhenOpen` | api/src/imp/fs/io_mpx/poll.rs:24-36 | on a descriptor that polls, `select`, `poll` and `epoll` agree flag by flag |
| `MultiplexAgreement.AgreeWhenFailing` | api/src/imp/fs/io_mpx/poll.rs:37-45 | on one that does not, `select` and `epoll` tell those who asked, `poll` everybody |
| `MultiplexAgreement.AgreementIsExact` | api/src/imp/fs/io_mpx/epoll.rs:82-101 | `epoll` and `select` always agree on who is ready; `poll` agrees with them iff the descriptor polls or errors were asked for |
| `MultiplexAgreement.PollStandsAlone` | api/src/imp/fs/io_mpx/poll.rs:42-45 | a closed descriptor watched for input, which only `poll` reports |
| `MultiplexAgreement.EpollReportsTheUnion` | api/src/imp/fs/io_mpx/epoll.rs:73-104 | with room enough, the number of `epoll` events is the size of the union of the three `select` answers |
| `MultiplexAgreement.CtlIsLocal` | api/src/imp/fs/io_mpx/epoll.rs:45-71 | a ctl call changes the interest in its own descriptor only |
| `MultiplexAgreement.HistoriesAreIndependent` | api/src/imp/fs/io_mpx/epoll.rs:45-71 | after any history of ctl calls the interest in a descriptor is what the calls about it alone would leave |
| `MultiplexAgreement.InterestIsLastWord` | api/src/imp/fs/io_mpx/epoll.rs:45-71 | after any history a descriptor is registered iff a successful Add or Mod about it was not followed by another success, and with that call's event |
| `MultiplexAgreement.DeletedIsSilent` | api/src/imp/fs/io_mpx/epoll.rs:45-104 | so a descriptor that was just deleted is not reported |
| `DirRecords.RecLen` | api/src/imp/fs/ctl.rs:158-162 | a multiple of 8 with room for header, name and NUL and less than 8 to spare |
| `DirRecords.DecodeUndoesPacking` | api/src/imp/fs/ctl.rs:157-185 | reading back by record length and NUL returns exactly the packed list, for NUL-free names of bounded length |
| `DirRecords.RoundTripIsExact` | api/src/imp/fs/ctl.rs:157-185 | a record reads back as its entry iff the name has no NUL and the length fits sixteen bits |
| `DirRecords.PackedAppend` | api/src/imp/fs/ctl.rs:157-185 | a record behind a packed buffer gives a packed buffer |
| `DirRecords.PackedLength` | api/src/imp/fs/ctl.rs:160-183 | a packed buffer is as long as its records |
| `DirRecords.TotalLen` | api/src/imp/fs/ctl.rs:160-162 | so every record starts at a multiple of 8 |
| `DirRecords.StoresMakeRecord` | api/src/imp/fs/ctl.rs:167-181 | the three overlapping raw stores make one record (inode 1, offset 0, length, type, name, NUL) and touch no other byte |
| `DirRecords.DirBuffer.Store` | api/src/imp/fs/ctl.rs:167-181 | a raw store, required to stay inside the buffer |
| `DirRecords.DirBuffer.WriteEntry` | api/src/imp/fs/ctl.rs:157-185 | writes the whole record iff it fits, and nothing otherwise |
| `Getdents.StoppedAtFit` | api/src/imp/fs/ctl.rs:201-222 | stopping at the first entry that does not fit yields the longest prefix that does |
| `Getdents.FitsIsLongest` | api/src/imp/fs/ctl.rs:201-222 | a prefix of the entries fits into the room iff it is no longer than the delivered one |
| `Getdents.Directory.Fill` | api/src/imp/fs/ctl.rs:209-222 | the loop packs entries in order and puts the one that did not fit back |
| `Getdents.Directory.Getdents64` | api/src/imp/fs/ctl.rs:188-228 | delivers exactly the longest prefix of the pending entries that fits; EINVAL iff something is pending and nothing fits, with buffer and pending entries as before |
| `Getdents.ExactlyOnce` | api/src/imp/fs/ctl.rs:188-228 | over any sequence of calls with any buffer sizes, what the reader decodes and then what is pending is the listing |
| `Getdents.ReadMany` | api/src/imp/fs/ctl.rs:188-228 | a sequence of `getdents64` calls puts out and leaves pending exactly what `Outputs` and `Remaining` say |
| `Getdents.ReadSession` | api/src/imp/fs/ctl.rs:188-228 | so what a reader decodes from its calls, then what the directory has pending, is what was pending before |
| `Getdents.BigEnoughBuffersDrain` | api/src/imp/fs/ctl.rs:188-228 | buffers that hold any single record drain the directory |
| `ShmRuns.ProbeFindsFirst` | core/src/shm.rs:262-278 | the probe finds the first unused id in cyclic order, or all tried ids are in use |
| `ShmRuns.AllocIsFirstFree` | core/src/shm.rs:254-279 | `alloc_id` yields the first unused id in cyclic order over 1..i32::MAX, keeps `next_id` positive, and fails only at the size cap or after 1000 consecutive ids in use |
| `ShmRuns.RegisterKeepsInv` | core/src/shm.rs:318-323 | registering a new segment keeps the invariant |
| `ShmRuns.RemoveKeepsInv` | core/src/shm.rs:335-345 | so does unregistering one that nobody has attached |
| `ShmRuns.AttachKeepsInv` | api/src/imp/mm/shm.rs:50-109 | so does every attach, failed ones included |
| `ShmRuns.DetachKeepsInv` | api/src/imp/mm/shm.rs:112-134 | so does every detach |
| `ShmRuns.RmidKeepsInv` | api/src/imp/mm/shm.rs:142-150 | so does marking for deletion |
| `ShmRuns.StepKeepsInv` | api/src/imp/mm/shm.rs:40-177 | every call keeps the whole invariant |
| `ShmRuns.RunKeepsInv` | api/src/imp/mm/shm.rs:40-177 | it holds in every state of every run |
| `ShmRuns.MapsAreInverse` | core/src/shm.rs:282-345 | in every run the key map and the non-private keys of the registry are mutually inverse, and each segment is stored under its own positive id |
| `ShmRuns.RecordedIsRegistered` | core/src/shm.rs:141-156 | in every run a recorded segment is registered under the recorded id, and its count covers its records |
| `ShmLifetimes.LeavesAtZero` | api/src/imp/mm/shm.rs:112-150 | a segment leaves the registry only marked and unattached, and in the very step that gets it there |
| `ShmLifetimes.MarkedGainsNothing` | api/src/imp/mm/shm.rs:22-37 | a marked segment refuses attaching, stays marked, and its count and records only shrink |
| `ShmLifetimes.BoundUntilRmid` | core/src/shm.rs:299-311 | a key stays bound to its id through every run without an IPC_RMID of that id |
| `ShmLifetimes.SameKeySameId` | core/src/shm.rs:282-327 | two `shmget` calls for one key with no removal of that id between them return the same id |
| `ShmLifetimes.ShmatMovesSlack` | api/src/imp/mm/shm.rs:64-108 | for every segment, an attach raises the count above the records by one iff it counted and found no address, or overwrote a record of that segment |
| `ShmLifetimes.ShmdtMovesSlack` | api/src/imp/mm/shm.rs:119-133 | a detach does iff the unmapping failed |
| `ShmLifetimes.ExitMovesSlack` | api/src/imp/task/exit.rs:13-59 | an exit does by the number of records the process held |
| `ShmLifetimes.SlackMovesExactly` | api/src/imp/mm/shm.rs:40-177 | every call moves count minus records of every segment by exactly what it leaks |
| `ShmLifetimes.CountIsRecordsExactly` | api/src/imp/mm/shm.rs:40-177 | in every state of every run the count is the records plus all leaks so far, and so equals the records iff nothing leaked |
| `ShmLifetimes.LeakHappens` | api/src/imp/mm/shm.rs:68-79 | a run of two calls that leaks |
| `ShmLifetimes.LeakedForGood` | api/src/imp/mm/shm.rs:40-177 | so the segment stays registered in every later state |
| `ShmCalls.ShmgetIsExact` | core/src/shm.rs:282-327 | each error exactly when it is due; a known key yields its id; otherwise a new unattached, unmarked segment of the asked size rounded up to pages, found by its key |
| `ShmCalls.WriteBitDecides` | api/src/imp/mm/shm.rs:32-35 | a sane, unmarked segment may be attached iff the caller's read bit is set and, for writing, the write bit too; EACCES otherwise |
| `ShmCalls.ShmatIsExact` | api/src/imp/mm/shm.rs:50-109 | succeeds iff nothing stands in its way, an address is found and the mapping works; then count and record are as they should be; a failed call makes no record |
| `ShmCalls.ShmdtIsExact` | api/src/imp/mm/shm.rs:112-134 | EINVAL iff nothing is recorded there; otherwise the record goes, the count falls if the unmapping worked, and a marked segment leaves with its key at zero |
| `ShmCalls.RmidIsExact` | api/src/imp/mm/shm.rs:139-150 | the step of IPC_RMID marks the segment and, unattached, unregisters it with its key, and does nothing else |
| `ShmCalls.OtherCtlsAreExact` | api/src/imp/mm/shm.rs:151-176 | IPC_SET changes owner, group and mode only; IPC_STAT and unknown commands change nothing; their errors exactly |
| `ShmCalls.ExitIsExact` | api/src/imp/task/exit.rs:13-59 | an exit takes away exactly the records of its process |
| `ShmCalls.ValidationIsExact` | core/src/shm.rs:185-209 | in every run a registered segment passes validation iff it has a size, an address and at most 65536 attachments |
| `ShmCalls.RemovedIsNeverAttached` | api/src/imp/mm/shm.rs:22-28 | after IPC_RMID no later attach of that segment in the run succeeds or changes anything |
| `ShmCalls.RemovedIsNotFound` | core/src/shm.rs:299-311 | after IPC_RMID `shmget` of its key without creating answers ENOENT |
| `ShmManager.Manager.constructor` | core/src/shm.rs:245-251 | the empty manager is the initial state |
| `ShmManager.Manager.AllocId` | core/src/shm.rs:254-279 | the loop with its wrap-around is `AllocSpec` |
| `ShmManager.Manager.Shmget` | api/src/imp/mm/shm.rs:40-47 | is the `Shmget` step, and keeps the invariant |
| `ShmManager.Manager.Unregister` | core/src/shm.rs:335-345 | is `Remove` |
| `ShmManager.Manager.Validate` | api/src/imp/mm/shm.rs:22-37 | the checks in their order are `ValidateSegment` |
| `ShmManager.Manager.CheckPermissions` | core/src/shm.rs:169-182 | comparing the masked mode with the shifted mask grants access iff every single bit asked for is in the mode for owner, group or other |
| `ShmManager.Manager.Shmat` | api/src/imp/mm/shm.rs:50-109 | is the `Shmat` step, and keeps the invariant |
| `ShmManager.Manager.Shmdt` | api/src/imp/mm/shm.rs:112-134 | is the `Shmdt` step, and keeps the invariant |
| `ShmManager.Manager.Rmid` | api/src/imp/mm/shm.rs:139-150 | ENOENT iff there is no such segment; otherwise marks it, and with nobody attached unregisters it and its key; nothing else changes, and the invariant is kept |
| `FutexTable.GuardIsNeverLast` | core/src/futex.rs:52-60 | a queue with a guard has at least two owners, so the test in `drop` fails |
| `FutexTable.DropBodyKeepsInv` | core/src/futex.rs:52-60 | dropping a guard never unlinks a queue |
| `FutexTable.StepKeepsInv` | core/src/futex.rs:18-60 | every event keeps the strong count at one for the table plus one for each guard, and guards on the queue in the table |
| `FutexTable.RunKeepsInv` | core/src/futex.rs:11-60 | in every state of every run |
| `FutexTable.QueueIsPermanent` | core/src/futex.rs:18-60 | once an address has a queue it has that queue for the rest of the run |
| `FutexTable.GuardsShareTheQueue` | core/src/futex.rs:18-60 | all guards for an address, at any two moments of a run, are on one queue |
| `FutexTable.NobodyIsStranded` | core/src/futex.rs:18-60 | in every state of every run a waiting task is on a queue the table leads to, and from the same address in every later state |
| `FutexCalls.Futexes.Lookup` | core/src/futex.rs:18-24 | a guard on the queue of the address iff it has one; no task moves |
| `FutexCalls.Futexes.LookupOrInsert` | core/src/futex.rs:28-37 | a guard on the queue of the address, made if need be; no task moves |
| `FutexCalls.Futexes.DropGuard` | core/src/futex.rs:52-60 | only the guard goes; table and waiting tasks are as before |
| `FutexCalls.Futexes.Wait` | api/src/imp/futex.rs:28-41 | the caller waits iff the word has the expected value; then its task is last in the queue of its address, with a guard, and no other address is touched |
| `FutexCalls.Futexes.TimeOut` | api/src/imp/futex.rs:34-36 | only that task leaves its queue; the others keep their order |
| `FutexCalls.Futexes.WakeLoop` | api/src/imp/futex.rs:67-72 | wakes the first min(n, value) waiters in order |
| `FutexCalls.Futexes.Wake` | api/src/imp/futex.rs:42-55 | returns min(n, value), wakes those in order, and leaves other addresses alone |
| `FutexCalls.Futexes.RequeueCall` | api/src/imp/futex.rs:56-78 | wakes the first min(n, value), moves the next min(rest, value2) in order, leaves the rest, returns min(n, value + value2); EAGAIN iff the word changed, with no effect |
| `FileBytes.Splice` | api/src/imp/fs/io.rs:257-265 | a write puts its bytes at the offset, grows the file only as far as they reach with zeros in a gap, and changes no other byte |
| `FileBytes.StoredOnce` | api/src/imp/fs/io.rs:257-265 | that determines the file |
| `FileBytes.StoredTwice` | api/src/imp/fs/io.rs:257-272 | writing two pieces one behind the other is writing them joined |
| `ByteMoves.CopiedMore` | api/src/imp/fs/io.rs:240-277 | a read and a possibly short write extend a contiguous copy, byte for byte |
| `CopyInPlace.InPlaceIsRight` | api/src/imp/fs/io.rs:240-277 | within one file, whatever the chunks, the old bytes arrive and nothing else changes, if the target starts no later than the source or behind what was copied |
| `CopyInPlace.OverlapGoesWrong` | api/src/imp/fs/io.rs:240-277 | for every forward overlap there is a file and a way the reads fall with a wrong result |
| `CopyInPlace.InPlaceIsExact` | api/src/imp/fs/io.rs:240-277 | so the copy is always right iff the target starts no later than the source, or behind its end |
| `CopyInPlace.FullReadsGoWrong` | api/src/imp/fs/io.rs:240-277 | with full reads, 12288 bytes from 0 to 4096 go wrong |
| `ByteMoves.CopyFileRange` | api/src/imp/fs/io.rs:220-280 | terminates under any short transfers and never slices past its buffer; one descriptor for both is refused; between files the destination is the old one with exactly source[from..from+total] at `to`, total is at most len, and the source cursor is ahead only by the tail of the last short write; within one file through two user offsets the same holds of the old bytes if the target starts no later than the source or behind what was copied; fails only for one descriptor or a failed transfer, and stops before `len` only after a read that was asked for something and got nothing or a write that took less than it was given |
| `ByteMoves.SplicePipeToFile` | api/src/imp/fs/io.rs:342-382 | the file is the old one with exactly what came out of the pipe at the offset, less the tail of a last short write; fails only when a transfer failed, and stops before `len` only when the pipe had nothing or the file took less than it was given |
| `ByteMoves.SpliceFileToPipe` | api/src/imp/fs/io.rs:384-424 | the pipe gets exactly the file's bytes from the offset on; the offset is ahead only by the tail of a last short write; fails only when a transfer failed, and stops before `len` only at the end of the file, on an empty read or a short write |
| `ByteMoves.Readv` | api/src/imp/fs/io.rs:118-147 | the buffers end to end hold one run of the file of the returned length, with no gap before the last one touched; fails only for too many buffers or a failed read, and leaves room only after a short read |
| `ByteMoves.Writev` | api/src/imp/fs/io.rs:170-199 | the file has at its position the first `ret` bytes of the buffers end to end and every other byte as before; fails only for too many buffers or a failed write, and leaves bytes unwritten only after a short write, inside a buffer |
| `HardLinks.LowerAgrees` | api/src/path.rs:275-290 | taking a link away and lowering its target keeps the count right and removes the file iff that was the last link |
| `HardLinks.StepIsExact` | api/src/path.rs:253-290 | one operation: counts stay the numbers of links, links change as asked, and a target's file is removed iff it loses its last link |
| `HardLinks.RunIsExact` | api/src/path.rs:253-290 | after every sequence of updates and removals |
| `HardLinks.CountsForgetHistory` | api/src/path.rs:253-290 | histories that leave the same links leave the same counts |
| `HardLinks.TargetsExistExactly` | api/src/path.rs:221-290 | every link still leads to a file after an operation iff it does not unlink a path that links lead to |
| `HardLinks.LinkDangles` | api/src/path.rs:221-228 | a link and an unlink that leave a link without a file |
| `HardLinks.Manager.constructor` | api/src/path.rs:192-199 | a new manager has no links |
| `HardLinks.Manager.DecreaseRefCount` | api/src/path.rs:275-290 | lowers a count, dropping the entry and the file at zero; its precondition is that the subtraction does not underflow |
| `HardLinks.Manager.LinkUpdate` | api/src/path.rs:253-262 | is the `Update` step; the decrement meets its precondition |
| `HardLinks.Manager.LinkRemove` | api/src/path.rs:266-270 | is the `Remove` step, returns the old target, and never meets the error branch |
| `HardLinks.Manager.CreateLink` | api/src/path.rs:204-215 | both refusals exactly, without effect; otherwise an `Update` |
| `HardLinks.Manager.RemoveLink` | api/src/path.rs:221-228 | the target of a link, or the path itself if the file system removed it |
| `HardLinks.Manager.LinkCount` | api/src/path.rs:239-246 | the number of links, or else whether the file exists |
| `UserString.EndsInItsPage` | api/src/ptr.rs:36-39 | an aligned scalar never crosses a page |
| `UserString.Unreadable` | api/src/ptr.rs:55-71 | a page that may not be accessed before the terminator leaves no readable string |
| `UserString.ReadVolatile` | api/src/ptr.rs:75 | a read, required to lie wholly in accessible pages |
| `UserString.CheckPages` | api/src/ptr.rs:55-71 | checks pages up to that of the element, or stops at the first bad one |
| `UserString.CheckNullTerminated` | api/src/ptr.rs:32-84 | terminates when the address space ends; answers len iff the start is aligned, element len is the first zero, and every page from the start through that element may be accessed |
| `CLib.NumeralValue` | apps/nimbos/c/lib/stdio.c:77-79 | the digits printed stand for the number, in every base from 2 to 16 |
| `CLib.NumeralIsShort` | apps/nimbos/c/lib/stdio.c:77-79 | with no leading zero, but for zero itself |
| `CLib.FitsTheBuffer` | apps/nimbos/c/lib/stdio.c:64-83 | no 64-bit number needs more than the twenty characters, sign included |
| `CLib.FillDigits` | apps/nimbos/c/lib/stdio.c:77-79 | the backward loop writes exactly the numeral and ends where it starts |
| `CLib.PrintInt` | apps/nimbos/c/lib/stdio.c:62-85 | prints the numeral with its sign, without underrunning the buffer |
| `CLib.AccumulateDigits` | apps/nimbos/c/lib/string.c:37-38 | the negative accumulator stays an `int` iff its final value is one |
| `CLib.Atoi` | apps/nimbos/c/lib/string.c:27-40 | yields the number written, overflowing iff that number is no `int` |
| `CLib.ParseUndoesPrint` | apps/nimbos/c/lib/string.c:27-40 | parsing what was printed gives the number back, for every `long long` |
| `CLib.PrintThenParse` | apps/nimbos/c/lib/stdio.c:62-85 | for every `int`, print then parse is the identity with no overflow and no underrun |
| `CLib.FillEnds` | apps/nimbos/c/lib/string.c:59-74 | the stores at both ends cover everything up to eight bytes, and four bytes at each end beyond |
| `CLib.Memset` | apps/nimbos/c/lib/string.c:50-90 | for every length and alignment exactly the n bytes are set, although the middle loop is cut to a multiple of four |
| `Stdio.BufferHasRoom` | apps/nimbos/c/lib/stdio.c:41-60 | in every state of every run the buffer has room for one more character and holds no complete line |
| `Stdio.OutputIsExact` | apps/nimbos/c/lib/stdio.c:18-60 | in every state of every run what was written and then the buffer is what was put out iff every write was complete |
| `Stdio.WritesAreExact` | apps/nimbos/c/lib/stdio.c:32-60 | a character is kept back unless it ends a line or is the 256th, then the whole line goes; a flush writes what is there; after a write the buffer is empty |
| `Stdio.ShortWriteLoses` | apps/nimbos/c/lib/stdio.c:49-57 | a short write that loses the end of a line |
| `Stdio.Stdout.constructor` | apps/nimbos/c/lib/stdio.c:13-14 | the empty buffer is the initial state |
| `Stdio.Stdout.PutChar` | apps/nimbos/c/lib/stdio.c:47-57 | the body of the loop is the `Put` event and never stores past the buffer |
| `Stdio.Stdout.Out` | apps/nimbos/c/lib/stdio.c:41-60 | the call is a series of such events on a prefix of its text, all of it unless a write failed; it returns what the kernel took, or the failure |
| `Stdio.Stdout.Fflush` | apps/nimbos/c/lib/stdio.c:32-37 | is the `Flush` event; it reports failures only |

## Left out

- PipeRuns.RunKeepsInv: dropping the last reference to a pipe end and the decrement of the ring's count are one event, and so is a locked section together with the `closed()` it reads.
- PipeRuns.StreamIsPreserved: says nothing of POSIX's PIPE_BUF atomicity, which the code does not provide.
- DescriptorCalls.Kernel.AddFile: which free slot is used is the choice of `FlattenObjects`, which is not part of this model; the fault of a bad `fds` pointer of `pipe2` is left out too.
- SelectCall.UserMemory.SysSelect: user sets that overlap without being equal, a fault on the timeout pointer, and pointers that become invalid between rounds are not modelled.
- Multiplex.PollFds: the polling loop and the timeouts of `poll` and `epoll_wait` are those of `select` and are not repeated.
- Getdents.Directory.Getdents64: an error of `read_dir` in the middle of a call is not modelled.
- ShmRuns.RunKeepsInv: each call is one event, and so is the exit of a process; times, the last pid and the contents copied by IPC_STAT are not part of the state.
- ShmManager.Manager.Shmget: has no code for a dangling key, since no reachable state has one.
- FutexTable.NobodyIsStranded: says nothing of a wake-up between the value check of FUTEX_WAIT and the wait; the code does not exclude it. The table itself is a transition system on values.
- FutexCalls.Futexes.RequeueCall: the result is stated for two different addresses; moving a queue onto itself is up to `WaitQueue`, which is not part of this model.
- ByteMoves.CopyFileRange: contents and cursors are stated for two different inodes, and for one inode when both user offsets are given; when one inode is read or written at a shared file position only termination and the bounds are. Both user offsets are taken to be different variables, and never negative.
- ByteMoves.Readv: faults of the user buffers and a descriptor closed in the middle of the call are not modelled.
- HardLinks.Manager.DecreaseRefCount: whether the file system manages to remove a target is not looked at, as in its callers; the class keeps no set of files, `TargetsExistExactly` speaks about one beside it.
- UserString.CheckNullTerminated: elements are scalars of 1 to 16 bytes, which covers both uses; pages are not unmapped while the search runs.
- CLib.PrintInt: bases are 10 to 16, which covers all callers; negating the smallest `long long` wraps.
- Stdio.Stdout.Out: the case of a descriptor other than standard output is a plain write and is not modelled.
- `strlen`, `strcmp` and the other C routines: easy members.
- Sockets, signals, `mmap`, `clone`, `exec`, `wait`, path canonicalisation and the syscall table: their behaviour lives in crates outside the repository, or they only add easy members.
