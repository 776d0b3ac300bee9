# Verification of the aesdchar device and the aesdsocket server

This project models, in Dafny 4.11, the stateful parts of the repository and proves what they
promise. `dafny verify dfyconfig.toml` checks all of it.

- `Bytes`, `CommandLog`: a byte stream cut at its newlines, and what a device of capacity n holds
  after it. This is the specification of the driver.
- `RingBuffer`, `FlatView`, `CharDevice`: the circular buffer with its reused storage, the view of its
  commands as one flat string, and the driver's read, write, seek and ioctl seek on open files. The
  invariant of `AesdDevice` says that ring and cache are what the bytes written so far determine, so it
  holds after every run. The capacity is a parameter from 1 to 255; the module's own device has ten slots.
- `Writers`: any number of writers that share the device, one critical section per fragment.
- `LockedFile`, `ClientHandler`: the locked file over a regular file or over the device, and a worker's
  whole exchange with its client.
- `FileProtocol`: all interleavings of client workers and timestamps on the log file, one system call a step.
- `IntrusiveList`: the doubly linked list as heap objects, with the set of live heap blocks.
- `ClientPool`: the accept loop that scans, joins and reuses client slots, against workers that publish
  their status at any moment.
- `Machine`: the wrap-around conversions of the source's integer types.

Where the code and its comments disagree the model follows the code:

- `in_offs` is documented as the place of the next write (aesd-char-driver/aesd-circular-buffer.h:40-44);
  the code keeps the slot written last there.
- `full` is documented as set when the structure is full (aesd-char-driver/aesd-circular-buffer.h:49-52);
  the code sets it when `in_offs` first wraps, one command later.

Claims one would expect, but which the code does not meet, are settled by an exact condition:

- Lookup is exact if and only if the last command starts within `int` range (`FlatView.LookupExactIff`).
- The ioctl seek takes the command number for a slot number, which is right if and only if the sizes do
  not change under the ring's rotation (`CharDevice.SeekRightIff`, `CharDevice.WrappedSeekGoesWrong`,
  `CharDevice.SeekOnWrappedRing`).
- The log file is what the write calls took if and only if none of them starts before the end of the
  file. Only timestamps can, and only after a reply was broken off by its callback or by a failing read.
  It consists of whole buffers if and only if, besides, no write fails after taking a part of its buffer
  (`FileProtocol.LogIntactIff`, `FileProtocol.OnlyTimestampsSpoil`, `FileProtocol.TimestampCanSpoilIff`, and
  one run for each failure).
- Unless an error stops it, a range read ends if and only if its end is not after its start, or the range
  lies within the contents and the buffer has room (`LockedFile.SafeFile.ReadChunks`,
  `LockedFile.OtherwiseItNeverEnds`).
- Inserting into an empty list works if and only if the item's own links are null
  (`IntrusiveList.List.InsertFirst`).
- Appending a string is all or nothing, while memory lasts, if and only if the string is not null and its
  length not negative: what cannot be stored is not rolled back (`IntrusiveList.List.PushBackString`).

The environment enters as follows. User buffers are byte sequences. Memory and regular files may fail or
be short at will (nondeterministic choices in `Descriptor`, and in `Heap` unless it is `reliable`);
allocations inside the driver succeed, and a zero-size allocation is not null. A callback is an object that records what it is handed
(`ReplySink`), a function of the call's number (`FindIf`, `ForEach`), or its status and the bytes it
leaves (`Construction`). Locks, thread creation and joins succeed.

## Model

| member | source | states |
|---|---|---|
| `Bytes.CutCharacterised` | aesd-char-driver/main.c:246-264 | the cut of a stream at its newlines, used as specification, is the only way to write it as newline-terminated commands with one newline each followed by a newline-free rest |
| `Bytes.CutResumes` | aesd-char-driver/main.c:246-264 | cutting may stop anywhere and resume from the rest: where a chunk ended leaves no trace |
| `CommandLog.FragmentsCover` | aesd-char-driver/main.c:246-264 | the pieces one write is cut into cover its buffer; all but the last are commands, and the last is a command or a newline-free rest |
| `CommandLog.CommitExtendsStream` | aesd-char-driver/main.c:105-188 | one critical section (extend the cache, or finish a command and store it) keeps the device equal to the observation of the longer stream |
| `CommandLog.CommitAllExtendsStream` | aesd-char-driver/main.c:246-264 | so does any sequence of critical sections |
| `CommandLog.RunDependsOnStreamOnly` | aesd-char-driver/main.c:197-270 | after any run of writes, cut anywhere, ring and cache depend only on the concatenated stream: the cache is what follows the last newline, the ring the last n commands |
| `CommandLog.StreamIsConserved` | aesd-char-driver/main.c:146-188 | evicted, retained and cached bytes, in this order, are exactly the bytes written; the ring holds min(n, finished) commands, each with one newline, at its end |
| `CommandLog.StoredBytesBounded` | aesd-char-driver/main.c:146-188 | a write makes the ring hold at most the bytes stored, cached and written |
| `FlatView.LocateInverts` | aesd-char-driver/aesd-circular-buffer.c:72-102 | reference lookup inverts concatenation: it returns command k and offset d exactly when d lies inside k and the bytes before k plus d are the position; nothing exactly at or past the total |
| `FlatView.LookupFromExact` | aesd-char-driver/aesd-circular-buffer.c:75-101 | with the 32-bit signed accumulator and the comparisons in size_t, the scan finds what the reference lookup finds while every command starts within int range |
| `FlatView.LookupMisses` | aesd-char-driver/aesd-circular-buffer.c:77-94 | the first command that starts beyond int range is looked up wrongly |
| `FlatView.LookupExactIff` | aesd-char-driver/aesd-circular-buffer.c:72-102 | the lookup is right for all offsets if and only if the last command starts at most at 2^31-1 |
| `FlatView.LookupCanMiss` | aesd-char-driver/aesd-circular-buffer.c:77-94 | two commands for which it is wrong: the second starts at 2^31, and its first byte is not found |
| `FlatView.ReadFollowsLookup` | aesd-char-driver/main.c:74-92 | a read takes its bytes from the command that lookup finds and stops at its end |
| `FlatView.ReadAtIsRead` | aesd-char-driver/main.c:74-92 | a read delivers the next bytes of the flat string, at most count of them, and none exactly at the end or for count 0 |
| `FlatView.DriverReadExact` | aesd-char-driver/main.c:74-92 | while at most 2^31-1 bytes are stored, the driver's read and its int result are exact |
| `FlatView.ReadRunIsSlice` | aesd-char-driver/main.c:47-98 | repeated reads with any counts deliver the string from the start position, without gap or repetition |
| `FlatView.ReadRunCompletes` | aesd-char-driver/main.c:47-98 | every read with a positive count makes progress, so one read per remaining byte delivers everything |
| `FlatView.DeviceReadsDeliver` | aesd-char-driver/main.c:47-98 | both, for reads of the driver through its own lookup, which stop at command boundaries, while at most 2^31-1 bytes are stored |
| `FlatView.SeekPosMeans` | aesd-char-driver/main.c:336-353 | the position of byte d of command k is the number of bytes before the command, plus d |
| `FlatView.SeekInvertsLookup` | aesd-char-driver/main.c:336-353 | seeking to (command, offset) and looking up the position undo each other |
| `FlatView.PositionReachedOnce` | aesd-char-driver/main.c:336-353 | every position below the total is reached by exactly one pair |
| `FlatView.SeeksAgreeIff` | aesd-char-driver/main.c:336-353 | two command lists take all 32-bit seeks to the same positions if and only if their sizes agree one by one |
| `RingBuffer.AddRefinesAppend` | aesd-char-driver/aesd-circular-buffer.c:118-154 | writing the slot after the newest and moving the read index past the oldest is, in logical order, append and keep the last N |
| `RingBuffer.SlotNumberIsModulo` | aesd-char-driver/aesd-circular-buffer.c:118-130 | an index that steps by one and wraps is the count of steps modulo N |
| `RingBuffer.SlotOfCommand` | aesd-char-driver/aesd-circular-buffer.c:118-130 | of the last N commands, number j lies in slot j mod N |
| `RingBuffer.CircularBuffer.constructor` | aesd-char-driver/aesd-circular-buffer.c:161-165 | an empty ring, for any capacity from 1 to 255 |
| `RingBuffer.CircularBuffer.AdvanceIndices` | aesd-char-driver/aesd-circular-buffer.c:118-130 | both indices and both flags are functions of the number of commands added; the slot for the next command is that number modulo N, which is the first free slot, or the oldest command's when all are taken |
| `RingBuffer.CircularBuffer.Store` | aesd-char-driver/aesd-circular-buffer.c:132-154 | slot i holds the data, all other slots keep theirs, exactly the occupied slots have storage, no two share it, and storage that is large enough is reused in place |
| `RingBuffer.CircularBuffer.AddEntry` | aesd-char-driver/aesd-circular-buffer.c:111-156 | the representation invariant is kept and the commands in logical order are the last N of the old ones followed by the new one |
| `RingBuffer.CircularBuffer.FindEntryOffsetForFpos` | aesd-char-driver/aesd-circular-buffer.c:72-102 | returns the physical slot and byte offset of the position, or nothing, exactly as the scan in logical order with the wrapping accumulator says |
| `RingBuffer.CircularBuffer.CopyOut` | aesd-char-driver/main.c:74-85 | the bytes a read copies out are those of the command found, from the offset to its end or to count |
| `RingBuffer.CircularBuffer.TotalSize` | aesd-char-driver/main.c:284-286 | the sum over physical slots is the length of the flat string in logical order |
| `RingBuffer.CircularBuffer.AdjustOffset` | aesd-char-driver/main.c:327-350 | the seek loop reaches slot writeCmd exactly when it is occupied and the offset lies inside, and then yields the bytes in the slots before it plus the offset |
| `CharDevice.AesdDevice.constructor` | aesd-char-driver/main.c:420-443 | a device that has been written nothing |
| `CharDevice.AesdDevice.AddToCache` | aesd-char-driver/main.c:100-144 | the unfinished line grows by the fragment; the stream invariant is kept; the position moves by the fragment's length |
| `CharDevice.AesdDevice.WriteWithCache` | aesd-char-driver/main.c:146-195 | the cached line and the fragment become one command in the ring, the cache is emptied, the stream invariant is kept; the position moves by the whole command |
| `CharDevice.AesdDevice.WriteFragments` | aesd-char-driver/main.c:242-264 | the critical sections a write goes through are those of the fragments of its buffer, in order, and leave the device in the state these lead to one after the other; the position moves by count, plus the old cache if the buffer has a newline |
| `CharDevice.OpenFile.Write` | aesd-char-driver/main.c:197-270 | empty buffers and files without a device are answered as in the source; otherwise all bytes are taken, the stream grows by exactly them, and the critical sections by the buffer's fragments |
| `CharDevice.OpenFile.Read` | aesd-char-driver/main.c:47-98 | delivers what the driver's lookup selects, advances the position by that many bytes and returns the number as an int |
| `CharDevice.OpenFile.LLSeek` | aesd-char-driver/main.c:272-317 | the position becomes the offset, counted from the start, from where it was, or from the end of the stored bytes, exactly if that lies in [0, total]; otherwise, and for any other whence, -EINVAL and an unchanged position |
| `CharDevice.UnsignedAbove` | aesd-char-driver/main.c:290-293 | an unsigned comparison with the total rejects negative and too large targets alike |
| `CharDevice.WrappedEnd` | aesd-char-driver/main.c:296 | the same for the sum that wraps around modulo 2^64 before it is compared |
| `CharDevice.AesdDevice.SlotsFollowStream` | aesd-char-driver/main.c:336 | which slot holds which command is a function of the bytes written |
| `CharDevice.SlotsHoldByNumber` | aesd-char-driver/main.c:336 | of the last N commands of the stream, number j is in slot j mod N |
| `CharDevice.OpenFile.AdjustFileOffset` | aesd-char-driver/main.c:319-359 | succeeds exactly for an occupied slot and an offset inside it, and leaves the position alone otherwise; which slots those are follows from the bytes written; whenever the read index is 0, slots are command numbers |
| `CharDevice.OpenFile.Ioctl` | aesd-char-driver/main.c:361-388 | a seek command succeeds exactly for an occupied slot and an offset inside it, and then the position is the number of bytes in the slots before it plus the offset; one that fails leaves it where it was |
| `CharDevice.SeekRightIff` | aesd-char-driver/main.c:336-350 | after any bytes written, seeks are right for all command numbers and offsets if and only if at most N commands have been written, or the sizes of the last N do not change when rotated by their number modulo N |
| `CharDevice.WrappedSeekGoesWrong` | aesd-char-driver/main.c:336-350 | on a ring of any two slots or more, filled with short lines and then written a long one: byte 2 of the newest command is refused, byte 2 of the oldest is found though it has none, and byte 0 of command 1 is sought one byte too late |
| `CharDevice.WriteWrappingStream` | aesd-char-driver/main.c:197-270 | n + 1 writes bring any fresh device of n slots there, the module's own among them |
| `CharDevice.SeekOnWrappedRing` | aesd-char-driver/main.c:319-388 | its files then answer the seek to byte 2 of the newest command with -EINVAL |
| `CharDevice.InitModule` | aesd-char-driver/main.c:420-443 | the module's device has ten slots and holds nothing |
| `Writers.InterleavingIsSequential` | aesd-char-driver/main.c:105-191 | every interleaving of any number of writers leaves the device a sequential run of the fragments in commit order leaves, and every stored command has its one newline at the end |
| `Writers.WriterIsServed` | aesd-char-driver/main.c:246-264 | each writer's fragments are committed in order, and together are its data once it has finished |
| `Writers.WholeLinesStayWhole` | aesd-char-driver/main.c:146-191 | writers that write one whole line per call are never mixed: the ring holds whole buffers and the cache is empty |
| `Writers.WriterCanFinish` | aesd-char-driver/main.c:246-264 | from every reachable state a writer can commit all that is left of its data by its own steps alone, in order |
| `Writers.NewWriterCanFinish` | aesd-char-driver/main.c:197-270 | so can a new one, with any data |
| `LockedFile.OverwriteAppendsIff` | server/safefile.c:266-281 | a write at a position inside the file appends if and only if it is empty or starts at the end of the file |
| `LockedFile.OverwriteAt` | server/safefile.c:271 | a write changes the bytes it covers and no others, and fills a gap before it with zeros |
| `LockedFile.AfterTwice` | server/safefile.c:269-281 | writing a buffer in two pieces is writing it at once, on a regular file and on the device |
| `LockedFile.SeekResultMeans` | server/safefile.c:236 | a seek ends up at its offset, counted from the start, the current offset or the end, if that is not negative and, on the device, not beyond the contents |
| `LockedFile.Descriptor.Lseek` | server/safefile.c:236 | a device accepts targets in [0, total], a regular file all that are not negative |
| `LockedFile.Descriptor.Ioctl` | server/aesdsocket.c:354-358 | a seek command moves the device's offset to the byte named, if there is one; a regular file refuses it |
| `LockedFile.ReplyGrows` | server/safefile.c:391-417 | one iteration of the read loop, with its unsigned comparison, extends the reply by the next bytes of the range, makes progress, and ends the loop only when the range is complete |
| `LockedFile.OtherwiseItNeverEnds` | server/safefile.c:391-417 | the precondition of the next rows is exact: on a range that reaches beyond the contents, or with an empty buffer, no number of successful reads ends the loop |
| `LockedFile.SafeFile.ReadChunks` | server/safefile.c:388-417 | the loop terminates; the callback gets pieces of at most buffsize bytes which are the range, or a prefix of it after an error; a range that ends before it starts gets exactly one piece; every call but the last succeeded; the error says a refusal if and only if the last call was refused, and is positive if and only if a read failed |
| `LockedFile.ReplyMeans` | server/safefile.c:388-417 | what the callback is handed is a prefix of the range, in order, and all of it once the reply is complete |
| `LockedFile.ResolveMeans` | server/safefile.c:370-386 | the end of a range is sought from its start |
| `LockedFile.SafeFile.SeekRange` | server/safefile.c:367-386 | the offset stands at the start of the range, or the first seek that fails is reported |
| `LockedFile.SafeFile.ReadRange` | server/safefile.c:330-423 | the lock is free again on every path; over the device, whose reads stop at command boundaries, a range within its contents is delivered completely unless the callback refuses; success means that no seek, no read and no callback failed |
| `LockedFile.SafeFile.Write` | server/safefile.c:252-285 | repeats short writes until the whole buffer is taken; it fails if and only if a write call failed, which was the last, and then a prefix was taken |
| `LockedFile.SafeFile.SeekAndWrite` | server/safefile.c:426-461 | under one lock the file becomes its old contents with the buffer at the position sought; it fails if and only if the seek or a write call did; the lock is free again on every path |
| `ClientHandler.AppendAtEnd` | server/aesdsocket.c:377 | logging at the end of a regular file appends; the device appends wherever its offset is |
| `ClientHandler.LogPacket` | server/aesdsocket.c:371-390 | a packet is appended unless it is empty, and the file stays within the sizes reads can handle; it fails if and only if a write call failed |
| `ClientHandler.SendLog` | server/aesdsocket.c:405-408 | the client gets the whole file in pieces of at most 256 bytes, or a prefix of it exactly when a read or the callback failed |
| `ClientHandler.HandleClient` | server/aesdsocket.c:310-427 | the status is terminal, and success if and only if a packet was received, no write or read call failed and no callback refused; on success the reply is the whole log with the client's packet in it, which over the device is its last finished commands; a failed write leaves the old file followed by a prefix of the packet |
| `ClientHandler.HandleSeekCommand` | server/aesdsocket.c:348-422 | a seek command is answered with the log from the byte sought on, or from where the offset was if the device refuses the seek; while the ring has not wrapped that is the rest of the command named and all later ones; it succeeds exactly from within the contents and if no callback refuses |
| `FileProtocol.LogIntactIff` | server/aesdsocket.c:200-243 | in every interleaving, with reads, writes and callbacks that may fail: whenever the lock is free, the file is what the write calls took in lock order if and only if none of them started before the end of the file; it is the logged buffers if and only if, besides, no write failed after taking a part of its buffer |
| `FileProtocol.OffsetAtEndUnlessReplyFailed` | server/safefile.c:442-460 | in a run without a failing read and a refused callback, a free lock means that the offset stands at the end of the file and the log is intact |
| `FileProtocol.ReplyIsLogPrefix` | server/aesdsocket.c:377-408 | a complete reply is a prefix of the log and holds the client's own packet; it is made of whole buffers unless a write failed after taking a part of its buffer |
| `FileProtocol.LoggedOnce` | server/aesdsocket.c:377-390 | every thread has at most one entry in the log, a piece of its own buffer; a client served and a timestamp written have their whole buffer there |
| `FileProtocol.FinishedWellIff` | server/aesdsocket.c:377-421 | a thread that has ended succeeded if and only if none of its own writes, reads and callbacks failed |
| `FileProtocol.ClientCanBeServed` | server/aesdsocket.c:377-421 | from every reachable state with a free lock, a client that waits to write or to read can be served to the end by its own steps alone; its reply is then the whole file, with its packet at the end, and the log unless that is spoiled |
| `FileProtocol.NewClientCanBeServed` | server/aesdsocket.c:310-421 | so can a new client with any packet, which its reply then ends with |
| `FileProtocol.TimestampCanBeWritten` | server/aesdsocket.c:214-233 | from there a timestamp can be appended, if the offset stands at the end of the file |
| `FileProtocol.OnlyTimestampsSpoil` | server/aesdsocket.c:214-233 | the step with which a write first starts before the end of the file is a timestamp's, and a read or a callback has failed before |
| `FileProtocol.StrayOffsetCanSpoil` | server/aesdsocket.c:214-233 | every run that ends with a free lock and the offset inside the file goes on, with four steps of one new timestamp and nothing else, to a free lock and a file that has lost logged bytes |
| `FileProtocol.TimestampCanSpoilIff` | server/aesdsocket.c:214-233 | from an intact log with the lock free, a new timestamp alone can destroy logged bytes if and only if the offset stands inside the file |
| `FileProtocol.CallbackFailureCanSpoil` | server/safefile.c:410-414 | a run in which a callback that fails on the first byte it is handed leads there |
| `FileProtocol.ReadFailureCanSpoil` | server/safefile.c:401-406 | a run in which a read that fails leads there |
| `FileProtocol.WriteFailureCanCut` | server/safefile.c:269-277 | a run in which a write fails after a part of its buffer, and the log is not whole though no offset strayed |
| `FileProtocol.StepKeepsInv` | server/safefile.c:362-460 | the invariant under every step of every thread |
| `IntrusiveList.Heap.SetStruct` | server/list.c:713-743 | small structs are copied into the item, large ones into a block of their own; every error leaves the heap as it was |
| `IntrusiveList.Heap.EmplaceStruct` | server/list.c:745-774 | the constructor's status is returned; whatever it is, the heap has grown by exactly the block the item's type says it owns |
| `IntrusiveList.Heap.SetString` | server/list.c:636-671 | strings with their terminator are kept inline below pointer size and in a block otherwise; an error leaves the item unchanged; strings that fit inline always succeed, and all others while memory lasts |
| `IntrusiveList.List.AddListItem` | server/list.c:74-112 | the abstract sequence grows by a new empty item, or nothing changes; the links stay well formed; the live blocks grow by exactly the node |
| `IntrusiveList.List.AppendLinks` | server/list.c:95-107 | the links spell out the sequence with the item at its end |
| `IntrusiveList.List.Unlink` | server/list.c:329-365 | next, prev, first, last and size are those of the sequence without the member, wherever it stood |
| `IntrusiveList.List.RemoveItem` | server/list.c:322-370 | the member leaves the sequence; exactly its node and the block its type says it owns are freed, once |
| `IntrusiveList.List.Clear` | server/list.c:413-443 | terminates with an empty list and nothing of the list left on the heap |
| `IntrusiveList.List.PushBack` | server/list.c:490-507 | all or nothing: on success the struct is the last item's payload, on any error sequence and live blocks are as before |
| `IntrusiveList.List.EmplaceBack` | server/list.c:471-488 | all or nothing, whatever the constructor returns and wherever the payload was |
| `IntrusiveList.List.PushBackString` | server/list.c:197-209 | on success the string is the last item's payload; a string that cannot be stored gives status 1 and leaves an empty item behind; that takes a null string, a negative length, or no memory for a string of 7 bytes or more; while memory lasts the call is all or nothing if and only if the string is not null and its length not negative |
| `IntrusiveList.List.LinkBefore` | server/list.c:685-707 | the links spell out the sequence with the item before member k |
| `IntrusiveList.List.InsertFirst` | server/list.c:697-707 | inserted into an empty list, the item makes a well-formed list if and only if its own links were null |
| `IntrusiveList.InsertLinkedItem` | server/list.c:697-707 | an item whose prev is not null, inserted into an empty list, after which the links are wrong |
| `IntrusiveList.List.Insert` | server/list.c:673-710 | insertion before any member on the abstract sequence; no position is an error unless the list is empty; the item's blocks become the list's |
| `IntrusiveList.List.OwnsWithout` | server/list.c:339-367 | without member k there is exactly that much less to free, and what remains is still separate |
| `IntrusiveList.List.OwnsInserted` | server/list.c:673-710 | with an item inserted there is exactly that much more to free |
| `IntrusiveList.List.Perform` | server/list.c:322-507 | one call of the interface: what it appends, removes or leaves alone, and that only a lack of memory can make a proper append fail |
| `IntrusiveList.List.PerformAllAndClear` | server/list.c:322-507 | over every history of struct, emplaced and string appends, removals and clears, successful or not, the live blocks are the others plus the list's nodes and payload blocks; after a final clear only the others are left |
| `IntrusiveList.List.FindIf` | server/list.c:777-810 | the first item on which the callback succeeds with true, null with the first error before that, or null if there is neither |
| `IntrusiveList.List.ForEach` | server/list.c:538-557 | visits exactly the items up to and including the first error |
| `ClientPool.RewriteOnlyAfterJoin` | server/aesdsocket.c:607-632 | when a slot is rewritten, every thread that ever worked on it has exited and been joined, and its status is terminal |
| `ClientPool.OneWorkerPerSlot` | server/aesdsocket.c:620-631 | no slot ever has two live threads |
| `ClientPool.WorkerSeesItsClient` | server/aesdsocket.c:134-156 | while a thread lives its slot holds the client it was created for |
| `ClientPool.JoinedExactlyOnce` | server/aesdsocket.c:469-471 | no thread is joined twice, and after the signalled exit every accepted client's thread has been joined exactly once |
| `ClientPool.ScanChoosesServed` | server/aesdsocket.c:158-175 | the scan chooses a slot if and only if the slot's worker has published its outcome |
| `ClientPool.JoinsOnlyServed` | server/aesdsocket.c:617-620 | the main thread only waits for a worker that has published its outcome |
| `ClientPool.OutstandingIsUnserved` | server/aesdsocket.c:532-639 | the clients outstanding are those accepted less those whose worker has published its outcome |
| `ClientPool.GrowsOnlyWhenAllBusy` | server/aesdsocket.c:596-639 | a slot is appended only if, at the earlier state in which the scan under way began, every slot had a worker still at work, although the scan is not atomic |
| `ClientPool.PeakIsReached` | server/aesdsocket.c:596-639 | the recorded peak is the number of outstanding clients at some state of the run |
| `ClientPool.PoolWithinPeak` | server/aesdsocket.c:596-639 | the pool is never larger than the number of clients accepted and not yet served at some point of the run |
| `ClientPool.NextClientCanBeServed` | server/aesdsocket.c:532-650 | whenever the main thread is idle, the next client can be accepted, be given a worker of its own and be served with any outcome, and the main thread is idle again |
| `ClientPool.IdleServerCanStop` | server/aesdsocket.c:443-471 | a signal can stop the server, after it has joined every thread |
| `ClientPool.StepKeepsInv` | server/aesdsocket.c:532-650 | the invariant under every step of the main thread and of every worker |

## Left out

- CharDevice.OpenFile.Write: -EFAULT and -ENOMEM answers are not modelled: user memory is readable and the driver's allocations succeed. The file position is unbounded, because its 64-bit wrap-around needs 2^63 bytes written.
- CharDevice.OpenFile.Read: -EFAULT answers are not modelled: user memory is writable.
- CharDevice.AesdDevice.AddToCache: the -ENOMEM answer of a failing allocation, after which the source still moves the file position, is not modelled.
- CharDevice.AesdDevice.WriteWithCache: the cache is owned bytes, so the lifetime of the block that the reallocation may move is not modelled; nor is a failing reallocation, after which the source adds an uninitialised size to the file position.
- CharDevice.InitModule: registration of the device number and of the character device, and their failure, are not modelled.
- CharDevice.OpenFile.LLSeek: requires a total below 2^63 and no signed overflow of position plus offset, which the source leaves undefined.
- RingBuffer.CircularBuffer.AddEntry: a null buffer or entry is not modelled; references are not null here.
- LockedFile.SafeFile.ReadChunks: over the device at most 2^31-1 bytes may be stored, because beyond that the result of the driver's read no longer fits its `int`.
- LockedFile.SafeFile.ReadRange: ranges on which the loop never ends (`LockedFile.OtherwiseItNeverEnds`) are excluded; offsets are kept within 2^61 so that no `off_t` sum overflows; over the device at most 2^31-1 bytes may be stored.
- LockedFile.SafeFile.Write: one write call takes at most 0x7ffff000 bytes, as on Linux, so that the count fits the `int` result.
- ClientHandler.HandleClient: covers packets that are no seek command; parsing a packet is left out, and `fdatasync` changes neither contents nor offset.
- ClientHandler.HandleSeekCommand: holds while no other thread moves the offset between the ioctl and the read, which in the source are not one critical section.
- IntrusiveList.List.RemoveItem: the payload is freed after the ends are repaired rather than before; the two do not touch the same memory.
- FileProtocol.LogIntactIff: seeks and locking never fail; the lock is released by the thread that took it.
- ClientPool.JoinedExactlyOnce: runs in which thread creation or a join fails end the program and are not modelled; nor is the destruction of the file before the threads are joined.
- `sendcallback` resends from the start of its buffer after a partial send; it is abstracted to "accepted" or "failed".
- `safe_file_read`, error texts and errno bookkeeping.
- `list_item_get_digit` (it reads the byte member) and the other one-field getters, setters and pushes; overwriting an item that already owns a payload.
- Module removal, open and release, ioctl decoding.
- Sockets, signals, daemonising, timers, syslog and the `safelist` wrapper around a mutex.
- `finder-app`, `examples`, scripts and student tests.
