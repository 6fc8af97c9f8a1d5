# Verification of the AESD character driver, its tail queues and the socket server's log

This project models, in Dafny, the parts of the repository where state is hardest to follow, and proves
what they guarantee:

- **The character driver** (`aesd-char-driver/`). Byte chunks of any size collect in a growable pending
  block, are cut at newlines into blocks of their own, and go into a ring of ten slots that frees the
  oldest. Reads, the SEEKTO ioctl and llseek see the ring as one flat byte string. `CharDevice.dfy` and
  `CircularBuffer.dfy` are classes that work in place as the C code does, over a kernel heap
  (`KernelHeap.dfy`) in which every access asks for a live block. `DeviceSpec.dfy` says what each call
  promises on plain values: a device is the list of all commands ever stored and the bytes still waiting
  for a newline, and the ring is the last ten of that list. Every method of the class is proved to do
  exactly that, on every way out; `WholeRun.dfy` and `Seeking.dfy` prove what follows for whole runs, and
  `Returns.dfy` what each return value tells the caller.
- **Concurrent callers.** `Interleaving.dfy` cuts each call into its kernel calls and loop rounds;
  `Linearizable.dfy` lets any number of threads interleave them and proves every execution equivalent to
  the calls run whole, in the order they got the lock.
- **The tail queues** (`server/queue.h`). `Tailq.dfy` and `Stailq.dfy` rewrite the pointers as the macros
  do, for lists of any length, including concat, swap and the reading of an entry as a head.
- **The server** (`server/aesdsocket.c`). `SharedLog.dfy` is the interleaving of client and timestamp
  threads on the shared file; `DeviceRun.dfy` has the seek reply end to end over the driver.

How the pieces hang together: `AesdDevice.Valid` ties the ghost `view` (a `DeviceSpec.Device`) to the ring
slots, the pending block and the heap. So a contract such as `(view, r) == WriteSpec(old(view), buf, f)`,
together with `Valid`, fixes the slots, their bytes, the pending bytes and the set of allocated blocks.

What fails is a parameter, never an assumption: `WriteFaults.mallocs` is the number of command allocations
that succeed before one fails, `ReadFaults.copies` the same for user copies, and flags stand for an
interrupted lock wait, a failed growth of pending and a faulting copy. Whether a shrinking realloc succeeds
or moves the block, and how much of a faulting copy arrives, is left open inside `KernelHeap`. A freed
address may be handed out again.

Three facts of the code that its comments do not tell:

- A write can return -ENOMEM and still have been accepted: once its bytes are in pending they stay there,
  some of its commands may already be in the ring, and the rest follow with the next successful write.
  `WholeRun.UnchangedIff` says exactly when a failed write changed nothing, and `WholeRun.RetryStoresTwice`
  what a caller gets who repeats it.
- The header promises that the search finds every byte of the stored entries. The ring accepts entries of
  size 0, and the search stops at the first of them: `CircularBuffer.SearchFindsAllIff` gives the exact
  condition and `CircularBuffer.SearchMissesExample` an input. The driver never stores such an entry, so
  for it the search is exact (`Seeking.SearchIsExact`).
- A read that faults leaves the position alone although earlier bytes may have been copied.

## Model

| member | source | states |
|---|---|---|
| Lines.FirstNewline | aesd-char-driver/main.c:124-130 | the first newline: none before it, and one there unless the end is reached |
| Lines.CutRebuilds | aesd-char-driver/main.c:120-160 | the commands and the tail of a stream, laid end to end, are the stream |
| Lines.CutShape | aesd-char-driver/main.c:124-132 | every piece ends in its only newline, the character '\n', and the tail has none |
| Lines.CutUnique | aesd-char-driver/main.c:120-170 | there is no other way to write a stream as commands and a newline-free tail |
| Lines.CutAppend | aesd-char-driver/main.c:107-170 | cutting a + b is cutting a, then a's tail followed by b |
| Lines.CutCountsNewlines | aesd-char-driver/main.c:118-132 | there are as many commands as newlines |
| Lines.LastNAppend | aesd-char-driver/aesd-circular-buffer.c:126-137 | keeping the last n after each of two batches is keeping the last n of both |
| FlatIndex.LocateSound | aesd-char-driver/aesd-circular-buffer.c:73-88 | a place the scan finds sums up to the offset asked for |
| FlatIndex.LocateComplete | aesd-char-driver/aesd-circular-buffer.c:73-88 | the scan finds every place that has no empty entry before it |
| FlatIndex.LocateDomain | aesd-char-driver/aesd-circular-buffer.c:73-90 | the scan succeeds exactly below the total of the entries before the first empty one |
| FlatIndex.PlaceSlice | aesd-char-driver/aesd-circular-buffer.c:79-82 | the bytes at a place are the bytes of the concatenation at its flat offset |
| KernelHeap.Heap.Krealloc | aesd-char-driver/main.c:107-112 | failure changes nothing; success keeps the old bytes, in the old block or in a new one with the old one freed |
| KernelHeap.Heap.Memmove | aesd-char-driver/main.c:158 | overlapping move down: the start of the block holds the old bytes from the given place |
| CircularBuffer.Buffer.constructor | aesd-char-driver/aesd-circular-buffer.c:144-152 | an empty ring of ten slots, each without block and of size 0 |
| CircularBuffer.Buffer.AddEntry | aesd-char-driver/aesd-circular-buffer.c:100-139 | the live slots become the last ten of the old ones and the new entry; one slot changes; an entry without a block changes nothing; ring validity is kept |
| CircularBuffer.Buffer.FindEntryOffsetForFpos | aesd-char-driver/aesd-circular-buffer.c:30-91 | returns the slot and offset of the scan's place, or nothing and leaves the caller's offset alone |
| CircularBuffer.Buffer.CountsAgree | aesd-char-driver/main.c:201-207 | the search's count and the ioctl's modular count are both the number of live slots |
| CircularBuffer.Buffer.PhysicalTotal | aesd-char-driver/main.c:274-278 | the sum over all slots in physical order is the sum over the live ones, whatever the rotation |
| CircularBuffer.LiveAfterAdd | aesd-char-driver/aesd-circular-buffer.c:126-137 | the modular offset and flag updates turn the live list into its last ten with the new entry |
| CircularBuffer.SearchFindsAllIff | aesd-char-driver/aesd-circular-buffer.c:22-28 | every stored byte can be found if and only if no byte is stored after an entry of size 0 |
| CircularBuffer.SearchMissesExample | aesd-char-driver/aesd-circular-buffer.c:75-77 | entries of sizes 0 and 5: byte 0 is stored and not found |
| Draining.Round | aesd-char-driver/main.c:120-169 | one round of the write loop and then the rest is the cut of all pending bytes at once, in outcome and in scan cost; without memory it stops there |
| Draining.DrainOne | aesd-char-driver/main.c:143-169 | taking one command leaves the same end result to be reached |
| Draining.ScanCostOne | aesd-char-driver/main.c:124-130 | each round scans its own command's bytes and no others that count again |
| Seeking.SearchIsExact | aesd-char-driver/aesd-circular-buffer.c:68-90 | in every device state the search succeeds exactly below the content's length and names the content's byte |
| Seeking.SeekThenSearch | aesd-char-driver/main.c:214-232 | searching at the position of an accepted SEEKTO gives back its command and offset |
| Seeking.SearchThenSeek | aesd-char-driver/main.c:209-232 | every position below the total is the position of one SEEKTO and of no other |
| Seeking.CopyIsSlice | aesd-char-driver/main.c:74-76 | what one copy of a read takes is the content's slice at that position |
| Seeking.ReadContinues | aesd-char-driver/main.c:67-82 | each copy takes from exactly one more entry, stays within what is left, and ends at an entry's end or with all that is wanted |
| Seeking.TouchedAtMostAll | aesd-char-driver/main.c:67-82 | a read makes at most ten copies |
| Seeking.ReadAllDelivers | server/aesdsocket.c:201-206 | reads of any positive size until one returns 0 deliver all of the content from the position on |
| Seeking.SeekEndThenReadAll | aesd-char-driver/main.c:267-297 | SEEK_END minus k followed by reads to the end gives the last k bytes |
| Seeking.SeekToThenReadAll | server/aesdsocket.c:190-206 | an accepted SEEKTO followed by reads to the end gives the rest of the command and all later commands |
| WholeRun.WriteConserves | aesd-char-driver/main.c:99-174 | a write adds exactly its bytes to the stream or changes nothing; it returns its count exactly when every command found memory |
| WholeRun.RoundConserves | aesd-char-driver/main.c:138-168 | evicted, stored and pending bytes together are the same after every round |
| WholeRun.DrainConserves | aesd-char-driver/main.c:120-170 | the loop as a whole keeps the stream, also when it is left for want of memory |
| WholeRun.StoredIsPrefix | aesd-char-driver/main.c:120-170 | stored commands followed by those still in pending are the stream's commands |
| WholeRun.ExactIff | aesd-char-driver/main.c:131-142 | the device is the exact cut of its stream if and only if pending holds no newline |
| WholeRun.SuccessIsExact | aesd-char-driver/main.c:120-173 | a write that returns its count leaves the exact cut of everything so far, whatever failed before |
| WholeRun.OutOfMemoryIff | aesd-char-driver/main.c:138-142 | an accepted write returns -ENOMEM exactly when it leaves a complete command in pending |
| WholeRun.UnchangedIff | aesd-char-driver/main.c:104-142 | a write leaves the device as it was if and only if its bytes were not accepted |
| WholeRun.RetryStoresTwice | aesd-char-driver/main.c:118-142 | repeating a write that ran out of memory in the loop stores its bytes twice |
| WholeRun.EvictionShift | aesd-char-driver/main.c:148-156 | of the old ring and the new commands exactly the oldest beyond ten go, and the content is the old content and new commands less their bytes in front |
| WholeRun.WriteAdds | aesd-char-driver/main.c:120-170 | a write stores an initial run of the commands it completes, and all of them, one per newline, when it succeeds |
| WholeRun.RunConserves | aesd-char-driver/main.c:49-299 | over every run of calls with any failures the stream is what was accepted and the stored commands are its first ones |
| WholeRun.LastTenLines | aesd-char-driver/main.c:89-174 | after any run ending in a complete write the ring is the last ten lines of everything accepted and pending is what follows the last newline |
| WholeRun.ChunksAddUp | aesd-char-driver/main.c:107-170 | a run of complete writes leaves the device that one write of all the bytes would |
| WholeRun.ChunkingIndependence | aesd-char-driver/main.c:107-170 | any two ways to cut the same bytes into complete writes leave the same device |
| CharDevice.Mutex.LockInterruptible | aesd-char-driver/main.c:104-105 | the lock is taken exactly when the wait was not interrupted |
| CharDevice.OwnsWithoutOldest | aesd-char-driver/main.c:148-154 | freeing the oldest slot's block leaves the other blocks different, owned and all there is |
| CharDevice.AddNewest | aesd-char-driver/main.c:138-156 | a command in a new block becomes the newest slot, and the heap holds exactly the owned blocks |
| CharDevice.SwapPending | aesd-char-driver/main.c:161-168 | freeing, rewriting or replacing the pending block does not disturb the slots or the ownership of the heap |
| CharDevice.AesdDevice.constructor | aesd-char-driver/main.c:339-344 | an empty device with nothing allocated and the lock free |
| CharDevice.AesdDevice.ScanPending | aesd-char-driver/main.c:121-130 | finds the first newline of pending if there is one, looking at each byte up to it once |
| CharDevice.AesdDevice.StoreEntry | aesd-char-driver/main.c:148-156 | the taken-over slot's block is freed and the live list becomes its last ten with the new entry |
| CharDevice.AesdDevice.DropPending | aesd-char-driver/main.c:158-168 | what remains pending moves to the front; the block is freed when nothing does |
| CharDevice.AesdDevice.TakeCommand | aesd-char-driver/main.c:133-169 | one command moves from pending to the ring, or without memory nothing changes; validity is kept |
| CharDevice.AesdDevice.AppendPending | aesd-char-driver/main.c:107-118 | on success pending is extended by the bytes; on either failure the device is as before |
| CharDevice.AesdDevice.DrainPending | aesd-char-driver/main.c:120-170 | the loop ends, having done what the cut of all pending bytes says, at that scan cost |
| CharDevice.AesdDevice.Write | aesd-char-driver/main.c:89-174 | device, return value and scan cost are the reference's on every exit; 0 is returned for an empty buffer only and a positive value is the count; all the work is done under the lock, which is free again; slots, bytes and heap stay in step |
| CharDevice.AesdDevice.CopyOut | aesd-char-driver/main.c:67-82 | delivers the exact slice of the content, or faults exactly when more copies are needed than succeed |
| CharDevice.AesdDevice.Read | aesd-char-driver/main.c:49-87 | returns the content's slice at the position, bounded by its end, and advances by its length; 0 is returned exactly when nothing was asked for or the position is at or past the end; any failure leaves the position; the lock is free again |
| CharDevice.AesdDevice.FlatPosition | aesd-char-driver/main.c:201-230 | accepts exactly the commands held and the offsets inside them, and gives their flat position |
| CharDevice.AesdDevice.Ioctl | aesd-char-driver/main.c:177-244 | returns 0 exactly when the request is SEEKTO, could be read, was not interrupted and names a byte held, and then moves there; everything else is negative and leaves the position; the lock is free again |
| CharDevice.AesdDevice.TotalSize | aesd-char-driver/main.c:267-278 | the sum over the slots is the content's length |
| CharDevice.AesdDevice.Llseek | aesd-char-driver/main.c:246-299 | not negative exactly when not interrupted, the origin is one of the three and the target is not negative, and then moves there and returns it; otherwise the position stays; the lock is free again |
| CharDevice.AesdDevice.FreeSlots | aesd-char-driver/main.c:393-399 | the loop over all slots frees each block once, empties its slot, size included, and leaves no block |
| CharDevice.AesdDevice.Cleanup | aesd-char-driver/main.c:387-399 | from every valid device, after the cleanup nothing is allocated and every slot is empty |
| Returns.WriteReturns | aesd-char-driver/main.c:99-173 | 0 for an empty buffer only; the count exactly for a write accepted and cut to its last command; each errno, by its number, for exactly its cause |
| Returns.ReadReturns | aesd-char-driver/main.c:59-86 | 0 exactly when nothing was asked for or the position is at or past the end; negative exactly when interrupted or faulted; the position moves by what was delivered |
| Returns.IoctlReturns | aesd-char-driver/main.c:189-242 | 0 exactly for a SEEKTO, by its number, to a byte held; each errno, by its number, for exactly its cause, with the position unchanged |
| Returns.LlseekReturns | aesd-char-driver/main.c:254-297 | not negative exactly for an uninterrupted seek from origin 0, 1 or 2 to a target that is not negative, and then that target is the new position |
| Interleaving.EnterIsSane | aesd-char-driver/main.c:104-107 | a call that has just got the lock is bound to end as the whole call would |
| Interleaving.StepKeepsOutcome | aesd-char-driver/main.c:67-297 | every kernel call and loop round of every operation leaves the outcome as it was and brings the end nearer |
| Interleaving.CopyContinues | aesd-char-driver/main.c:67-82 | a round of the read loop adds the next slice of the content |
| Linearizable.AlwaysGood | aesd-char-driver/main.c:64-297 | in every state of every execution the world is the sequential run's, or will be once the holder is through |
| Linearizable.FreeMeansSequential | aesd-char-driver/main.c:64-297 | whenever the lock is free, the log holds every call the threads have made that does not wait, each thread's in its order; device, positions and all return values are those of these calls run in lock order, and each accepted write is in the stream in one piece |
| Linearizable.HolderProceeds | aesd-char-driver/main.c:64-297 | at most one thread is under the lock, and the one that is can always go on to its release in finitely many steps |
| Linearizable.ThreadsKeepOrder | aesd-char-driver/main.c:64-297 | the calls a thread makes in the actions of an execution are those it has in the log, once each and in order, followed by the one that waits |
| Linearizable.StepsCount | aesd-char-driver/main.c:64-297 | a new call is waiting; every other step takes its thread to a later stage or lowers the steps left under the lock, and leaves the other threads as they are |
| Linearizable.WaitersProceed | aesd-char-driver/main.c:59-65 | an idle thread can make any call, a call that never locks can return, and any other gets the lock as soon as it is free |
| DeviceRun.Dispatch | aesd-char-driver/main.c:301-309 | each file operation on the device object returns, and does to device and positions, what the reference says |
| DeviceRun.RunCalls | aesd-char-driver/main.c:49-299 | so does any run of calls |
| DeviceRun.Lifetime | aesd-char-driver/main.c:339-399 | from load through any run of calls, whatever fails, to cleanup: nothing is left allocated |
| DeviceRun.ReadToEnd | server/aesdsocket.c:201-206 | the read loop ends and hands on all that reads to the end deliver |
| DeviceRun.SeekReply | server/aesdsocket.c:184-208 | a request is accepted exactly when command and offset exist, and then the reply is the content from there to the end, for any buffer size |
| Tailq.LinkedOnce | server/queue.h:650-653 | the pointers from a head determine the elements |
| Tailq.Link.Init | server/queue.h:690-694 | an empty queue |
| Tailq.Link.InsertHead | server/queue.h:721-732 | the element becomes the first; all links are right again |
| Tailq.Link.InsertTail | server/queue.h:734-742 | the element becomes the last; all links are right again |
| Tailq.Link.InsertAfter | server/queue.h:696-709 | the element comes right after the given one; all links are right again |
| Tailq.InsertBefore | server/queue.h:711-719 | the element comes right before the given one, with no head at hand: the link before is written through its address |
| Tailq.Link.Remove | server/queue.h:752-768 | exactly that element is gone, with at most two links and the head's tail pointer written |
| Sequences.DeleteUndoesInsert | server/queue.h:752-768 | removing what was inserted gives back the elements there were |
| Tailq.Link.Last | server/queue.h:744-745 | reading the tail pointer's target as a head gives the last element, or none |
| Tailq.Link.Prev | server/queue.h:749-750 | the same reading of an element's back link gives the element before it, or none |
| Tailq.Link.Foreach | server/queue.h:650-653 | the walk ends and visits the elements in order |
| Tailq.Link.ForeachReverse | server/queue.h:670-673 | the backward walk ends and visits them in reverse |
| Tailq.Link.Concat | server/queue.h:635-644 | the elements of both in one queue, the other empty and usable; the queues stay apart |
| Tailq.Link.Swap | server/queue.h:770-785 | the two queues exchange their elements in all empty and non-empty combinations and stay apart |
| Stailq.LinkedOnce | server/queue.h:320-323 | the pointers from a head determine the elements |
| Stailq.Link.Init | server/queue.h:340-343 | an empty queue whose tail pointer is the head's own |
| Stailq.Link.InsertHead | server/queue.h:351-355 | the element becomes the first; the tail pointer is right |
| Stailq.Link.InsertTail | server/queue.h:357-361 | the element becomes the last; the tail pointer is right |
| Stailq.Link.InsertAfter | server/queue.h:345-349 | the element comes right after the given one; the tail pointer is right |
| Stailq.Link.RemoveHead | server/queue.h:390-394 | the first element is gone; the tail pointer goes back to the head when none is left |
| Stailq.Link.RemoveAfter | server/queue.h:384-388 | the element after the given one is gone; the tail pointer is right |
| Stailq.Link.Remove | server/queue.h:370-382 | the walk finds the element before, and exactly the given one is gone |
| Stailq.Link.Last | server/queue.h:363-366 | the tail pointer gives the last element, or none when empty |
| Stailq.Link.Concat | server/queue.h:308-314 | the elements of both in one queue, the other empty and usable; the queues stay apart |
| Stailq.Link.Swap | server/queue.h:396-407 | the two queues exchange their elements, each tail pointer re-aimed at its own head when empty |
| SharedLog.UpToNul | server/aesdsocket.c:214 | what is written of a buffer: everything before its first byte 0 |
| SharedLog.ActionKeeps | server/aesdsocket.c:101-245 | every step of every thread keeps the lock with whoever works, the file in step with the appended chunks, and the finished echoes right |
| SharedLog.AlwaysGood | server/aesdsocket.c:101-245 | so does every state of every execution |
| SharedLog.AppendedAsGiven | server/aesdsocket.c:105-124 | what a thread has appended, followed by what it still holds, is what the receives and ticks of the execution gave it, up to the first NUL, once each and in order |
| SharedLog.ChunkOrigin | server/aesdsocket.c:151-214 | a client's chunk comes from a receive of its own and is no seek request; a stamp comes from a tick |
| SharedLog.ServedOnce | server/aesdsocket.c:211-245 | each client's chunk has been echoed once or its client is about to send or sending, and never both; no stamp is echoed |
| SharedLog.FileIsTexts | server/aesdsocket.c:105-124 | whenever no one is appending the file is the appended texts, whole and in lock order |
| SharedLog.EchoHoldsOwnText | server/aesdsocket.c:211-245 | every echo holds, between whole texts of others, what its own client received, up to the first NUL |
| SharedLog.EchoesNest | server/aesdsocket.c:228-245 | of any two echoes one is the beginning of the other |
| SharedLog.HolderProceeds | server/aesdsocket.c:213-245 | whoever has the lock has a step that lowers the work left, 1024 bytes at a time when sending, and gives the lock up when none is left |
| SharedLog.StepsCount | server/aesdsocket.c:101-245 | every step but new input takes its thread to a later stage or lowers the work left, and changes no other thread |
| SharedLog.WaitersProceed | server/aesdsocket.c:211-228 | a waiting thread gets the lock as soon as it is free |
| SharedLog.IdleTakesAnything | server/aesdsocket.c:151-169 | an idle client takes any message of 1 to 1023 bytes, as a seek request exactly when it starts with the prefix and as a text otherwise |

## Left out

- Module registration, open and release, the device class, debug output and the order of teardown calls: no state to follow.
- Machine words: lengths, positions and sums are unbounded integers; nothing is said of a total beyond 64 bits.
- Null arguments to the ring functions: the driver passes the addresses of its own objects.
- Initial contents of kernel blocks and the bytes a faulting user copy leaves behind, beyond what the contracts say did not change.
- A user buffer shorter than a read's count: that is a faulting copy, which is a parameter.
- The VFS copy of the file position: the argument of read and the file's field are one cell.
- The interleaving model works on the reference device, not on the slots: its SEEK_END loop adds up the ring in logical order; that the physical order gives the same is `PhysicalTotal`.
- Liveness beyond each thread's own steps: fairness of the scheduler and of the mutexes.
- SLIST and LIST, the FROM and SAFE walks, class variants and the debug traces of queue.h; links of a removed element are not described.
- The thread list, signals, daemon mode, sockets, time formatting and parsing of the seek request: texts and requests are inputs.
- Failed file or socket operations in the server, the newline test that ends a connection, and the timestamp's format.
- `prototypes`, `server/server_prototypes`, `examples`, `finder-app` and `server/shannon.c`.
