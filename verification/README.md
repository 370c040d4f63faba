# Verified models of the Mushroom firmware's queues, buffers and protocols

The firmware moves bytes between interrupt handlers, DMA and threads through several small ring
structures, and formats, parses, sorts and times along the way. This project models that code in Dafny
and proves what it is for.

* **Buffers queues** (`OutputStream`, `OutputBuffers`, `InputStream`, `InputBuffers`, `Slots`,
  `SystemTime`): a ring of size-prefixed buffers between an interrupt handler and a thread, used as a
  byte stream. `OutputBuffersQueue` and `InputBuffersQueue` have the fields of the C structures, pointers
  being byte offsets into one array; every stretch of code between a lock and an unlock is one method that
  is proved to be one step of a packet machine. Blocking calls return the run of steps they and the
  interrupt side made, with anything the interrupt side may do in every unlocked window.
* **Byte queues** (`WaitingThreads`, `ByteProtocol`, `ByteQueues`): `io_queue` with its waiting threads.
  A thread is running, waiting, or woken with a message and not run yet; other threads, interrupts,
  timeouts and resets go on while a call waits.
* **Thread queues** (`PrioQueue`, `ThreadQueue`): the kernel's intrusive doubly linked queues, as linked
  nodes, against a list with priorities and order of arrival.
* **Selection** (`Median`): `FindMediana` in place on cells 1 to N.
* **UART rings** (`TxStream`, `Uart`): the transmit ring drained by DMA, the receive ring filled by it.
* **Formatter and parser** (`Rendering`, `Numerals`, `Sprintf`, `CommandParser`, `CommandLines`): the bounded
  printf, what its output means, and the byte machine that reads lines back.
* **Circular and double buffer, card register, keys** (`Buffers`, `Arithmetic`, `CardRegister`,
  `KeyTrace`, `Keys`).

`Common` and `Ring` hold shared types and the lemmas on rings of cells.

Each imperative part is a class with the fields of the source and a ghost state `st` (or a ghost history)
which its `Valid()` ties to the fields. A method's contract says that `st` made one step, or followed a
run, of the machine in the accompanying module, and says outright what changed; the main results are
lemmas about all runs of that machine, with histories counted from the events.

Clocks count for ever; the code sees their low 16 bits (`systime_t` of the 030 firmware) or 32 bits (of
the F100 firmware). Machine arithmetic that can wrap is written out. Interrupts, DMA, pins, other threads
and the passing of time are nondeterministic.

Where code and comments differ, the code is followed: `FindMediana` works on cells 1 to N and so needs
N + 1 of them; `kl_vsprintf` returns one more than it printed when it cuts a string; the slice function's
result is right aligned, although its comment says left.

## Model

| member | source | states |
|---|---|---|
| OutputStream.OneByteStream | Mushroom_fw030/os/hal/hal_buffers.c:441-866 | After any run of acquiring, appending, flushing from either side, releasing and resetting, the payloads released, one packet each time and the oldest, then the posted ones, then the partly filled buffer concatenate to exactly the bytes written since the last reset, all counted from the events |
| OutputStream.FlushTimingIsInvisible | Mushroom_fw030/os/hal/hal_buffers.c:815-866 | Two runs that write the same bytes, with flushes and releases at different moments, have the same stream, and once drained have sent the same bytes |
| OutputStream.StepKeepsInv | Mushroom_fw030/os/hal/hal_buffers.c:495-866 | Every atomic step keeps the stream equal to what was accepted, every posted packet non-empty and within a buffer, and a current buffer strictly unfilled with a slot free for it |
| OutputStream.RunKeepsInv | Mushroom_fw030/os/hal/hal_buffers.c:441-866 | The same for every run, from any state that satisfies the invariant; the record of accepted bytes is what the run wrote |
| OutputStream.IsrSendsAll | Mushroom_fw030/os/hal/hal_buffers.c:815-843 | From any consistent state the interrupt side alone, releasing what is posted and flushing what is left, gets every accepted byte sent, in one turn for each posted packet and two for partial data |
| OutputStream.DataIsWritten | Mushroom_fw030/os/hal/hal_buffers.c:724-800 | A run without a reset writes exactly the concatenation of its chunks after what was there |
| OutputStream.RewindKeepsStreamIffNothingPartial | Mushroom_fw030/os/hal/hal_buffers.c:584-603 | Asking for an empty buffer while one is partly filled loses bytes of the stream exactly if it holds any |
| OutputStream.PostKeepsStreamIff | Mushroom_fw030/os/hal/hal_buffers.c:614-653 | Posting the write slot directly keeps the stream exactly if what is posted is the partial data followed by the bytes counted as new; with nothing new, exactly the partial data |
| OutputBuffers.OutputBuffersQueue.constructor | Mushroom_fw030/os/hal/hal_buffers.c:441-459 | A new queue represents the empty stream over n buffers of the given size |
| OutputBuffers.OutputBuffersQueue.IsEmptyI | Mushroom_fw030/os/hal/hal_buffers.h:210-213 | Equal pointers with a non-zero counter mean exactly that nothing is posted |
| OutputBuffers.OutputBuffersQueue.IsFullI | Mushroom_fw030/os/hal/hal_buffers.h:225 | A zero counter means exactly that every slot is posted |
| OutputBuffers.OutputBuffersQueue.ResetI | Mushroom_fw030/os/hal/hal_buffers.c:472-482 | Reset gives the representation of the empty stream back |
| OutputBuffers.OutputBuffersQueue.GetFullBufferI | Mushroom_fw030/os/hal/hal_buffers.c:495-508 | Delivers address and size of the oldest posted payload, whose bytes are in memory there; nothing exactly if nothing is posted |
| OutputBuffers.OutputBuffersQueue.ReleaseEmptyBufferI | Mushroom_fw030/os/hal/hal_buffers.c:517-531 | Removes exactly the oldest packet from the ring and adds it, and no other, to the sent ones; the other slots still hold theirs |
| OutputBuffers.OutputBuffersQueue.PostFullBufferS | Mushroom_fw030/os/hal/hal_buffers.c:630-653 | The bytes lying in the write slot become the newest packet, behind the others, which are untouched |
| OutputBuffers.OutputBuffersQueue.TryFlushI | Mushroom_fw030/os/hal/hal_buffers.c:815-843 | Posts the partial data as the newest packet exactly when it holds any and nothing else is posted, says so, and otherwise changes nothing |
| OutputBuffers.OutputBuffersQueue.Flush | Mushroom_fw030/os/hal/hal_buffers.c:852-866 | Posts the partial data as the newest packet exactly when it holds any, and otherwise changes nothing; nothing sent or accepted changes |
| OutputBuffers.OutputBuffersQueue.Store | Mushroom_fw030/os/hal/hal_buffers.c:767-791 | The chunk, and nothing else, comes behind the partial data, disturbs no posted slot, and posts the buffer exactly when that fills it |
| OutputBuffers.OutputBuffersQueue.GetEmptyBufferTimeoutS | Mushroom_fw030/os/hal/hal_buffers.c:584-603 | Waiting through any interrupt activity ends with an empty current buffer, a timeout at exactly its time, or a reset; every wait asks for the whole timeout; never a timeout for TIME_INFINITE, at once for TIME_IMMEDIATE |
| OutputBuffers.OutputBuffersQueue.PutTimeout | Mushroom_fw030/os/hal/hal_buffers.c:674-701 | The call appends exactly its byte if it returns OK and nothing otherwise, whatever interrupts ran meanwhile, and waits until its timeout at the longest |
| OutputBuffers.OutputBuffersQueue.WritePass | Mushroom_fw030/os/hal/hal_buffers.c:734-799 | A pass writes the next bytes of the caller, at most 64 and fewer only if they fill the buffer or are the last; any wait asks exactly for what the clock shows to be left of the timeout |
| OutputBuffers.OutputBuffersQueue.WriteTimeout | Mushroom_fw030/os/hal/hal_buffers.c:724-800 | Returning w, the call has put exactly the first w bytes into the stream, in order, with interrupts running in every window; it stops short only for a reset or an elapsed finite timeout; every wait entered within one turn of the clock ends at start + timeout at the latest; it terminates |
| InputStream.OneByteStream | Mushroom_fw030/os/hal/hal_buffers.c:75-427 | After any run, the bytes delivered since the last reset followed by the bytes held are the concatenation of the posted payloads |
| InputStream.StepKeepsInv | Mushroom_fw030/os/hal/hal_buffers.c:128-427 | Every atomic step keeps that equation, and a started buffer strictly unfinished with its packet still queued |
| InputStream.RunKeepsInv | Mushroom_fw030/os/hal/hal_buffers.c:75-427 | The same for every run; the record of posted packets is what the interrupt side posted |
| InputStream.RunDelivers | Mushroom_fw030/os/hal/hal_buffers.c:302-427 | Without a reset the deliveries of successive calls concatenate, without loss or repetition |
| InputStream.RewindKeepsStreamIffNothingTaken | Mushroom_fw030/os/hal/hal_buffers.c:219-238 | Asking for a full buffer while one is in use repeats bytes of the stream exactly if some were taken from it |
| InputStream.ReleaseKeepsStreamIff | Mushroom_fw030/os/hal/hal_buffers.c:248-282 | Releasing the first buffer directly keeps the stream exactly if all that was unread of it counts as read, which is never nothing |
| InputBuffers.InputBuffersQueue.constructor | Mushroom_fw030/os/hal/hal_buffers.c:75-93 | A new queue represents no packets over n buffers of the given size |
| InputBuffers.InputBuffersQueue.IsFullI | Mushroom_fw030/os/hal/hal_buffers.h:195-198 | Equal pointers with a non-zero counter mean exactly that every slot is posted |
| InputBuffers.InputBuffersQueue.IsEmptyI | Mushroom_fw030/os/hal/hal_buffers.h:183 | A zero counter means exactly that no packet is posted |
| InputBuffers.InputBuffersQueue.ResetI | Mushroom_fw030/os/hal/hal_buffers.c:106-116 | Reset gives the representation of no packets back |
| InputBuffers.InputBuffersQueue.GetEmptyBufferI | Mushroom_fw030/os/hal/hal_buffers.c:128-137 | A place for a whole payload, inside the memory; none exactly if every slot is posted |
| InputBuffers.InputBuffersQueue.FillEmptyBuffer | Mushroom_fw030/os/hal/hal_buffers.c:128-137 | Writing a payload in the place given leaves every posted packet and the current read position as they were |
| InputBuffers.InputBuffersQueue.PostFullBufferI | Mushroom_fw030/os/hal/hal_buffers.c:147-166 | The bytes in the write slot become the newest packet; a read in progress is not disturbed |
| InputBuffers.InputBuffersQueue.ReleaseEmptyBufferS | Mushroom_fw030/os/hal/hal_buffers.c:263-282 | Removes exactly the first packet; the next ones stay in order |
| InputBuffers.InputBuffersQueue.Consume | Mushroom_fw030/os/hal/hal_buffers.c:317-328 | Exactly the bytes at the read position are delivered, and the buffer leaves the queue exactly when it is used up |
| InputBuffers.InputBuffersQueue.GetFullBufferTimeoutS | Mushroom_fw030/os/hal/hal_buffers.c:219-238 | Waiting through any interrupt activity ends with the first packet acquired, a timeout at exactly its time, or a reset; every wait asks for the whole timeout, a second one only after a reset |
| InputBuffers.InputBuffersQueue.GetTimeout | Mushroom_fw030/os/hal/hal_buffers.c:302-328 | The byte returned is the next one of the stream; on failure nothing is taken; without a reset the one wait ends at its timeout at the latest |
| InputBuffers.InputBuffersQueue.ReadPass | Mushroom_fw030/os/hal/hal_buffers.c:361-426 | A pass delivers the next bytes, at most 64 and fewer only if they use the buffer up or are the last asked for, to the next cells of the caller and no others; a wait asks exactly for what the clock shows to be left of the timeout |
| InputBuffers.InputBuffersQueue.ReadTimeout | Mushroom_fw030/os/hal/hal_buffers.c:351-427 | Returning r, the call has filled exactly the first r cells with the next r bytes of the stream and left the others alone, with posts landing in every window; it stops short only for a reset or an elapsed finite timeout; without a reset every wait entered within one turn of the clock ends at start + timeout at the latest; it terminates |
| Slots.AlignedEqual | Mushroom_fw030/os/hal/hal_buffers.h:195-213 | Slot-aligned pointers are equal exactly for equal slots, so pointer equality decides full and empty |
| Slots.NextSlot | Mushroom_fw030/os/hal/hal_buffers.c:157-160 | Advancing a slot pointer and wrapping at the top leads to the next slot modulo bn, always inside the memory |
| Slots.FreeSlotWrite | Mushroom_fw030/os/hal/hal_buffers.c:767-783 | Writing inside the free slot after the posted ones leaves all posted packets intact |
| Slots.PostSlot | Mushroom_fw030/os/hal/hal_buffers.c:630-653 | Posting a filled slot extends the queued packets at the end |
| Slots.ReleaseSlot | Mushroom_fw030/os/hal/hal_buffers.c:517-531 | Releasing the first slot drops the first packet and keeps the others |
| SystemTime.DeadlinePass | Mushroom_fw030/os/hal/hal_buffers.c:359-384 | On the wrapping clock a pass gives up exactly if the elapsed time modulo 2^16 exceeds the timeout; otherwise it waits exactly for the rest, which is never TIME_INFINITE |
| SystemTime.DeadlineWithinOneTurn | Mushroom_fw030/os/hal/hal_buffers.c:732-757 | For less than one turn of the clock that is the true elapsed time |
| SystemTime.ExpiryMissedIff | Mushroom_fw030/os/hal/hal_buffers.c:732-757 | An expired timeout goes unnoticed exactly when the clock has turned over and shows no more than the timeout |
| SystemTime.WithinEndsAtDeadline | Mushroom_fw030/os/hal/hal_buffers.c:374-384 | A wait for what the clock shows to be left of the timeout ends at start + timeout, if it is entered within one turn of the clock |
| SystemTime.EndsOnTimeIff | Mushroom_fw030/os/hal/hal_buffers.c:219-229 | A wait for the whole of a timeout ends on time exactly if it is entered when the call begins; one entered again does not |
| SystemTime.SecondWaitOverruns | Mushroom_fw030/os/hal/hal_buffers.c:219-229 | A timeout of 10, woken at 9 and waiting again, ends at 19 |
| WaitingThreads.WakeNextKeeps | Mushroom_fw030/os/hal/osal.h:795-799 | Making one unit available and waking one waiter, if any, loses no wake-up |
| WaitingThreads.WakeAllKeeps | Mushroom_fw030/os/hal/osal.h:808-812 | After waking all nobody waits, each thread being in one place only |
| WaitingThreads.ExpiredKeeps | Mushroom_fw030/os/hal/osal.h:781-786 | A waiter leaving by timeout loses no wake-up for the others, wherever it was in the list |
| WaitingThreads.DispatchKeeps | Mushroom_fw030/os/hal/hal_queues.c:144-168 | A woken thread that runs takes back at most one wake-up |
| WaitingThreads.WithoutMembers | Mushroom_fw030/os/hal/osal.h:781-786 | A timeout takes exactly the one thread off the list |
| ByteProtocol.StepMoves | Mushroom_fw030/os/hal/hal_queues.c:82-413 | Each step puts one byte in behind the others, or takes the oldest out, or neither, and the byte is the one given or delivered |
| ByteProtocol.RunMoves | Mushroom_fw030/os/hal/hal_queues.c:82-413 | The two histories are what went in and what came out, counted from the events since the last reset |
| ByteProtocol.OneByteStream | Mushroom_fw030/os/hal/hal_queues.c:82-413 | After any run what came out, then what is queued, is what went in, with any number of threads, timeouts and resets |
| ByteProtocol.WokenInOrder | Mushroom_fw030/os/hal/hal_queues.c:105-121 | As long as a thread waits, none that came to wait after it is woken with OK |
| ByteProtocol.StepKeepsInv | Mushroom_fw030/os/hal/hal_queues.c:82-413 | Every step of interrupts, threads, timeouts and resets keeps the byte stream, the bounds and the wake-up count |
| ByteProtocol.NoLostWakeupEver | Mushroom_fw030/os/hal/hal_queues.c:82-413 | In every reachable state of either queue with any number of threads: while a thread waits, the units available are at most the threads woken with OK that have not run yet; bytes read then bytes queued are the bytes written |
| ByteProtocol.NobodySleepsBesideWork | Mushroom_fw030/os/hal/hal_queues.c:82-413 | Once every woken thread has run, a thread waits only on an empty input queue or a full output queue |
| ByteProtocol.OthersLeaveThread | Mushroom_fw030/os/hal/hal_queues.c:144-228 | The rest of the system can do nothing to a thread but wake it, and the message tells why: its own timeout, a reset, or a transfer |
| ByteQueues.IoQueue.constructor | Mushroom_fw030/os/hal/hal_queues.c:58-69 | A new queue represents no bytes and no waiters |
| ByteQueues.IoQueue.LowerBlocked | Mushroom_fw030/os/hal/hal_queues.h:177-180 | Equal pointers with a non-zero counter mean exactly a full input queue, or an empty output queue |
| ByteQueues.IoQueue.UpperBlocked | Mushroom_fw030/os/hal/hal_queues.h:165 | A zero counter means exactly an empty input queue, or a full output queue |
| ByteQueues.IoQueue.ResetI | Mushroom_fw030/os/hal/hal_queues.c:82-90 | Empties the queue and wakes every waiter with a reset |
| ByteQueues.IoQueue.IqPutI | Mushroom_fw030/os/hal/hal_queues.c:105-122 | Stores exactly the byte given, behind the others, and wakes the thread that waited longest, or changes nothing and reports a full queue |
| ByteQueues.IoQueue.OqGetI | Mushroom_fw030/os/hal/hal_queues.c:336-354 | Takes the oldest byte and wakes the thread that waited longest, or reports an empty queue and changes nothing |
| ByteQueues.IoQueue.Attempt | Mushroom_fw030/os/hal/hal_queues.c:144-168 | One try of a running thread: the oldest byte comes out, or its own goes in, or it goes to wait behind the others exactly if there is nothing to take, or it times out at once if told not to wait |
| ByteQueues.IoQueue.Continue | Mushroom_fw030/os/hal/hal_queues.c:149-157 | A woken thread gives up exactly on a message other than OK, and otherwise tries again |
| ByteQueues.IoQueue.Transfer | Mushroom_fw030/os/hal/hal_queues.c:301-324 | With the rest of the system running while it waits, the call moves exactly one byte if it succeeds and none otherwise; a timeout or reset it reports did happen |
| ByteQueues.IoQueue.ReadTimeout | Mushroom_fw030/os/hal/hal_queues.c:194-228 | Returning r, the call filled exactly the first r cells with what the queue gave this thread, in order, and fewer than asked only after a reset or the end of a finite timeout |
| ByteQueues.IoQueue.WriteTimeout | Mushroom_fw030/os/hal/hal_queues.c:380-413 | Returning w, the queue took exactly the first w bytes from this thread, in order, and fewer than asked only after a reset or the end of a finite timeout |
| PrioQueue.ReadyQueueOrder | Mushroom_fw030/os/include/chschd.h:651-695 | Every run of priority inserts and removals from an empty queue keeps it sorted by falling priority, first come first among equals, holding exactly, each once, the threads inserted and neither returned nor named by a removal since |
| PrioQueue.TailQueueOrder | Mushroom_fw030/os/include/chschd.h:663-695 | A queue filled at the tail only stays in order of arrival, holding exactly the threads inserted and not removed |
| PrioQueue.StepKeepsOrder | Mushroom_fw030/os/include/chschd.h:651-695 | Each operation keeps the order its kind of queue has |
| PrioQueue.StepKeepsConsistent | Mushroom_fw030/os/include/chschd.h:651-695 | Each operation keeps the queue in one-to-one agreement with the set of present threads |
| PrioQueue.RunIsPresent | Mushroom_fw030/os/include/chschd.h:651-695 | The threads present are counted from the events and the threads the removals return |
| PrioQueue.PrioInsertKeepsSorted | Mushroom_fw030/os/include/chschd.h:651-661 | Inserting in front of the first lower priority keeps the queue sorted and first come first among equals |
| PrioQueue.SortedIsUnique | Mushroom_fw030/os/include/chschd.h:651-661 | The order leaves no choice: sorted queues of the same entries are equal |
| PrioQueue.HeadTellsHigher | Mushroom_fw030/os/include/chschd.h:709-714 | Looking at the head only decides whether any queued thread has a higher priority |
| PrioQueue.HeadTellsEqualOrHigher | Mushroom_fw030/os/include/chschd.h:727-732 | Likewise for equal or higher priority, right exactly unless the queue is empty and the current priority is that of the header |
| ThreadQueue.ThreadsQueue.constructor | Mushroom_fw030/os/include/chschd.h:602-606 | The header linked to itself is a well-formed empty queue |
| ThreadQueue.ThreadsQueue.IsEmpty | Mushroom_fw030/os/include/chschd.h:616-619 | A header linked to itself means exactly an empty queue |
| ThreadQueue.ThreadsQueue.Scan | Mushroom_fw030/os/include/chschd.h:651-656 | The do-while scan ends, at the first thread of lower priority or at the header |
| ThreadQueue.ThreadsQueue.LinkBefore | Mushroom_fw030/os/include/chschd.h:657-660 | The four link changes give a well-formed doubly linked ring with the thread in that place and nothing else moved |
| ThreadQueue.ThreadsQueue.PrioInsert | Mushroom_fw030/os/include/chschd.h:651-661 | The thread is linked in behind all of at least its priority and in front of the rest, which keep their order |
| ThreadQueue.ThreadsQueue.Insert | Mushroom_fw030/os/include/chschd.h:663-669 | The thread is last in the linked queue |
| ThreadQueue.ThreadsQueue.FifoRemove | Mushroom_fw030/os/include/chschd.h:671-678 | Unlinks and returns the first thread and leaves the rest as they were; on an empty queue returns the header and changes nothing |
| ThreadQueue.ThreadsQueue.LifoRemove | Mushroom_fw030/os/include/chschd.h:680-687 | Unlinks and returns the last thread and leaves the rest as they were; on an empty queue returns the header and changes nothing |
| ThreadQueue.ThreadsQueue.Dequeue | Mushroom_fw030/os/include/chschd.h:689-695 | Cuts exactly that thread out of its place in the linked queue and leaves the rest as they were |
| ThreadQueue.ThreadsQueue.IsRescRequired | Mushroom_fw030/os/include/chschd.h:709-714 | True exactly if some ready thread has a higher priority than the current one |
| ThreadQueue.ThreadsQueue.CanYield | Mushroom_fw030/os/include/chschd.h:727-732 | True exactly if some ready thread has at least the current priority, for priorities from 1 on |
| Median.FindMediana | Mushroom_fw030/kl_lib/kl_lib.h:154-177 | Terminates inside the bounds; from N = 2 on leaves cells 1 to N a permutation with nothing greater before cell N/2 and nothing smaller behind it, cell 0 untouched, and returns that cell; below 2 returns cell 0 |
| Median.Partition | Mushroom_fw030/kl_lib/kl_lib.h:159-174 | The inner loop, rewriting both bounds on the way, keeps a permutation split at both new bounds, and shrinks the range around the wanted cell or settles it |
| Median.Pass | Mushroom_fw030/kl_lib/kl_lib.h:163-171 | The two scans are stopped by cells inside the range, and a swap keeps both sides of the pivot |
| Median.CrossedSplits | Mushroom_fw030/kl_lib/kl_lib.h:162-174 | Once the indices cross the array is split at both, and a cell between them is settled |
| Median.SelectionIsUnique | Mushroom_fw030/kl_lib/kl_lib.h:154-177 | The selected value does not depend on the arrangement reached |
| Median.SelectsTheMedian | Mushroom_fw030/kl_lib/kl_lib.h:154-177 | The value returned is the one sorting the cells 1 to N would put in cell N/2 |
| TxStream.SentThenBuffered | Mushroom_fw030/kl_lib/uart.cpp:73-105 | Over any run of puts, starts and completion interrupts, the bytes sent then the bytes buffered are the bytes put while there was room, counted from the events |
| TxStream.StepKeepsInv | Mushroom_fw030/kl_lib/uart.cpp:73-105 | Each step keeps that, and a transaction in flight non-empty, at the front of the ring and not past the end of the buffer |
| TxStream.PutMissesFlight | Mushroom_fw030/kl_lib/uart.cpp:95-101 | The cell a put writes is never one of the transaction in flight |
| TxStream.DrainsInThree | Mushroom_fw030/kl_lib/uart.cpp:73-93 | Without further puts an active transfer empties the ring and goes idle after at most three completions, all accepted bytes sent |
| TxStream.ThreeAreNeeded | Mushroom_fw030/kl_lib/uart.cpp:73-93 | Two are not always enough: a run of puts, starts and a completion from the empty ring reaches a transfer that needs a third |
| Uart.TxRing.constructor | Mushroom_fw030/kl_lib/uart.h:65-68 | A new ring is empty and idle |
| Uart.TxRing.IPutByte | Mushroom_fw030/kl_lib/uart.cpp:95-101 | Appends exactly that byte behind the buffered ones, also while the DMA reads, or refuses exactly when full; the cells in flight keep their contents |
| Uart.TxRing.ISendViaDMA | Mushroom_fw030/kl_lib/uart.cpp:83-93 | Programs the DMA with the longest front piece of the buffered bytes that does not wrap |
| Uart.TxRing.IStartTransmissionIfNotYet | Mushroom_fw030/kl_lib/uart.cpp:103-105 | Leaves an active transfer alone; otherwise starts one with as much as fits, and stays idle only if nothing is buffered |
| Uart.TxRing.IRQDmaTxHandler | Mushroom_fw030/kl_lib/uart.cpp:73-81 | What the DMA read from memory is the front of the buffered bytes as they were accepted; exactly they leave the ring, and the rest goes on, as much as fits, or the ring is idle and empty |
| Uart.RxRing.GetRcvdBytesCnt | Mushroom_fw030/kl_lib/uart.cpp:128-137 | The count derived from the DMA counter is the number of unread bytes modulo the size, through any number of wraps, so it is that number exactly while fewer are unread than there are cells |
| Uart.RxRing.GetByte | Mushroom_fw030/kl_lib/uart.cpp:139-144 | While fewer bytes are unread than there are cells, successive calls return the received stream byte by byte, empty exactly when all was read; after an overrun they return the byte that lies whole turns further on |
| Uart.RxRing.DmaReceive | Mushroom_fw030/kl_lib/uart.cpp:128-137 | Every byte received, overrun or not, keeps both indices at the numbers received and read modulo the size and every cell at the latest byte stored in it |
| Uart.IndexDifference | Mushroom_fw030/kl_lib/uart.cpp:131-136 | The difference of the two indices, corrected once, is the number of unread bytes modulo the size |
| Uart.AtReadIndex | Mushroom_fw030/kl_lib/uart.cpp:141 | The cell at the read index holds the byte as many whole turns after the next one as the writer is ahead |
| Rendering.ClipLength | Mushroom_fw/Common/kl_lib/kl_sprintf.c:5-90 | The output is exactly as long as the full rendering, or as the room |
| Rendering.ClipWhole | Mushroom_fw/Common/kl_lib/kl_sprintf.c:5-90 | When the full rendering fits it is the output, and no string is cut |
| Rendering.ClipIsPrefix | Mushroom_fw/Common/kl_lib/kl_sprintf.c:34-60 | Without numbers, what is printed is the beginning of the full rendering |
| Rendering.ClipAppend | Mushroom_fw/Common/kl_lib/kl_sprintf.c:34-88 | What one piece after another prints is what the whole prints |
| Numerals.DigitsDenote | Mushroom_fw/Common/kl_lib/kl_sprintf.c:15-19 | The characters placed for a number are digits of its base, 0 to 9 and A to F, without a zero in front, and read back as the number |
| Numerals.LowOrderDigits | Mushroom_fw/Common/kl_lib/kl_sprintf.c:26-29 | The digits left of a number cut to the room read back as the number modulo a power of the base |
| Numerals.UnsignedConversion | Mushroom_fw/Common/kl_lib/kl_sprintf.c:61-62 | %u and %X print the word in base 10 and 16, padded to the width in zeros with the zero flag and in spaces without |
| Numerals.SignedConversion | Mushroom_fw/Common/kl_lib/kl_sprintf.c:63-71 | %d of a two's complement word prints the sign, then padding, then the magnitude in base 10 |
| Numerals.StringConversion | Mushroom_fw/Common/kl_lib/kl_sprintf.c:53-56 | %s prints the string |
| Numerals.CharConversion | Mushroom_fw/Common/kl_lib/kl_sprintf.c:57-60 | %c prints the character |
| Numerals.ArrayConversion | Mushroom_fw/Common/kl_lib/kl_sprintf.c:72-86 | %A prints two hexadecimal digits for each byte that read back as the byte, with the delimiter in front of each but the first, and nothing else |
| Numerals.OtherConversion | Mushroom_fw/Common/kl_lib/kl_sprintf.c:53-86 | Any other character prints nothing and takes no argument |
| Numerals.TextAsItIs | Mushroom_fw/Common/kl_lib/kl_sprintf.c:34-39 | Text without a percent sign is printed as it is |
| Numerals.ConversionFirst | Mushroom_fw/Common/kl_lib/kl_sprintf.c:41-86 | A format prints what its first conversion prints by its decimal width and zero flag, then what the rest prints |
| Numerals.ZeroFlagIsLeadingZero | Mushroom_fw/Common/kl_lib/kl_sprintf.c:43-51 | For widths of up to nine digits the zero flag is a zero in front of the width |
| Numerals.NumberAlone | Mushroom_fw/Common/kl_lib/kl_sprintf.c:5-90 | A single %X, %u or %d with any width prints text that reads back, in base 16 or 10, as the argument |
| Rendering.WidthIsDecimal | Mushroom_fw/Common/kl_lib/kl_sprintf.c:43-51 | The digit by digit recursion in 32 bits computes the decimal value of the whole digit run modulo 2^32 |
| Sprintf.Printer.PlaceDigits | Mushroom_fw/Common/kl_lib/kl_sprintf.c:12-19 | Ten cells suffice for every 32-bit number in base 10 and 16, and hold in reverse the numeral that reads back as it |
| Sprintf.Printer.Pad | Mushroom_fw/Common/kl_lib/kl_sprintf.c:21-25 | Padding goes up to the width or to the end of the room, whichever comes first |
| Sprintf.Printer.PrintDigits | Mushroom_fw/Common/kl_lib/kl_sprintf.c:27-29 | Of digits that do not fit, the low-order ones are printed |
| Sprintf.Printer.IPutUint | Mushroom_fw/Common/kl_lib/kl_sprintf.c:11-30 | Prints zeros or spaces up to the width and the numeral of the number; what does not fit is cut from the padding behind or the numeral in front |
| Sprintf.Printer.PutChars | Mushroom_fw/Common/kl_lib/kl_sprintf.c:53-56 | Prints the string cut to the room; the count is one too many exactly if it was cut |
| Sprintf.Printer.PutArray | Mushroom_fw/Common/kl_lib/kl_sprintf.c:72-86 | Prints two hexadecimal digits for each byte with delimiters only in between, cut to the room |
| Sprintf.Printer.PutSigned | Mushroom_fw/Common/kl_lib/kl_sprintf.c:63-71 | Prints the sign in front of the padded magnitude, also for the least 32-bit number |
| Sprintf.Printer.Convert | Mushroom_fw/Common/kl_lib/kl_sprintf.c:53-86 | Each conversion prints its pieces and takes its own arguments off the list |
| Sprintf.Printer.ReadWidth | Mushroom_fw/Common/kl_lib/kl_sprintf.c:43-51 | The width is the decimal value modulo 2^32 of the digits in front of the conversion, read up to the first character that is none; the zero flag says whether one of them is a zero in front of which the width shows as zero |
| Sprintf.Printer.Vsprintf | Mushroom_fw/Common/kl_lib/kl_sprintf.c:5-90 | For every well-formed format and arguments the output is the rendering cut to MaxLength, of length min(rendering, MaxLength); the count returned is its length, or one more exactly if a string argument was cut; when the rendering fits both are exact |
| CommandParser.NumberIsRead | Mushroom_fw/Common/kl_lib/cmd_uart_f10x.cpp:81-125 | The printed digits of a byte make the current number that byte without overflow on the way, in one, two or three digits |
| CommandParser.LineIsRead | Mushroom_fw/Common/kl_lib/cmd_uart_f10x.cpp:74-131 | A printed line fires the callback once with its numbers and leaves the machine ready |
| CommandParser.LinesAreRead | Mushroom_fw/Common/kl_lib/cmd_uart_f10x.cpp:74-131 | Any number of lines fire their callbacks in order |
| CommandLines.FieldRead | Mushroom_fw/Common/kl_lib/cmd_uart_f10x.cpp:81-125 | A field of any number of digits, 0 to 9 and A to F, sets the current number to its decimal-place value in a byte, an empty one leaves it |
| CommandLines.ThreeFields | Mushroom_fw/Common/kl_lib/cmd_uart_f10x.cpp:74-131 | Three fields between commas or spaces make the call with their three numbers at either end character |
| CommandLines.FewerFields | Mushroom_fw/Common/kl_lib/cmd_uart_f10x.cpp:74-131 | A line of one or two fields makes no call |
| CommandLines.StartsAgain | Mushroom_fw/Common/kl_lib/cmd_uart_f10x.cpp:88-130 | A third delimiter, any other character, or anything but an end after three digits of the third number makes no call and starts the line again |
| CommandParser.PlanOfLine | Mushroom_fw/Common/kl_lib/kl_sprintf.c:34-88 | The format of three unsigned numbers is well formed and asks for exactly the digits, commas and the end |
| CommandParser.PrintedLine | Mushroom_fw/Common/kl_lib/kl_sprintf.c:5-90 | With room for twelve characters the whole line is printed for every triple of bytes |
| CommandParser.PrintParseRoundTrip | Mushroom_fw/Common/kl_lib/cmd_uart_f10x.cpp:40-131 | Whatever list of byte triples is formatted, feeding the characters back fires callbacks with exactly those triples in order, from any ready state |
| CommandParser.CmdUart.ReceiveAll | Mushroom_fw/Common/kl_lib/cmd_uart_f10x.cpp:60-72 | Bytes received over any polls that come before the buffer overruns take the machine where processing them one after another does |
| CommandParser.CmdUart.ReceivePrinted | Mushroom_fw/Common/kl_lib/cmd_uart_f10x.cpp:60-131 | From formatter to callbacks: what the formatter prints for any list of triples, received over any such polls, adds exactly those triples to the calls, in order |
| CommandParser.PrintAll | Mushroom_fw/Common/kl_lib/kl_sprintf.c:5-90 | One call of the formatter for each triple prints the text the round trip is about |
| CommandParser.CmdUart.IProcessByte | Mushroom_fw/Common/kl_lib/cmd_uart_f10x.cpp:74-131 | The branches on state, digit, delimiter and end follow the byte machine |
| CommandParser.CmdUart.IRxTask | Mushroom_fw/Common/kl_lib/cmd_uart_f10x.cpp:60-72 | Everything received since the last poll goes through the machine in order and once, around the end of the buffer |
| Buffers.CircBuf.Get | Mushroom_fw030/kl_lib/kl_buf.h:33-39 | Takes the oldest value, or reports an empty buffer |
| Buffers.CircBuf.PutAnyway | Mushroom_fw030/kl_lib/kl_buf.h:53-58 | With room it appends; on a full buffer the newest value replaces the oldest and is read next, after which the pointers match the count only in a buffer of one cell |
| Buffers.CircBuf.Put | Mushroom_fw030/kl_lib/kl_buf.h:59-62 | Appends, or refuses exactly when full and changes nothing |
| Buffers.CircBuf.FlushSome | Mushroom_fw030/kl_lib/kl_buf.h:67-76 | Drops that many values from the front, all at most, through the wrap |
| Buffers.CircBuf.Flush | Mushroom_fw030/kl_lib/kl_buf.h:77-80 | Empties the buffer |
| Buffers.CircBuf.PutBlock | Mushroom_fw030/kl_lib/kl_buf.h:139-156 | One or two pieces append the block as single puts would; a block that does not fit as a whole changes nothing |
| Buffers.CircBuf.GetBlock | Mushroom_fw030/kl_lib/kl_buf.h:128-137 | Takes the oldest values in order, as many as asked for or as there are |
| Buffers.DoubleBuf.Append | Mushroom_fw030/kl_lib/kl_buf.h:192-210 | Input so far is the exposed buffers followed by the one being filled; a switch exposes a full buffer, and until the next switch the exposed one keeps its contents |
| Buffers.ExposedIsStretch | Mushroom_fw030/kl_lib/kl_buf.h:185-212 | The m-th exposed buffer is the m-th stretch of Sz input values |
| CardRegister.SliceIsField | Mushroom_fw030/os/hal/hal_mmcsd.c:61-80 | For every field of up to 32 bits, in one word or across two, the result is (V div 2^start) mod 2^(end-start+1), V being the register as one number |
| CardRegister.MaskIsRemainder | Mushroom_fw030/os/hal/hal_mmcsd.c:72-79 | And-ing with a mask of ones is the remainder |
| CardRegister.OrOfDisjoint | Mushroom_fw030/os/hal/hal_mmcsd.c:76-77 | Or-ing pieces without common places is adding them |
| CardRegister.CapacityVersion1 | Mushroom_fw030/os/hal/hal_mmcsd.c:98-104 | The capacity agrees with section 5.3.2 of the SD Physical Layer Simplified Specification exactly if READ_BL_LEN is at least 9 |
| CardRegister.CapacityVersion2 | Mushroom_fw030/os/hal/hal_mmcsd.c:105-107 | The capacity agrees with section 5.3.3 of it exactly if C_SIZE is below its largest value |
| CardRegister.CapacityReserved | Mushroom_fw030/os/hal/hal_mmcsd.c:108-112 | Any other register structure gives 0 |
| KeyTrace.StateOfHold | Mushroom_fw/Candle/src/keys.cpp:26-78 | Flags and timers of a held key are facts about its hold alone: whether it gave a long press or a repeat, and when the press and the latest repeat were, on the 32-bit clock |
| KeyTrace.ElapsedIsTrueTime | Mushroom_fw/Common/kl_lib/kl_lib_f100.h:98-105 | The wrapped difference never reports a delay that has not truly passed, and within one turn reports it exactly |
| KeyTrace.PressIsRisingEdge | Mushroom_fw/Candle/src/keys.cpp:29-39 | A press is signalled by exactly the polls that find the key down after up, and nothing else with it |
| KeyTrace.EdgesAlternate | Mushroom_fw/Candle/src/keys.cpp:29-48 | Between two presses lies the poll that detects the end of the first hold |
| KeyTrace.HoldSignals | Mushroom_fw/Candle/src/keys.cpp:29-78 | A hold signals one press at its start, then at most one long press and one repeat in each poll, in that order; its end signals a release exactly if it gave no long press |
| KeyTrace.QuietWhenUp | Mushroom_fw/Candle/src/keys.cpp:41-48 | A key that is up signals nothing but the release that ends a hold |
| KeyTrace.AtMostOneLongPress | Mushroom_fw/Candle/src/keys.cpp:52-59 | A hold gives at most one long press, more than 3006 ticks after its press, across clock wrap |
| KeyTrace.StillPressed | Mushroom_fw/Candle/src/keys.cpp:50-78 | A poll that finds the key still down signals a long press and then a repeat, each at most once and exactly when its timer has elapsed |
| KeyTrace.LongPressIff | Mushroom_fw/Candle/src/keys.cpp:52-59 | A hold has given a long press exactly if the key has one and some poll of the hold saw the wrapped time past the delay |
| KeyTrace.LongPressInTrueTime | Mushroom_fw/Candle/src/keys.cpp:52-59 | With polls closer than a turn of the clock less the delay, exactly if the key was truly held longer than the delay |
| KeyTrace.LongPressMissedAfterATurn | Mushroom_fw/Candle/src/keys.cpp:52-59 | Otherwise it can be missed: two polls a whole turn of the clock apart |
| KeyTrace.RepeatsAreApart | Mushroom_fw/Candle/src/keys.cpp:61-77 | Repeats lie inside a hold, the first more than 999 ticks after the press, each more than 504 ticks after every earlier one, across clock wrap |
| KeyTrace.RepeatInTrueTime | Mushroom_fw/Candle/src/keys.cpp:61-77 | With polls close enough a poll repeats exactly if the delay since the latest repeat, or the press, has truly passed |
| Keys.KeysTask.TimeElapsed | Mushroom_fw/Common/kl_lib/kl_lib_f100.h:98-105 | For a timer set at any true time, never reports a delay that has not passed since, misses one only after a whole turn of the clock, and leaves the timer showing the time of its report, or the old time |
| Keys.KeysTask.Visit | Mushroom_fw/Candle/src/keys.cpp:26-78 | One turn of the loop on a key, time passing between its two looks at the clock, changes this key and signals as the trace does |
| Keys.KeysTask.ITask | Mushroom_fw/Candle/src/keys.cpp:22-80 | Each call adds to every key one poll of its own pin, none if there is no application thread; all keys and all calls made for them agree with their histories, and each call raises the flags its key has for a press, release, repeat or long press |

## Left out

- Sprintf.Printer.Vsprintf: demands a format that does not end inside a conversion, with arguments that match it; the source reads past the end otherwise.
- Sprintf.Printer.constructor: MaxLength is at least 1 and below 2^32 - 1. With 0 the source prints a character before it looks at the bound; with 2^32 - 1 the overrun count of a cut string wraps to 0. No caller passes either.
- Median.FindMediana: elements are integers, for which the comparison is a total order, and N is not negative.
- OutputBuffers.OutputBuffersQueue.constructor: at least one buffer of at least two bytes, the latter as the source demands.
- CommandParser.CmdUart.DmaReceive: demands that the pending bytes stay fewer than the cells of the receive buffer, that is that the task polls often enough; what an overrun does to such a ring is in Uart.RxRing.
- InputBuffers.InputBuffersQueue.ReadTimeout: a run contains finitely many resets (`Driver`), without which its inner wait need not end; the same holds of the steps of the rest of the system around a byte queue (`World`).
- ByteQueues.IoQueue.Transfer: how long a wait lasts; a finite timeout may strike at any step, an infinite one never.
- The public forms obqGetEmptyBufferTimeout, obqPostFullBuffer, ibqGetFullBufferTimeout and ibqReleaseEmptyBuffer are lock, inner form, unlock; only the inner forms are modelled. What mixing them into the stream does is stated on the packets: OutputStream.RewindKeepsStreamIffNothingPartial and PostKeepsStreamIff, InputStream.RewindKeepsStreamIffNothingTaken and ReleaseKeepsStreamIff.
- Size words are kept in an array beside the bytes (`words`) instead of in the first four bytes of each slot.
- Several readers or several writers on one buffers queue: the design is one thread on each side.
- Notify callbacks and link pointers of the queues.
- Kernel bodies: suspending, waking and timing out threads are the steps osal.h documents; the scheduler's choice of the next thread is arbitrary. chschd.c, chvt and chthreads are not part of this model.
- Priorities do not change while a thread is queued.
- Transmission side of the F100 command UART: its Printf cannot tell a full ring from an empty one; the counted ring of uart.cpp is modelled instead, each method atomic with respect to the interrupt.
- CircBufNumber_t::Put(T), which overwrites on a full buffer and reports an overflow, PutIfNotOverflow, GetPAndMove and GetLastP.
- _mmcsd_get_capacity_ext and the unpacking of CSD and CID records: lists of slices.
- TimeElapsed of the 030 firmware lacks the cast that makes the F100 one safe across the wrap; only the latter is modelled.
- Event flags of the application thread: the calls that set them are recorded with their masks.
- Radio, SPI, I2C, GPIO, ADC, PWM, clock and flash drivers, LEDs, applications, configuration headers.

