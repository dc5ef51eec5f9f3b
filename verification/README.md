# Character device, tail queue and socket server: a verified model

This project models three cooperating parts of the repository and proves what they promise.

* **The character device** (`aesd-char-driver`): a ring of the last ten lines, an unfinished
  working line, and any number of open files, each with its own position. `Ring.dfy` and
  `Device.dfy` hold the imperative code (the ring array and its indices, the working buffer, the
  kernel heap as a map from addresses to blocks); `DeviceModel.dfy` says what each call does on
  values; `DeviceRuns.dfy` and `DeviceReads.dfy` prove theorems about whole runs; `DeviceReplay.dfy`
  drives the device object through any run and shows that it follows the run model reply by reply;
  `DeviceAnswers.dfy` says, for all arguments and failures, what each of those replies is.
* **The tail queue** (`server/queue.h`): heap nodes whose back links are addresses of forward
  links, so that LAST and PREV read an entry as if it were a head (`TailQueue.dfy`), with the
  server's reaper loop on top of it. `Threads.dfy` lets the main loop and the workers interleave;
  `Selecting.dfy` holds the list function in which both state what a pass leaves.
* **The socket server** (`server/aesdsocket.c`): packet framing over a doubling buffer, in both
  builds (`Framing.dfy`), the append-and-read-back protocol of the file build under every interleaving of
  its threads (`Server.dfy`), and the device build, where packets and seek commands go to the
  character device (`DriverServer.dfy`).

`Bytes.dfy` and `Window.dfy` hold the shared vocabulary: lines of a byte stream, and offsets into
strings read end to end.

## How the parts are modelled

* Every device call does its work under the device lock, so one call is one step of a run. What
  `aesd_ioctl` does before it takes the lock, copying its argument and testing the index
  (main.c:281-288), touches no shared state; nor does anything else before the lock, but for ring
  indices that are read to be logged (main.c:76, 122-126, 211).
* Failures of the kernel services (an interrupted lock, `kmalloc`, `krealloc`, the user copies)
  are inputs of the calls, and every error path is modelled. A failed `krealloc` keeps the old
  block allocated, overwrites the only pointer to it and leaves `working_size` as it was; the next
  successful one exposes uninitialised memory, whose contents are an input too.
* `size_t` sums wrap at 2^64 and `loff_t` results at 2^63, explicitly. Calls that add up entry
  sizes require the live bytes to number fewer than 2^63 (`Fits`), which holds of every run that
  has taken in fewer than 2^63 bytes in all (`DeviceReplay.FewBytesPlayable`).
* Interleaving models (`Threads`, `Server`) have one event per step that other threads can see.
  Receiving, sending and reading back may split the bytes anywhere.
* The builds frame alike but for one thing: a packet that is a refused seek stays in the buffer. Which
  packets stay is an input of `Framing`, empty for the file build; `DriverServer` derives it from the run
  (`DriverServer.KeptBy`).
* A process can have only so many descriptors. `DriverServer` counts those in use for the device, and
  takes the number available for it, `fds`, as an input.
* Where the model needs `realloc` to fail, one number decides which call does: each size is asked
  for at most once, so a bound on the sizes covers every pattern up to the first failure.

## What is false of the code, and when it is true

* Bytes written are not always conserved: a `krealloc` that fails while the working buffer holds
  bytes loses them (`DeviceRuns.LossExample`). They are conserved after every call of a run exactly
  when no call of the run is of that kind (`DeviceRuns.ConservationExact`).
* Unloading the module does not free everything. The buffer that `aesd_init_module` allocates is
  never freed, and one block stays allocated for every line that was evicted from the ring, although
  the comment of `aesd_circular_buffer_add_entry` promises the replaced pointer to the caller; the
  function returns nothing. `DeviceReplay.EmptyRunLeaks` and `DeviceReplay.ElevenLinesLeak` are runs
  that show it. Nothing is left exactly when the init buffer was not allocated, at most ten lines were
  committed and no `krealloc` failure lost a pointer (`DeviceReplay.Lifetime`).
* Not every thread record is freed. A record is only looked at in the pass that follows the next
  accepted connection, so a finished one waits for that (`Threads.FreedOnlyAfterAccept`), and the pass
  frees it exactly when its flag is set at the one moment it is read (`Threads.PassExact`); in
  particular when it was set before the pass began (`Threads.FlaggedIsFreed`). A connection that
  delivers no byte never sets it, and its record is never freed (`Threads.SilentNeverFreed`, with the
  run `Threads.SilentRun`).
* Not every complete line is committed at once: a write moves at most one line, so of two lines in one
  write the second waits (`DeviceRuns.TwoLinesInOneWrite`). All are committed exactly when, after each
  point of the run, as many calls that can commit a line follow as newlines
  (`DeviceRuns.AllLinesCommittedExactly`).
* A failed write may have changed the device. When the block for a complete line cannot be allocated, it
  replies ENOMEM although all its bytes were taken in, and a caller who retries writes the line twice
  (`DeviceRuns.RetryDuplicates`). The device is unchanged exactly when the input was never copied in, or
  when the first `krealloc` failed with no bytes to lose (`DeviceRuns.FailedWriteUnchanged`).
* In the device build not every line that a client sends reaches the device. After a refused seek the
  packet buffer is not reset, so the connection repeats that seek with every later line and writes none
  of them (`DriverServer.StuckBehindFailedSeek`, `DriverServer.FirstSeekSticks`); when the seek succeeds
  at last, they are dropped (`DriverServer.AcceptedSeekDiscards`). Each refused seek also leaves the
  descriptor that it opened for the device open (aesdsocket.c:209, 217-221), so `fds` of them, on any
  connections, use up all there are (`DriverServer.OpenIsRefused`); from then on no line of any
  connection is written (`DriverServer.NothingAfterUsedUp`, with the run
  `DriverServer.DescriptorsUsedUp`). Every line that is not a command is written exactly when each comes
  in on an empty buffer and after fewer than `fds` refused seeks (`DriverServer.AllWrittenExactly`).

## Model

| member | source | states |
|---|---|---|
| Ring.CircularBuffer.constructor | aesd-char-driver/aesd-circular-buffer.c:107-110 | an initialised ring is the ring of an empty history |
| Ring.CircularBuffer.AddEntry | aesd-char-driver/aesd-circular-buffer.c:83-102 | adding keeps the ring equal to what its whole history leads to |
| Ring.RingClosedForm | aesd-char-driver/aesd-circular-buffer.c:89-109 | after n additions in_offs is n mod 10, full iff n >= 10, out_offs is n mod 10 or 0; in ring order the slots are the last min(n, 10) additions, then blank slots |
| Ring.CircularBuffer.FindEntryOffsetForFpos | aesd-char-driver/aesd-circular-buffer.c:32-72 | returns the slot and offset that the position falls on when the live entries are read end to end, and nothing at or past their total; no size_t sum wraps |
| Window.LocateInverse | aesd-char-driver/aesd-circular-buffer.c:58-71 | the lookup and the (entry, offset)-to-position map are inverse to each other, both ways |
| Window.LocateByte | aesd-char-driver/aesd-circular-buffer.c:22-31 | a position is found iff it is inside the concatenation, and the byte found is the byte of the concatenation |
| Ring.CircularBuffer.TotalSize | aesd-char-driver/main.c:217-228 | both ways of summing, array order when full and ring order otherwise, give the live total in every reachable ring |
| Ring.SumFromOut | aesd-char-driver/main.c:218-221 | the sum of the slots does not depend on where the ring starts |
| Ring.CircularBuffer.Walk | aesd-char-driver/main.c:294-303 | the walk that ignores in_offs and full reaches the entry asked for and the bytes before it, or a blank slot of size 0 when there is no such entry |
| Device.Device.constructor | aesd-char-driver/main.c:394-402 | a fresh device has no lines and an empty working buffer, and the heap holds the 1024-byte init buffer, or nothing when its allocation failed |
| Device.Device.Write | aesd-char-driver/main.c:110-201 | the device object goes from state to state, and answers, as `WriteStep` says, error paths included (what that is: `DeviceAnswers.WriteReplies`, `DeviceAnswers.WriteEffects`); it keeps one block per line ever committed, distinct from each other and from the working block, and loses track of a block only when a krealloc fails |
| DeviceAnswers.WriteReplies | aesd-char-driver/main.c:114-200 | on any device a write replies the number of all its bytes iff its input was copied in and, unless it was empty, krealloc succeeded and so did the entry's kmalloc if there is a complete line; otherwise the error of the first service that failed |
| DeviceAnswers.WriteEffects | aesd-char-driver/main.c:135-193 | on any device a write changes nothing before its bytes are appended; appended bytes stay in the working buffer, or its first complete line, and only that, becomes the last line and the rest stays; a failed krealloc leaves the lines and the size |
| Device.Device.Grow | aesd-char-driver/main.c:153-164 | appends the chunk, or drops the pointer and keeps the size when krealloc fails |
| Device.Device.Commit | aesd-char-driver/main.c:166-193 | moves exactly the first complete line of the working buffer into a block of its own and the ring, and keeps the rest |
| Device.Device.Read | aesd-char-driver/main.c:66-108 | new position and bytes as `ReadStep` says |
| DeviceAnswers.ReadAnswers | aesd-char-driver/main.c:82-107 | for every count and failure: ERESTARTSYS and EFAULT move nothing; past the end nothing is returned; otherwise the bytes from the position to the count or the end of the entry, whichever is first |
| Device.Device.Llseek | aesd-char-driver/main.c:203-257 | new position and result as `SeekStep` says, from the true live total |
| DeviceAnswers.SeekAnswers | aesd-char-driver/main.c:213-256 | for every offset, whence and failure: an interrupted or refused seek moves nothing, any other moves to the target and returns it |
| Device.Device.Ioctl | aesd-char-driver/main.c:259-329 | moves and answers as `SeekToStep` says (what that is: `DeviceAnswers.SeekToAnswers`); the final lookup never fails |
| DeviceAnswers.SeekToAnswers | aesd-char-driver/main.c:276-328 | for every command, place and failure: success iff it is the seek command, the copy works, the lock is not interrupted and the place is a byte of a live entry, and then the lookup finds that place; otherwise the file stays, and the error is ENOTTY, EFAULT, EINVAL or ERESTARTSYS, each exactly when its test comes first |
| Device.Device.Cleanup | aesd-char-driver/main.c:407-429 | every kfree is of an allocated block, all slots end blank, and what stays allocated is exactly the init buffer, one block per evicted line and the blocks lost by failed krealloc |
| Device.Device.FreeSlots | aesd-char-driver/aesd-circular-buffer.h:75-78 | the walk over all ten slots frees each live block once |
| Device.SlotBlocks | aesd-char-driver/main.c:170-181 | the slots are blank or hold the live entries, each once, in pairwise distinct blocks |
| DeviceReplay.Replay | aesd-char-driver/main.c:337-346 | any run of calls over any number of files: every reply, the final device and all positions are those of the run model, as long as the live bytes can be addressed |
| DeviceAnswers.EveryCallAnswered | aesd-char-driver/main.c:66-329 | in any run each reply, the device and every file's position after it are as those four say; a write moves no file, any other call at most its own |
| DeviceReplay.Unload | aesd-char-driver/main.c:407-429 | after any run, unloading leaves exactly the init buffer, one block per evicted line and one per krealloc failure that lost a pointer |
| DeviceReplay.Lifetime | aesd-char-driver/main.c:363-438 | from loading over any run to unloading: nothing stays allocated iff the init buffer was not allocated, at most ten lines were committed and no pointer was lost |
| DeviceReplay.ElevenLinesLeak | aesd-char-driver/main.c:396-424 | eleven one-line writes leave two blocks behind: the first line's and the init buffer |
| DeviceReplay.EmptyRunLeaks | aesd-char-driver/main.c:396 | an empty run already leaves the init buffer |
| DeviceReplay.FewBytesPlayable | aesd-char-driver/main.c:217-228 | a run that takes in fewer than 2^63 bytes in all never meets live bytes that cannot be addressed |
| DeviceRuns.RunKeepsCount | aesd-char-driver/main.c:150-194 | in every run, failures included, committed lines end in their only newline, and committed plus working bytes number the bytes taken in |
| DeviceRuns.RunConserves | aesd-char-driver/main.c:150-194 | all committed lines followed by the working buffer are exactly the bytes taken in, in order, in every run without a losing call |
| DeviceRuns.ConservationExact | aesd-char-driver/main.c:153-158 | that holds after every call of a run iff no call of it loses bytes |
| DeviceRuns.LossExample | aesd-char-driver/main.c:153-160 | a failed krealloc followed by a write commits a line with a byte nobody wrote |
| DeviceRuns.OrphansExact | aesd-char-driver/main.c:153-190 | a call leaves one block without a pointer iff it loses bytes that a block still held |
| DeviceRuns.CommittedArePrefix | aesd-char-driver/main.c:166-193 | committed lines, then the complete lines still waiting, are the newline split of the stream |
| DeviceRuns.ServiceLaw | aesd-char-driver/main.c:150-193 | the number of committed lines is the minimum over all points of the run of the newlines arrived by then plus the calls after it that could commit one |
| DeviceRuns.ServiceLawForWrites | aesd-char-driver/main.c:150-193 | after n non-empty writes that succeed, the number of committed lines is the minimum over j <= n of the newlines in the first j writes plus n - j |
| DeviceRuns.AllLinesCommittedExactly | aesd-char-driver/main.c:150-193 | every complete line of the stream is committed, the working buffer being its tail, iff at each point of the run the newlines so far plus the later calls that can commit a line are at least the newlines in all |
| DeviceRuns.TwoLinesInOneWrite | aesd-char-driver/main.c:150-193 | any two lines in one good write: one is committed, the other waits |
| DeviceRuns.FailedWriteUnchanged | aesd-char-driver/main.c:136-174 | after any run, a write that fails leaves the device as it was iff its input was never copied in, or krealloc failed with no bytes to lose |
| DeviceRuns.RetryDuplicates | aesd-char-driver/main.c:170-174 | a line whose entry cannot be allocated is answered ENOMEM; after a retry it is committed and there once more |
| DeviceReads.ReadIsSlice | aesd-char-driver/main.c:85-103 | a read returns the bytes of the concatenation that follow its position and moves by as many; it returns nothing only for count 0 or at the end |
| DeviceReads.ReadFillsOrStops | aesd-char-driver/main.c:92-103 | a read copies all that was asked for unless it stops exactly at the end of the entry its position falls in |
| DeviceReads.ReadAllIsSuffix | aesd-char-driver/main.c:85-103 | reads with any positive counts end, and together return everything from the position on |
| DeviceReads.SeekExact | aesd-char-driver/main.c:232-253 | llseek moves iff the whence is known and the target is in 0 .. 2^63 - 1, wrap-around included |
| DeviceReads.ReadLastBytes | aesd-char-driver/main.c:239-253 | seeking to k bytes before the end and reading on returns the last k bytes |
| DeviceReads.SeekToExact | aesd-char-driver/main.c:285-323 | the seek command succeeds iff the index is below the number of live entries and the offset below that entry's size, and lands on that byte; otherwise EINVAL and nothing moves |
| DeviceReads.ReadFromEntry | aesd-char-driver/main.c:309-323 | after the command, the lookup finds the same entry and offset, and reading on returns the rest of that entry and all later ones |
| DeviceReads.ReadsFromStream | aesd-char-driver/main.c:85-103 | in every run each read of each file is the committed stream at the evicted bytes plus the position |
| DeviceReads.ReadsSlide | aesd-char-driver/main.c:102-103 | for a file that never seeks, each read starts where the one before ended plus exactly the bytes evicted in between, under any other calls |
| DeviceReads.SlidesForward | aesd-char-driver/main.c:102-103 | so reads never overlap or go back |
| TailQueue.Head.constructor | server/queue.h:690-694 | an empty queue |
| TailQueue.Head.InsertHead | server/queue.h:721-732 | the element comes first; all links stay right |
| TailQueue.Head.InsertTail | server/queue.h:734-742 | the element comes last; all links stay right |
| TailQueue.Head.InsertAfter | server/queue.h:696-709 | the element comes right after the given one |
| TailQueue.Head.InsertBefore | server/queue.h:711-719 | the element comes right before the given one, without the head being named |
| TailQueue.Head.Remove | server/queue.h:752-768 | exactly that element leaves the queue, from any position, and keeps its own link |
| TailQueue.Head.Concat | server/queue.h:635-644 | the first queue becomes both, the second empty, also when either is empty |
| TailQueue.Head.Swap | server/queue.h:770-785 | the queues change places, also when either is empty |
| TailQueue.Head.Last | server/queue.h:744-745 | reading the tail slot as a head gives the last element, or NULL for the empty queue |
| TailQueue.Head.Prev | server/queue.h:749-750 | reading the back link as a head gives the predecessor, or NULL for the first element |
| TailQueue.Head.Forward | server/queue.h:650-653 | forward traversal visits the queue in order |
| TailQueue.Head.Backward | server/queue.h:670-673 | reverse traversal visits it in exactly the reverse order |
| TailQueue.Spliced | server/queue.h:696-742 | which links make a queue with one more element, at any position |
| TailQueue.LinksDetermineQueue | server/queue.h:570-592 | the links alone determine the queue |
| TailQueue.Reap | server/aesdsocket.c:478-488 | the loop visits each record once, leaves exactly the unfinished ones in order, frees exactly the finished ones, and never looks at a freed record |
| Threads.InvStep | server/aesdsocket.c:448-489 | every step of main thread or worker keeps: queued and running threads have live records, freed records belong to flagged threads that have exited |
| Threads.QueueIsAccepted | server/aesdsocket.c:461-486 | in every run the queue, with the record just accepted, is exactly the accepted records that are not freed, in order of acceptance |
| Threads.WorkersFollowEvents | server/aesdsocket.c:296-308 | a record exists, is flagged, or its thread has exited iff an event of that thread has made it so |
| Threads.FreedIsJoined | server/aesdsocket.c:483-486 | the freed records are exactly those that the main thread has joined |
| Threads.MainGoesOn | server/aesdsocket.c:448-488 | the main thread can always take its next step, waiting at most for the exit of the thread that it joins; a new connection can be accepted whenever it is back at accept |
| Threads.WorkersRunFreely | server/aesdsocket.c:296-308 | a worker can work, set its flag and exit exactly from its start to its exit, whatever the main thread does |
| Threads.NoUseAfterFree | server/aesdsocket.c:296-308 | no step touches a freed record, neighbours in the queue included, and none is freed twice |
| Threads.OnlyTouched | server/aesdsocket.c:448-488 | what counts as touched is complete: an event neither depends on nor changes the thread state of any other record |
| Threads.LinksTouched | server/aesdsocket.c:474-485 | nor does it change the links of any other record |
| Threads.ReapingIsSafe | server/aesdsocket.c:476-488 | both hold at every moment of every interleaving, because the join comes before the free |
| Threads.PassResult | server/aesdsocket.c:476-488 | a whole pass leaves the queue as the tail queue's reaper does, for the flags that this interleaving let it read, and frees exactly the others |
| Threads.PassExact | server/aesdsocket.c:476-488 | from an insertion to the next accept the flag of each record queued before, and of the new one, is read by exactly one event; the record is freed iff the flag was set then, and stays queued iff not |
| Threads.FlaggedIsFreed | server/aesdsocket.c:482-487 | a record that is queued before the insertion, or the one inserted, is freed by the end of the pass if its flag was set before |
| Threads.FreedOnlyAfterAccept | server/aesdsocket.c:448-481 | between two connections nothing is freed, whatever flags are set |
| Threads.SilentNeverFreed | server/aesdsocket.c:297-305 | the record of a thread that exits without setting its flag is never freed |
| Threads.SilentRun | server/aesdsocket.c:297-305 | such a run exists: after the pass the record of a connection that delivered nothing is still queued |
| Threads.FlaggedRun | server/aesdsocket.c:304-305 | and one that sets its flag: the same pass frees its record |
| Framing.HandleConnection | server/aesdsocket.c:145-309 | in both builds, however recv cuts the stream, the packets and the bytes left over depend only on the stream and on which packets were refused seeks; the completion flag is set iff a byte came and no realloc failed |
| Framing.Packetizer.Take | server/aesdsocket.c:172-191 | one byte goes through the buffer as `TakeByte` says, in both builds |
| Framing.PacketsOfStream | server/aesdsocket.c:188-291 | in both builds each packet is a line of the stream behind the lines kept by refused seeks just before it, and the buffer holds what was kept and the unterminated tail |
| Framing.PacketsAreLines | server/aesdsocket.c:188-291 | in the file build, and whenever no seek is refused, the packets are exactly the lines of the stream, and the buffer holds the unterminated tail |
| Framing.PacketsDetermine | server/aesdsocket.c:188-221 | given which packets were kept, the packets determine the lines |
| Framing.PacketsArePrefix | server/aesdsocket.c:176-183 | also when an allocation fails, the packets handled are the first packets of the stream |
| Framing.UpToFailure | server/aesdsocket.c:173-184 | namely all that were complete before the byte that found no memory, and the buffer is gone |
| Framing.BufferFits | server/aesdsocket.c:173-188 | in both builds the buffer is the least of 1024, 2048, ... that the longest packet so far needs, kept lines included, never overflows, and the sizes asked for sum to less than twice its size; a realloc fails iff that size exceeds what the allocator gives |
| Framing.CapacityBounds | server/aesdsocket.c:175 | that size is 1024 times a power of two, at most 1024 or less than twice the longest packet |
| Server.InvStep | server/aesdsocket.c:252-291 | every step of every thread keeps the protocol's invariant: mutual exclusion, the file is the appends in lock order, each thread's appends and echoes match its stream |
| Server.ServerPromise | server/aesdsocket.c:252-291 | at every moment of every interleaving the file is the concatenation of appends in lock order, each echo is the file just after its own append, earlier echoes are prefixes of later ones, each client's packets are the first lines of what recv returned for it, and the timestamps in the file are those made so far, but for one still waiting |
| Server.EchoEndsInOwnPacket | server/aesdsocket.c:254-289 | each echo ends with its own packet |
| Server.EchoesNest | server/aesdsocket.c:261-289 | earlier echoes are prefixes of later ones and of the file |
| Server.SendingOrder | server/aesdsocket.c:170-291 | a client's packets reach the file in the order in which recv returned them, each once; whenever the thread is back at recv, all lines received are in the file and each has been echoed once |
| Server.LedgerIsReceived | server/aesdsocket.c:170-191 | bytes processed and bytes waiting are together exactly what the recv calls returned |
| Server.StampsWritten | server/aesdsocket.c:319-334 | every timestamp made is in the file, in order and unchanged, but for one that still waits for the mutex or the write |
| Server.AnyOrderHappens | server/aesdsocket.c:170-334 | for any list of lines from any connections and of timestamps there is a run that appends exactly these, in this order, and ends with every thread idle |
| Server.NoDeadlock | server/aesdsocket.c:252-289 | a thread with bytes or a packet in hand has a step of its own to take, or waits for a holder of the mutex that has |
| Server.ClockGoesOn | server/aesdsocket.c:326-334 | the timestamp thread with a timestamp in hand has a step to take, or waits for a holder of the mutex that has |
| Server.OnlyTheMutexBlocks | server/aesdsocket.c:170-334 | except for taking the mutex, what a thread can do next depends on that thread and the file alone, never on the others |
| Server.SectionEnds | server/aesdsocket.c:252-289 | every echo and append ends: after at most `StepsLeft` steps of its own, whatever other threads do in between, the holder has let the mutex go |
| Server.FileStep | server/aesdsocket.c:326-332 | appends of packets and of timestamps keep the file equal to the log |
| DriverServer.Drain | server/aesdsocket.c:271-285 | the read loop over the device sends exactly the live bytes from the position on |
| DriverServer.HandlePacket | server/aesdsocket.c:195-291 | one packet, against the device object, does what `Handle` says, also to the number of open descriptors (what that is: `DriverServer.PacketAnswered`, `DriverServer.EveryEcho`) |
| DriverServer.PacketAnswered | server/aesdsocket.c:207-266 | something is sent back iff a descriptor is free and the packet is no command or names a byte of a live entry; otherwise the packet stays in the buffer and the device as it was |
| DriverServer.EveryEcho | server/aesdsocket.c:195-291 | in every run, for each arrival: what is sent back, or that nothing is, and what becomes of the device, the written packets and all buffers |
| DriverServer.Serve | server/aesdsocket.c:170-291 | any arrivals on any connections, against the device object: the device, all buffers, the open descriptors and every echo are those of the run model |
| DriverServer.StreamsArriveAsLines | server/aesdsocket.c:170-221 | at any moment and in any lock order, when each connection has handed on the first packets that framing makes of its stream, failed allocations and kept packets included, every arrival is a line and they are the first lines of the stream |
| DriverServer.DeviceBufferFits | server/aesdsocket.c:173-221 | in every run a connection's packet buffer holds what the run says it keeps, and its size is the least that the longest packet needs, lines kept behind refused seeks included |
| DriverServer.RunKeepsInv | server/aesdsocket.c:188-254 | in every run, refused seeks included, the device's working buffer is empty between packets and the ring holds the last ten packets written |
| DriverServer.OpenIsRefused | server/aesdsocket.c:209-221 | the descriptors in use are as many as the seeks refused so far, until there are none left |
| DriverServer.NothingAfterUsedUp | server/aesdsocket.c:252-266 | with no descriptor left nothing is written any more, on any connection |
| DriverServer.DescriptorsUsedUp | server/aesdsocket.c:209-221 | such a run exists: `fds` refused seeks on one connection, and a line on another with an empty buffer is not written |
| DriverServer.RingHoldsLastPackets | server/aesdsocket.c:195-254 | when every seek succeeds and there is a descriptor, the ring holds exactly the last ten non-command packets in lock order, whatever counts as a command |
| DriverServer.AllWrittenExactly | server/aesdsocket.c:209-221 | every non-command line reaches the device iff each comes in on an empty buffer and after fewer refused seeks than there are descriptors |
| DriverServer.StuckBehindFailedSeek | server/aesdsocket.c:209-221 | among any arrivals on any connections, while the device refuses its seek and a descriptor is left, a connection only fills its buffer: device, written packets and all other connections are as if its lines had never been sent, but each line costs a descriptor |
| DriverServer.AcceptedSeekDiscards | server/aesdsocket.c:226-247 | when that seek is accepted at last, everything held behind it is dropped, unwritten |
| DriverServer.FirstSeekSticks | server/aesdsocket.c:216-221 | any seek command before the first packet fails and leaves its connection stuck |
| DriverServer.EchoOfPacket | server/aesdsocket.c:252-289 | a packet is answered with the last ten packets, its own at the end |
| DriverServer.EchoOfSeek | server/aesdsocket.c:205-247 | a successful seek is answered with the rest of the entry it names and the entries after it |
| Bytes.SplitRestores | server/aesdsocket.c:188-191 | lines and tail of a stream are the stream |
| Bytes.SplitOfLines | aesd-char-driver/main.c:166-188 | the division into lines is the only one: lines put in front of any string come out first |

## Left out

- Kernel registration, `open`, `release`, `fsync` and logging: no state of their own.
- The temporary `kbuf` of a write is a local value, not a heap block: it lives for one call.
- `sscanf` reading stale bytes behind an unterminated packet: command recognition is a parameter, assumed not to depend on bytes behind the newline that ends a command.
- Server runs in which opening, writing or reading the file fails: `Server` covers runs where file operations succeed, and `DriverServer` those where they fail only for want of a descriptor.
- What else such a failed open does: the mutex is unlocked a second time (aesdsocket.c:257, 264), and the rest of the batch is dropped (265). The arrivals of `DriverServer` are then what is left.
- The descriptors of sockets: the number that the device can have is one number for the whole run.
- Overflow of `packet_size * 2` at 2^64: the allocator bound is reached first.
- `pthread_create` failing, which ends the process; socket setup, daemon forking, signals and timestamps' text.
- SLIST, STAILQ and LIST macros, and the FROM variants of the TAILQ loops: easier variants of what is modelled.
- `finder-app`, `examples`, `student-test`, scripts and Makefiles: thin wrappers over system calls.
