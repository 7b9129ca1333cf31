# A verified model of the engine's common core and asset unpackers

This project models, in Dafny, the parts of the engine that the rest of it
builds on:

- the growing ring-buffer `Queue<T>` and the bit helpers it relies on
  (`src/common/queue.h`, `src/common/bits.h`);
- the three closable queues: `MPMCQueue` (`sync.h`), the thread pool's
  `MTQueue` (`thread.h`) and the stand-alone `MtQueue` (`mt_queue.h`);
- the two counters that threads wait on, `TaskLatch` (`sync.h`,
  `sync.cpp`) and `CountingFuture` (`thread.h`);
- the thread pool as a transition system: `submit`, the worker loop with
  its splitting of ranged tasks, `shutdown`, the thread-local worker
  identity, and both overloads of `submit_parallel_map` (`thread.cpp`,
  `thread.h`);
- `FileContents::read_at` and the path helpers of `io.h` and `io.cpp`;
- the WAD3 texture archive parser (`src/hl1/wad3.cpp`);
- the Quake `.pak` unpacker (`utils/quake-unpack.cpp`).

Each C++ type becomes an immutable datatype and each operation becomes a
pure function, or a method where the source's loop carries the proof.
Fixed-width integers are written out explicitly:

- `size_t` values are naturals below 2^64, wrapped with `Bits.WrapSize`;
- `uint32_t` values are wrapped with `Bytes.WrapU32`;
- `ptrdiff_t` values are wrapped with `Latch.WrapPtrdiff`.

Concurrency is modelled as in the source's locking discipline: each locked
region is one transition of the model, and so is an atomic counter update
made after a lock is released, as in `MPMCQueue::try_push` and
`ThreadPool::submit`. A worker's decrement after it runs a piece is folded
into its step. Atomic counters are kept as the running sum of their updates
and read modulo 2^64.
Blocking calls return a `Blocked` or "not released" outcome instead of
waiting. Byte images of the packed structs are decoded as little-endian
fields, which is what `memcpy` into a packed struct yields on the
little-endian targets the code is built for.

Most operations are paired with something independent of their body:

- an abstract reference, such as a plain sequence for the ring buffer and
  the closable queue for `MPMCQueue`;
- an inverse, as for the record encoders and the path split and join;
- or an acceptance rule stated without the code's control flow, as for
  `parse_miptex` and `unpack_pak_file`.

A lemma then connects such an operation to its partner for all inputs.
Some small accessors have no partner beyond a neighbouring operation:
`size`, `remaining`, `done`, the thread-local getters and the header
check of the `.pak` unpacker. Their contracts relate them to the
operation that reads or changes the same state.

Files: `bits.dfy`, `ring_queue.dfy`, `bytes.dfy`, `paths.dfy`,
`closable.dfy`, `mpmc.dfy`, `latch.dfy`, `future.dfy`, `pool.dfy`,
`parallel_map.dfy`, `wad3.dfy`, `pak.dfy`, one module each.

## Model

| member | source | states |
|---|---|---|
| Bits.IsPow2 | src/common/bits.h:23-26 | holds exactly when the 64-bit value is 2^k for some k; zero is rejected even though `v - 1` wraps to all ones |
| Bits.IsPow2Trick | src/common/bits.h:25 | the test `(v & (v - 1)) == 0 && v != 0`, with `v - 1` wrapping modulo 2^64, is equivalent to v being a power of two |
| Bits.ClearLowestBit | src/common/bits.h:25 | for v >= 1, clearing the lowest set bit gives zero if and only if v is a power of two |
| Bits.IsPow2Exists | src/common/tests/bits_test.cpp:7-35 | `is_pow2(v)` holds for a 64-bit v exactly when some power 2^k equals v |
| Bits.NextLog2 | src/common/bits.h:28-41 | the result e is the bit length of v: 0 for 0, otherwise 2^(e-1) <= v < 2^e, and never above 64 |
| Bits.LeadingZerosIsBitLength | src/common/bits.h:37 | for a non-zero value below 2^width, width minus its count of leading zero bits is its bit length |
| Bits.MsvcNextLog2Agrees | src/common/bits.h:42-56 | the bit-scan-reverse branch (index of the highest set bit plus one, or 0 when none is set) returns the same exponent |
| Bits.NextLog2Portable | src/common/bits.h:57-64 | the shift-and-count loop returns the same exponent as the builtin branch, i.e. the bit length |
| Bits.NextLog2Monotone | src/common/tests/bits_test.cpp:80-89 | next_log2 never decreases as its argument grows |
| Bits.NextPow2 | src/common/bits.h:67-70 | the result is a power of two strictly above v, and no smaller power of two is above v |
| Bits.NextLog2Inclusive | src/common/bits.h:72-79 | for v >= 1, 2^(e-1) < v <= 2^e; the result is one less than next_log2 exactly when v is a power of two |
| Bits.NextPow2Inclusive | src/common/bits.h:81-84 | the result is the smallest power of two that is at least v |
| Bits.MaskIsMod | src/common/queue.h:26 | masking with 2^k - 1 gives the remainder modulo 2^k, which is how slots are indexed |
| RingQueue.New | src/common/queue.h:17-18 | a new queue is empty and its capacity is the smallest power of two at least `initial` |
| RingQueue.Grow | src/common/queue.h:71-89 | `ensure_capacity` doubles the capacity, moves head to 0 and tail to the size, and keeps the items in order |
| RingQueue.GrowCopy | src/common/queue.h:75-83 | the one- or two-segment copy leaves the items, oldest first, at the front of the doubled buffer |
| RingQueue.Push | src/common/queue.h:21-29 | appends the item at the back; the capacity doubles exactly when the queue was full |
| RingQueue.Front | src/common/queue.h:32-38 | on a non-empty queue, returns the oldest item |
| RingQueue.Pop | src/common/queue.h:41-48 | removes the oldest item and touches neither the buffer nor the tail |
| RingQueue.Size | src/common/queue.h:51-57 | `tail - head` modulo 2^64 is the number of items held, never more than the capacity |
| RingQueue.SizeFormula | src/common/queue.h:52-56 | the wrapped difference is the true count both when tail >= head and when the tail has wrapped past 2^64 |
| RingQueue.Empty | src/common/queue.h:60-62 | `head == tail` exactly when no item is held |
| RingQueue.RunRefines | src/common/queue.h:21-62 | any sequence of pushes and pops behaves as the same sequence on a plain list, including the abort on popping an empty queue |
| RingQueue.RunIsFifo | src/common/queue.h:21-48 | over any run, the initial items followed by the pushed items are the popped items followed by the items left |
| RingQueue.WrapAroundExample | src/common/tests/queue_test.cpp:78-126 | capacity 4: after three pushes, two pops and three pushes the queue holds 3,4,5,6 and has not grown; a fifth item doubles the capacity and unwraps the buffer |
| Bytes.ReadAt | src/common/io.h:15-21 | corrected bound: succeeds exactly when the offset plus the size of dst is within the contents, copying those bytes; on failure dst is untouched |
| Bytes.ReadAtAsWritten | src/common/io.h:16 | the check as written on `size_t` lets a read through exactly when the wrapped sum is in bounds but the true sum is not |
| Bytes.ReadAtAsWrittenAgrees | src/common/io.h:16 | when `offset + sizeof(T)` does not overflow, the check as written agrees with the exact one |
| Bytes.ReadAtWrapExample | src/common/io.h:16 | an offset of 2^64 - 1 passes the check for a 2-byte read from a 3-byte file |
| Bytes.ReadAtFields | src/common/io.h:15-21 | reading a record in one call gives the same bytes as reading its fields at consecutive offsets |
| Bytes.EmptyReadsFail | src/common/tests/io_test.cpp:227-234 | every non-empty read from an empty file fails |
| Bytes.ReadExamples | src/common/tests/io_test.cpp:162-187 | the bytes 01..08 read as the little-endian 16-, 32- and 64-bit values of the test |
| Bytes.DecodeEncode | src/common/io.h:19 | decoding the n-byte little-endian image of a value below 256^n gives the value back |
| Bytes.EncodeDecode | src/common/io.h:19 | re-encoding a decoded byte string at its own width gives the bytes back |
| Bytes.LittleEndianConcat | src/common/io.h:19 | two adjacent little-endian fields read as one wider field, the second scaled by 256^(width of the first) |
| Bytes.U32OfSlice | src/common/io.h:19 | a `uint32_t` read from a slice of the contents is the one read at the same place in the whole contents |
| Bytes.CString | src/hl1/wad3.cpp:73 | the name is the prefix of the field before its first NUL, or the whole field when it has no NUL |
| Bytes.CStringUnique | utils/quake-unpack.cpp:106 | any prefix that is NUL-free and is followed by a NUL, or ends the field, is the name |
| Paths.TrimEnd | src/common/io.cpp:20-26 | returns the length without trailing spaces, tabs, CRs and LFs: everything after it is white space and the character before it is not; it equals the recursive definition `TrimmedLength` |
| Paths.TrimEndIdempotent | src/common/io.cpp:20-26 | trimming a string already trimmed removes nothing more |
| Paths.LastIndexOf | src/common/io.cpp:31 | `strrchr`: the index of the last occurrence of the character, or none when it does not occur |
| Paths.LastIndexOfUnique | src/common/io.cpp:31 | an occurrence with no occurrence after it is the one `strrchr` finds |
| Paths.PathGetDirectoryAsWritten | src/common/io.cpp:30-36 | as written: the text before the last '/', or "" when there is none |
| Paths.PathGetFilenameAsWritten | src/common/io.cpp:38-44 | as written: the text from the last '/' on, separator included, or the whole path when there is none |
| Paths.SplitAsWrittenRoundTrip | src/common/io.cpp:30-44 | as written, directory and filename concatenate back to the path |
| Paths.SplitAsWrittenExamples | src/common/io.cpp:43 | as written, the filename of "/home/user/file.txt" is "/file.txt", and the directory of "/file" and of "/" is "" |
| Paths.PathGetDirectory | src/common/tests/io_test.cpp:10-46 | the text before the last '/', except that a path whose only '/' is its first character has directory "/", and a path without '/' has "" |
| Paths.PathGetFilename | src/common/tests/io_test.cpp:48-95 | the suffix after the last '/', which contains no '/', or the whole path when it has none |
| Paths.SplitExamples | src/common/tests/io_test.cpp:10-95 | the directory and filename cases of the tests, including "/file", "/", "/root/" and "/home/user/" |
| Paths.PathJoin | src/common/io.cpp:46-59 | an empty second path gives the first; an absolute second path replaces the first; otherwise the result starts with the first path and ends with the second, with at most one character between them |
| Paths.JoinSeparator | src/common/io.cpp:53-57 | that character is a '/', inserted exactly when the first path is non-empty and does not already end in '/'; no separator is added when the first path is empty or ends in '/' |
| Paths.FilenameOfJoin | src/common/io.cpp:46-59 | joining a directory with a separator-free name and taking the filename gives the name back |
| Paths.JoinOfSplit | src/common/io.cpp:30-59 | for a path with a non-empty filename and no doubled '/', joining its directory and filename gives the path back |
| Paths.JoinAtSeparator | src/common/io.cpp:46-59 | splitting a path at any single '/' and joining the halves gives the path back |
| ClosableQueue.NewQueue | src/common/thread.h:68 | an `MTQueue` starts empty and open |
| ClosableQueue.NewMtQueue | src/common/mt_queue.h:72 | an `MtQueue` starts empty, with whatever the never-initialised flag holds |
| ClosableQueue.Close | src/common/mt_queue.h:13-17 | closing sets the flag and keeps every queued item |
| ClosableQueue.Push | src/common/mt_queue.h:20-39 | accepted exactly when open, and then appended at the back; a closed queue is left unchanged |
| ClosableQueue.Poll | src/common/mt_queue.h:54-62 | fails exactly when empty, leaving the queue unchanged; otherwise removes and returns the oldest item |
| ClosableQueue.Pop | src/common/mt_queue.h:42-51 | blocks exactly when open and empty, fails exactly when closed and empty, otherwise removes and returns the oldest item |
| ClosableQueue.Size | src/common/mt_queue.h:65-68 | zero exactly when no item is queued, positive exactly when `poll` would return an item, and one less after that `poll` |
| ClosableQueue.PopAgreesWithPoll | src/common/thread.h:38-58 | whenever `pop` does not block it returns and removes the same item as `poll` |
| ClosableQueue.CloseIdempotent | src/common/thread.h:19-23 | closing twice is the same as closing once |
| ClosableQueue.MtQueueStartsClosed | src/common/mt_queue.h:72 | an `MtQueue` whose flag starts set refuses its first push; one whose flag starts clear behaves as a fresh `MTQueue` |
| ClosableQueue.StepFifo | src/common/thread.h:26-58 | each call keeps "items before + accepted = removed + items after" |
| ClosableQueue.ReplayFifo | src/common/thread.h:14-72 | over any trace of calls, the initial items followed by the accepted pushes are the removed items followed by the items left |
| ClosableQueue.ReplaySize | src/common/mt_queue.h:65-68 | after any trace the size is the initial size plus the accepted pushes minus the removed items |
| ClosableQueue.ReplayClosed | src/common/mt_queue.h:12-39 | once closed, the queue stays closed and every later push is refused |
| ClosableQueue.DrainClosed | src/common/mt_queue.h:41-51 | pops on a closed queue return the remaining items in order, then fail from then on |
| Mpmc.NewMpmc | src/common/sync.h:45-46 | a new queue is open and empty, with a zero counter and no push awaiting its increment, over a ring buffer with at least the requested capacity |
| Mpmc.Close | src/common/sync.h:49-55 | the effect on the items and flag is the closable queue's close |
| Mpmc.TryPush | src/common/sync.h:58-68 | the locked region of `try_push`: reply and effect on the items are the closable queue's push; the counter is left as it was and the push is recorded as not yet counted |
| Mpmc.CountPush | src/common/sync.h:69 | the `queue_size++` after the unlock: the items stay as they are and the counter moves one step toward their number |
| Mpmc.TryPushCall | src/common/sync.h:58-72 | a whole `try_push` call: the closable queue's push, with the counter grown by one exactly when the push was accepted |
| Mpmc.Push | src/common/sync.h:75-80 | on an open queue, appends the item and counts it; a closed queue is the abort, excluded by the precondition |
| Mpmc.TryPop | src/common/sync.h:83-92 | reply and effect are the closable queue's poll, whether the queue is closed or not; a removed item is counted out under the lock |
| Mpmc.Pop | src/common/sync.h:96-113 | reply and effect are the closable queue's blocking pop; a removed item is counted out under the lock |
| Mpmc.Size | src/common/sync.h:116-118 | the counter read modulo 2^64: the number of queued items less the pushes between their unlock and their increment, and so exactly the number of queued items when no push is in that window |
| Mpmc.IsEmpty | src/common/sync.h:121-123 | true exactly when `size()` reads 0; with no push between its unlock and its increment, exactly when nothing is queued |
| Mpmc.CountLagExample | src/common/sync.h:58-92 | on an open, empty queue, a `try_pop` that takes an item before its push has counted it leaves `size()` at 2^64 - 1 and `empty()` false on an empty queue; the pending increment brings both back to 0 and true |
| Mpmc.RunRefines | src/common/sync.h:41-123 | any trace of calls gives the same replies and items as the closable queue |
| Mpmc.RunIsFifo | src/common/sync.h:58-118 | over any trace the queue is FIFO, the counter moves by the accepted pushes minus the successful pops, and `size()` reads that when no other push is in its window |
| Mpmc.GrowsPastCapacity | src/common/tests/sync_test.cpp:306-320 | pushes past the initial capacity are all accepted and queued in order |
| Mpmc.OpenPushesAccepted | src/common/sync.h:58-72 | n pushes onto an open queue are all accepted and appended in order |
| Latch.NewLatch | src/common/sync.cpp:8-12 | the constructor aborts exactly when the count exceeds `PTRDIFF_MAX`; otherwise the counter starts at the count |
| Latch.CountDown | src/common/sync.cpp:14-29 | aborts exactly when the amount exceeds `PTRDIFF_MAX`, or when the previous count was non-positive and not equal to the amount; otherwise subtracts the amount without wrapping, and signals exactly when the previous count equalled the amount |
| Latch.Done | src/common/sync.cpp:31-33 | done exactly when the counter is zero; a done latch aborts on any further count-down |
| Latch.Wait | src/common/sync.cpp:35-43 | `wait` returns exactly when the counter is zero, and a waiter blocked on a positive count is released by the count-down of what remains |
| Latch.ExactCountDown | src/common/sync.h:25-26 | count-downs by positive amounts that add up to the count never abort, signal once on the last call, and leave the latch done |
| Latch.CountDownExample | src/common/tests/sync_test.cpp:26-32 | `TaskLatch(3)`: counting down 2 leaves it not done, and counting down 1 more makes it done and signals |
| Latch.OvershootExample | src/common/sync.cpp:18-28 | counting down 2 from 1 neither aborts nor signals and leaves the count at -1, never done; the next count-down aborts |
| CountingFuture.NewFuture | src/common/thread.h:79-81 | a new future has exactly `count` tasks outstanding |
| CountingFuture.Decrement | src/common/thread.h:84-88 | the counter drops by one, wrapping to `SIZE_MAX` from zero; waiters are notified exactly when the old value was one |
| CountingFuture.Remaining | src/common/thread.h:101-104 | the counter; the next decrement notifies exactly when it is one, and lowers it by one when it is positive |
| CountingFuture.Done | src/common/thread.h:107-109 | done exactly when nothing remains outstanding |
| CountingFuture.Wait | src/common/thread.h:91-99 | `wait` returns exactly when the counter is zero |
| CountingFuture.CountsDownToDone | src/common/thread.h:83-88 | k decrements of a future for n tasks leave n - k outstanding; it is done exactly after the n-th, and only that decrement notifies |
| CountingFuture.SurplusDecrementWraps | src/common/thread.h:85 | one decrement more than the count wraps the counter to `SIZE_MAX`, so the future is no longer done |
| ThreadPool.NewPool | src/common/thread.cpp:146-148 | a new pool of any number of workers, zero included, is open, with an empty queue, a zero counter and nothing run |
| ThreadPool.NumInflightTasks | src/common/thread.cpp:158-160 | the counter read modulo 2^64: the number of queued tasks less the submissions between their unlock and their increment, and so the number of queued tasks when no submission is in that window |
| ThreadPool.Submit | src/common/thread.cpp:63-70 | the locked region of `submit`: accepted exactly when the pool is open, appending the task and recording it as not yet counted; a closed pool is left unchanged |
| ThreadPool.CountSubmission | src/common/thread.cpp:71 | the `fetch_add(1)` after the unlock: the queue and the log stay as they are and the counter grows by one |
| ThreadPool.SubmitCall | src/common/thread.cpp:63-75 | a whole `submit` call: accepted exactly when open, and then the task is queued and counted in flight; a closed pool is left unchanged |
| ThreadPool.ChunkSize | src/common/thread.cpp:115-118 | `max(1, end / (workers * 4))`: the piece is 1 exactly when `end < 2 * workers * 4`, and otherwise the largest c with `c * workers * 4 <= end` |
| ThreadPool.SplitTask | src/common/thread.cpp:113-132 | a ranged task yields the piece [start, min(start + chunk, end)) and the remainder starts where the piece ends; a single task is taken whole and leaves an empty remainder |
| ThreadPool.RunTask | src/common/thread.cpp:134-142 | a ranged task calls its function once for each index from start to end, in order; a single task calls its function once |
| ThreadPool.SplitTaskRuns | src/common/thread.cpp:113-142 | running the split-off piece and then the remainder makes the same calls as running the whole task |
| ThreadPool.ChunksPartition | src/common/thread.cpp:90-95 | repeated splitting cuts a ranged task into adjacent, non-empty, chunk-sized pieces that cover it exactly |
| ThreadPool.ChunksRunTask | src/common/thread.cpp:90-105 | running the pieces in order makes the same calls as running the task whole |
| ThreadPool.WorkerStep | src/common/thread.cpp:77-110 | a worker waits exactly when the queue is empty and open, exits exactly when it is empty and closed, and otherwise runs the piece `split_task` hands out of the front task; the queue becomes the old tail, after the remainder when the remainder is not exhausted, and the task is dequeued exactly when it is |
| ThreadPool.WorkerStepConserves | src/common/thread.cpp:90-105 | each worker step moves work from the queue to the run log without losing or reordering calls, and strictly reduces the work left |
| ThreadPool.DrainRunsEverything | src/common/thread.cpp:77-110 | once closed, workers run every queued call, in queue order, and then exit |
| ThreadPool.Shutdown | src/common/thread.cpp:47-61 | closes the pool; with at least one worker it returns with the queue empty and the counter at zero less the submissions still uncounted; with no worker it returns with the queue untouched; a closed pool is left as it is |
| ThreadPool.ShutdownRunsEverything | src/common/thread.cpp:47-61 | shutting down an open pool first runs every queued task |
| ThreadPool.ShutdownIdempotent | src/common/tests/thread_test.cpp:125-136 | a second shutdown changes nothing |
| ThreadPool.SubmitAllOpen | src/common/thread.cpp:63-75 | submissions to an open pool are all accepted and queued in order |
| ThreadPool.SubmittedToNewPool | src/common/thread.cpp:63-75 | after submitting tasks to a new pool, the queue holds exactly those tasks in order, all counted in flight, and nothing has run |
| ThreadPool.EverySubmittedTaskRuns | src/common/tests/thread_test.cpp:286-297 | every task submitted to a new pool has run, in submission order, once the pool is shut down |
| ThreadPool.SubmitAfterShutdown | src/common/tests/thread_test.cpp:114-123 | submitting after shutdown is refused and changes nothing |
| ThreadPool.ZeroWorkersRunNothing | src/common/thread.cpp:36-61 | an open pool without threads accepts every submission, and its shutdown returns with all of them still queued and none run, although thread.h:129 promises that shutdown waits for the current tasks |
| ThreadPool.InflightLagExample | src/common/thread.cpp:63-106 | on an idle pool, a worker that pops and runs a single task before its submission counted it leaves `num_inflight_tasks()` at 2^64 - 1 until the increment lands |
| ThreadPool.CurrentThreadPool | src/common/thread.cpp:174-179 | inside a pool worker, `thread_pool()` is the pool `local_thread_pool()` returns; elsewhere it is the global pool |
| ThreadPool.CurrentThreadPoolContexts | src/common/thread.cpp:174-179 | in worker `idx` of pool P, `thread_pool()` is P whatever the global pool is; on a thread outside any pool it is the global pool |
| ThreadPool.WorkerId | src/common/thread.cpp:202-207 | the worker id is 0 exactly outside a pool worker, and the worker index plus one inside one |
| ThreadPool.IsThreadPoolWorker | src/common/thread.cpp:209-211 | a thread is a pool worker exactly when it has a local pool |
| ThreadPool.WorkerIds | src/common/thread.cpp:36-45 | the n workers of a pool get the distinct ids 1..n and are all pool workers; a thread outside any pool has id 0 |
| ThreadPool.WorkerIdExample | src/common/tests/thread_test.cpp:161-204 | outside a pool there is no local pool and the id is 0; the first worker sees its pool and has id 1 |
| ParallelMap.NumTasks | src/common/thread.h:165 | the rounded-up quotient: enough tasks of `per_task` elements to cover n, and one fewer would not |
| ParallelMap.PartitionCovers | src/common/thread.h:167-180 | the chunks `[i * per_task, ...)`, with the last one running to n, cover 0..n contiguously and in order |
| ParallelMap.ChunksAsWritten | src/common/thread.h:160-180 | as written: no chunk at all when n < 4 * threads, and a cover of 0..n otherwise |
| ParallelMap.PerTask | src/common/thread.h:160-163 | the chunk size is at least 1, and equals the source's wherever that is non-zero |
| ParallelMap.Chunks | src/common/thread.h:160-180 | the chunks always cover 0..n, and are the source's chunks whenever n >= 4 * threads |
| ParallelMap.RunChunk | src/common/thread.h:174-179 | one task sets `output[i] = f(input[i])` inside its chunk and leaves every other element alone |
| ParallelMap.RunChunksCommute | src/common/thread.h:174-179 | two tasks over disjoint chunks give the same output in either order |
| ParallelMap.RunChunksAnyOrder | src/common/thread.h:174-179 | tasks run one after another in any order, disjoint or not, leave `f(input[i])` at every index some task covers and every other index as it was |
| ParallelMap.CoversContains | src/common/thread.h:167-173 | every index of a covered range lies in one of the covering chunks |
| ParallelMap.PermutedChunksMapEveryElement | src/common/thread.h:154-180 | running any permutation of chunks that cover 0..n, as the pool may complete them, maps every element |
| ParallelMap.RunCoveringChunks | src/common/thread.h:167-180 | tasks whose chunks cover a..n map every element from a on and leave the ones before a alone |
| ParallelMap.MapsEveryElement | src/common/thread.h:154-156 | tasks over a cover of 0..n compute `f(input[i])` at every index |
| ParallelMap.ParallelMapAsWritten | src/common/thread.h:157-183 | as written: the returned future is done after every task's decrement; for n < 4 * threads the output is untouched, and for n >= 4 * threads it is f applied to each input |
| ParallelMap.ParallelMap | src/common/thread.h:154-183 | with the chunk size raised to 1, the future is done once every task ran, and the output is f applied to each input |
| ParallelMap.FutureCountsTasks | src/common/thread.h:167-178 | the future counts one per task; the tasks' decrements finish it, and only the last decrement notifies |
| ParallelMap.ShortInputIgnored | src/common/thread.h:160-163 | as written, one element on one thread yields no task and a future already done, with the output never written |
| ParallelMap.ShortInputMapped | src/common/thread.h:160-163 | with the chunk size raised to 1, that same element is mapped by one task |
| ParallelMap.Resize | src/common/thread.h:190 | `resize` keeps the existing prefix and pads to the new length |
| ParallelMap.ParallelMapContainer | src/common/thread.h:187-192 | corrected chunk size: the container overload resizes the output to n and maps every element |
| ParallelMap.ParallelMapContainerAsWritten | src/common/thread.h:187-192 | as written: the output is resized to n; for n < 4 * threads it is left as resized, and for n >= 4 * threads it is f applied to each input |
| ParallelMap.ContainerShortInputIgnored | src/main.cpp:24-28 | the one-element call of `start_parsing` leaves, on a pool of any size, a single blank element as written, and `f(1)` with the corrected chunk size |
| Wad3.HeaderRoundTrip | src/hl1/wad3.cpp:14-18 | decoding the 12-byte image of a header gives the header back |
| Wad3.DirEntryRoundTrip | src/hl1/wad3.cpp:20-28 | decoding the 32-byte image of a directory entry gives the entry back |
| Wad3.Pixel | src/hl1/wad3.cpp:92-99 | a palette index becomes the palette's three bytes at 3 * index, followed by alpha 255 |
| Wad3.ExpandLoop | src/hl1/wad3.cpp:88-100 | the byte-by-byte loop writes exactly the RGBA expansion of the source indices |
| Wad3.ExpandPixelAt | src/hl1/wad3.cpp:91-100 | bytes 4i..4i+3 of the expansion are the pixel of index i |
| Wad3.MipInBoundsAsWritten | src/hl1/wad3.cpp:81-83 | as written on `uint32_t`: agrees with the exact check whenever offset + size does not wrap |
| Wad3.MipBoundsWrapExample | src/hl1/wad3.cpp:82-83 | a 16x16 level at absolute offset 0xFFFFFF00 passes the check as written, although it lies past the end of the file |
| Wad3.MipInBounds | src/hl1/wad3.cpp:83 | corrected bound: the level accepted lies inside the file, and the check agrees with the one as written wherever that does not wrap |
| Wad3.ReadMipLevel | src/hl1/wad3.cpp:80-100 | with the corrected bound: a level is read exactly when its bytes are in the file, and expands to 4 bytes per pixel |
| Wad3.MipPixels | src/hl1/wad3.cpp:91-99 | each RGBA pixel of a level read is the palette colour of the matching byte of the file |
| Wad3.MipSizeExact | src/hl1/wad3.cpp:81 | `width * height` in `uint32_t` is below 2^32, and is the true product whenever that fits |
| Wad3.HalveIsDivision | src/hl1/wad3.cpp:102-103 | halving k times is division by 2^k |
| Wad3.TrailerOffset | src/hl1/wad3.cpp:60 | the trailer offset is computed in `uint32_t` and so is below 2^32 |
| Wad3.TrailerFollowsLastLevel | src/hl1/wad3.cpp:60 | for valid dimensions and while nothing wraps, the trailer starts right after the indices of level 3 |
| Wad3.MiptexHeaderFields | src/hl1/wad3.cpp:49-50 | the texture header read at the entry offset holds the 16 name bytes there and the `uint32_t` values at offsets 16, 20 and 24 + 4k |
| Wad3.MipLevels | src/hl1/wad3.cpp:79-104 | the levels read from a list of spans: level k is exactly what reading span k gives |
| Wad3.MipLevelsSucceed | src/hl1/wad3.cpp:79-86 | the levels are read exactly when each span, at its wrapped offset and halved size, lies inside the file |
| Wad3.ParseMiptex | src/hl1/wad3.cpp:42-107 | an accepted texture has an entry size of at least 40 and valid dimensions, and is the texture stored at the entry offset: its name is the header's name field up to the first NUL, its width and height are the header's `uint32_t` values, and level k is the RGBA expansion of the level-k bytes through the trailer's palette; too short an entry, or a header outside the file, is refused |
| Wad3.MiptexFromHeader | src/hl1/wad3.cpp:54-65 | after the header: accepted exactly when the dimensions are valid, the trailer at its wrapped offset is in the file with 256 colours, and every level is in bounds; the texture is the one the header and the file's trailer palette describe |
| Wad3.MiptexFromTrailer | src/hl1/wad3.cpp:67-104 | after the trailer: accepted exactly when it declares 256 colours and every level is in bounds; the name, size and each level are the ones the header and palette describe |
| Wad3.TextureSizes | src/hl1/wad3.cpp:77-104 | level k of a stored texture has 4 * (width halved k times) * (height halved k times) bytes, the product taken in `uint32_t` |
| Wad3.TexturePixel | src/hl1/wad3.cpp:91-99 | pixel i of level k of a stored texture is the trailer palette's colour of byte i of that level in the file, with alpha 255 |
| Wad3.DescribedPixel | src/hl1/wad3.cpp:91-99 | the same, for a texture described by any header and palette |
| Wad3.ParseMiptexAccepts | src/hl1/wad3.cpp:42-107 | `parse_miptex` succeeds exactly when the whole acceptance rule holds: entry size, header, dimensions, trailer, colour count and all four levels |
| Wad3.ParseHeader | src/hl1/wad3.cpp:109-119 | accepted exactly when the file has 12 bytes and starts with "WAD3"; the header is those bytes decoded |
| Wad3.ReadDirEntry | src/hl1/wad3.cpp:124 | entry i is read exactly when its 32 bytes at `dir_offset + 32 i` are inside the file, and is those bytes decoded |
| Wad3.AcceptEntry | src/hl1/wad3.cpp:129-140 | only uncompressed miptex entries are parsed, and an accepted one is what `parse_miptex` returns |
| Wad3.ProcessDirectory | src/hl1/wad3.cpp:121-146 | the pass keeps every texture collected before it, and fails only at an entry whose table lies past the end of the file |
| Wad3.ProcessDirectoryShape | src/hl1/wad3.cpp:121-146 | the directory pass fails exactly when some entry lies outside the file; it only appends, at most one texture per entry |
| Wad3.ProcessDirectoryAccepted | src/hl1/wad3.cpp:137-142 | every texture collected is one `parse_miptex` accepted |
| Wad3.ProcessDirectoryTextures | src/hl1/wad3.cpp:121-146 | on an in-bounds directory the pass succeeds and collects exactly the accepted textures, in directory order |
| Wad3.Parse | src/hl1/wad3.cpp:150-165 | the parser is valid exactly when the header is accepted and the whole directory is in the file; its name is the filename of the path |
| Wad3.ParseTextures | src/hl1/wad3.cpp:150-165 | a valid parse holds exactly the accepted textures of the directory, in order |
| Pak.EntryRoundTrip | utils/quake-unpack.cpp:19-23 | decoding the 64-byte image of a file record gives the record back |
| Pak.ValidHeader | utils/quake-unpack.cpp:26-28 | the header is valid exactly when its four id bytes equal "PACK" byte for byte |
| Pak.ReadHeader | utils/quake-unpack.cpp:71-75 | the header is read exactly when the archive has 12 bytes, and is those 12 bytes decoded: the id, then the `uint32_t` values at offsets 4 and 8 |
| Pak.FileCount | utils/quake-unpack.cpp:83 | the count is the number of whole 64-byte records in the table size, dropping any remainder |
| Pak.ReadEntries | utils/quake-unpack.cpp:91-98 | a table that is read has exactly one record per index from i to the count |
| Pak.ReadEntriesSucceeds | utils/quake-unpack.cpp:91-98 | the table is read exactly when it is empty or all of it lies inside the archive |
| Pak.ReadEntriesAt | utils/quake-unpack.cpp:93-94 | record k of the table is the decoding of the 64 bytes at `offset + 64 k` |
| Pak.EntryInBoundsAsWritten | utils/quake-unpack.cpp:115 | as written on `uint32_t`: agrees with the exact check whenever offset + size does not wrap |
| Pak.EntryBoundsWrapExample | utils/quake-unpack.cpp:115-119 | a record with offset 0xFFFFFFFF and size 2 passes the check as written, yet lies outside the archive |
| Pak.EntryInBounds | utils/quake-unpack.cpp:115-119 | corrected bound: an accepted record lies inside the archive, and the check agrees with the one as written wherever that does not wrap |
| Pak.ExtractionOf | utils/quake-unpack.cpp:122-131 | an extracted file holds exactly the record's size in bytes |
| Pak.ExtractAll | utils/quake-unpack.cpp:102-137 | at most one file per record, and each file listed was written successfully |
| Pak.ExtractAllSound | utils/quake-unpack.cpp:102-137 | every written file is the output of a record with a non-empty name and in-bounds data |
| Pak.ExtractAllNonEmpty | utils/quake-unpack.cpp:101-140 | something is written exactly when some eligible record is written successfully |
| Pak.Unpack | utils/quake-unpack.cpp:62-141 | the result is true exactly when at least one file was written; an unreadable archive writes nothing |
| Pak.UnpackRequiresTable | utils/quake-unpack.cpp:70-98 | nothing is written unless the archive starts with a "PACK" header and its whole file table lies inside it |
| Pak.UnpackSucceeds | utils/quake-unpack.cpp:62-141 | unpacking succeeds exactly when the header and table are read and some eligible record is written |
| Pak.ExtractedName | utils/quake-unpack.cpp:106-122 | a record whose name has no '/' is written to a path whose filename is that name |

## Left out

- Real concurrency: threads, mutexes, condition variables, notification and memory ordering are not modelled. Each locked region, and each counter update made after an unlock, is one transition, and a blocking call returns a blocked outcome instead of waiting.
- ThreadPool.EverySubmittedTaskRuns: states the run order of a sequential interleaving. With several workers, the real calls from different pieces may interleave in time.
- ThreadPool: the wrap of `start + per_worker` in `split_task` is not modelled, because it needs a ranged task ending within one chunk of 2^64.
- ThreadPool.WorkerStep: releasing the lock, `run_task` and the in-flight decrement of one worker iteration are folded into one step. The model therefore has no state in which a popped task is still running and still counted in flight.
- ThreadPool: the task shape (`start`, `end`, `end == 0` for a single task) is taken from `thread.cpp`.
- ThreadPool: `global_thread_pool` and `std::thread::hardware_concurrency` are outside the model. The global pool is a parameter of `CurrentThreadPool`.
- ThreadPool: `local_thread_pool_name` and the pool name are not modelled; thread names are cosmetic.
- ThreadPool: the thread-local variables are modelled as a per-thread context value.
- Latch.Wait and CountingFuture.Wait: modelled by their release condition only, because blocking has no sequential meaning.
- ClosableQueue.NewMtQueue: the uninitialised `closed` flag of `MtQueue` is a parameter, since its value is indeterminate.
- Mpmc: the `abort()` of `push` on a closed queue is excluded by its precondition instead of being an outcome.
- RingQueue: the capacity is bounded by 2^63, so that doubling it never overflows `size_t`. The allocation failure of `make_unique` is not modelled.
- RingQueue: the abort of `front` and `pop` on an empty queue is excluded by their preconditions, and is a stopping outcome in `RingQueue.Run`.
- Bits.NextPow2 and Bits.NextPow2Inclusive: modelled only up to 2^30. The source shifts the `int` literal `1`, which overflows for exponents of 31 or more.
- Bits: only the 64-bit `size_t` configuration is modelled; the 32-bit branches are left out.
- ParallelMap: every overload requires at least one pool thread. With a pool of zero threads, `n / (pool.num_threads() * 4)` at thread.h:160 divides by zero, which is undefined behaviour. The only pool the source builds, at thread.cpp:183-187, has at least one thread.
- ParallelMap.ParallelMap: a submission that a closed pool refuses is not modelled; it would leave the future never done. The sum `n + per_task - 1` is not wrapped.
- Wad3: `mip_size * 4` in the `resize` call is not wrapped. It wraps only for a level of 2^30 pixels or more.
- Wad3.Parse: `wad3.cpp:152` calls `get_path_filename`, which no header declares. It is modelled as the corrected `Paths.PathGetFilename`.
- Wad3: `read_at` in io.h:14-15 takes `T& dst`. wad3.cpp:50, 62 and 124 pass `&header`, `&trailer` and `&entry`, which are prvalues, and a non-const lvalue reference cannot bind to them, so those calls do not compile as written. The one call that does compile, `file.read_at(0, header)` at wad3.cpp:110 with the `WAD3Header*` parameter, deduces `T` as the pointer type and would copy pointer-size bytes over the pointer itself. The model reads the size of the pointed-to struct into that struct, which is what the parser's later use of the fields needs.
- Wad3: the `compressed` byte is read as "non-zero"; the undefined behaviour of a `bool` holding another value is not modelled.
- Logging (`SLOG_ERROR`, `printf`) is left out. It does not change any result.
- File I/O: `file_read_contents` becomes the archive parameter of `Pak.Unpack`. `create_directory_for_file` and `write_file_contents` become its `store` parameter.
- `main`, the command-line handling, graphics, the display code, `thread_pool.h`/`.cpp`, `defer.h` and `utils/quake-unpak.cpp` are not part of this model.

## Findings

| source | as written | input that shows it | evidently intended | confidence | as-written member | corrected member |
|---|---|---|---|---|---|---|
| src/common/io.cpp:43 | `path_get_filename` returns the suffix from the last '/' on, separator included | "/home/user/file.txt" gives "/file.txt"; io_test.cpp:50 expects "file.txt" | the text after the last '/' | not executed | Paths.SplitAsWrittenExamples | Paths.PathGetFilename |
| src/common/io.cpp:35 | `path_get_directory` returns the text before the last '/', so a path at the root has directory "" | "/file" and "/" give ""; io_test.cpp:19 and :31 expect "/" | the root directory "/" when the only '/' is the first character | not executed | Paths.SplitAsWrittenExamples | Paths.PathGetDirectory |
| src/common/io.h:16 | the bound `offset + sizeof(T) > size` is computed in `size_t` and can wrap | offset 2^64 - 1 and a 2-byte read from a 3-byte file pass the check, and the copy reads out of bounds | refuse every read whose true end is past the contents | not executed | Bytes.ReadAtWrapExample | Bytes.ReadAt |
| src/hl1/wad3.cpp:81-83 | `absolute_offset + mip_size` is computed in `uint32_t` and can wrap | a 16x16 texture whose level 0 is at absolute offset 0xFFFFFF00 passes the check in a file of 814 bytes | refuse a level that does not lie inside the file | not executed | Wad3.MipBoundsWrapExample | Wad3.MipInBounds |
| utils/quake-unpack.cpp:115 | `entry.offset + entry.size` is computed in `uint32_t` and can wrap | a record with offset 0xFFFFFFFF and size 2 passes the check, and the write then reads past the archive | skip a record whose data does not lie inside the archive | not executed | Pak.EntryBoundsWrapExample | Pak.EntryInBounds |
| src/common/thread.h:160-163 | when `n < 4 * num_threads`, `per_task` is 0 and the function returns a finished future without computing anything | one element on a one-thread pool: the future is done at once and `output[0]` is never written | map every element; a chunk size of at least 1 | not executed | ParallelMap.ShortInputIgnored | ParallelMap.ParallelMap |
| src/common/mt_queue.h:72 | `MtQueue::closed` has no initialiser, so a new queue may start closed | a default-constructed `MtQueue` whose flag storage is non-zero refuses its first push | a new queue is open, as `MTQueue` in thread.h:68 | not executed | ClosableQueue.MtQueueStartsClosed | ClosableQueue.NewQueue |
