# goev, verified

goev is an event-driven network library: one poller goroutine per epoll instance runs the
handlers of its connections, other goroutines hand buffers over to it. This project models the
parts of it whose correctness is a matter of state and arithmetic, and proves what they promise.

| file | models |
|---|---|
| `Basics.dfy` | types used throughout |
| `RingBuffers.dfy` | the growable ring buffer under every queue |
| `Interest.dfy` | interest masks, the descriptor store, the bookkeeping around epoll_ctl |
| `WritePath.dfy`, `WriteRuns.dfy` | the ordered write path on values: one operation, whole runs |
| `IOHandles.dfy` | the handle class: the same operations, in place |
| `Handoff.dfy`, `HandoffRuns.dfy` | the hand-off between goroutines and poller as a step relation; its undisturbed runs |
| `PollSync.dfy` | the hand-off of cache operations, over whole runs |
| `HandoffQueues.dfy` | the double-buffer queue class, `asyncWrite` and `pollSyncOpt` |
| `EndToEnd.dfy` | hand-off and write path together, with handles closed and used again |
| `TimerHeap.dfy`, `TimerExpiry.dfy`, `TimerArming.dfy`, `TimerItems.dfy` | the 4-ary timer heap on values: order, expiry, arming the timerfd, ownership of timers |
| `Timers.dfy` | the timer classes: items shared between heap and handlers, rewritten in place |
| `Masking.dfy` | unmasking of WebSocket payloads, word by word |
| `Incremental.dfy`, `Frames.dfy`, `FrameCodec.dfy` | incremental parsing; the frame parser; the client's encoding and its decoding |
| `WebSockets.dfy` | the connection class with its in-place loop |
| `BufPools.dfy` | the size-class buffer pool |

Where the source changes state in place, a class does, and its methods are proved against
functions on values; the properties are then proved of those functions, over all inputs and runs.
The kernel appears as the results it may give: a script of answers to write(2), the answer of
epoll_ctl, the counter of an eventfd, the time a timerfd is set to, the buffer a pool happens to
find. Every theorem is for all of these. Clock readings and the answers of callbacks are
parameters.

## Findings

The theorems are about the code as it is. Where it stops short of what its documentation
promises, a lemma gives the failing case and another the exact condition.

- An item pushed while the poller is between its swap and its store of 0 stays in `writeq` with
  no wake-up until the next push: the store strands exactly the items in `writeq` whose CAS has
  failed (`StepStrandsIff`, `StrandedIff`, `PushDuringBatchStrands`); an undisturbed `OnRead`
  strands items exactly when it finishes an earlier batch while new items are waiting
  (`OnReadStrandsIff`, `BacklogStrands`). No item is lost or overtaken (`NextPushRescues`,
  `DeliveryIsFifo`).
- A buffer of length zero that reaches the front of a handle's queue is never taken off; from
  then on the handle sends nothing (`EmptyBufferBlocksForever`). A flush against a willing kernel
  empties the queue exactly when no such buffer ever joined it (`FlushDrainsIff`, `RunDrainsIff`).
- `EvIn` and `EvOut` share EPOLLRDHUP, so the interest in it ends with the first flush that empties
  the queue (`RdhupIsLostIff`, `OneWaitLosesRdhup`).
- After a failed epoll_ctl, store and kernel stay in step only in special cases: after `append`
  when none of the events was set, after `remove` when the descriptor stays registered and all of
  them were; a failed `remove` that unregisters leaves the kernel watching, a failed `add` leaves
  the record (`AddInStepIff`, `AppendInStepIff`, `RemoveInStepIff`, `FailedCallsDisagree`).
- Using a destroyed handle again is sound, in that the new connection starts in order and gets only
  its own buffers, exactly when at the close the waiting flag was down and the counter 0, and at the
  reopening the hand-off holds no item for the handle (`EndToEnd.ReuseSoundIff`). A flag left up
  survives further reuses (`SecondReuseNotInOrder`), and without a flush the connection never asks
  for writability (`ReusedHandleForgetsToWait`, `ReusedHandleStalls`); an old item sends its bytes on
  the new connection (`OldBytesOnNewConnection`) or, being empty, blocks it (`OldEmptyBufferBlocks`).
- `cancel` rewrites a key in place; an insert below a cancelled entry then breaks the order of the
  live timers exactly when that entry shields a later live ancestor (`InsertOrdersIff`,
  `RunOrderedIff`).
- A cancelled entry at the root can make `schedule` leave a new timer unserved for as long as the
  kernel timer happens to be set, and one below it can hide a renewal from `OnRead`. Every live timer
  is served exactly if none is earlier than what the kernel timer was set for last, or that has gone
  off (`RunServedIff`); each event keeps this exactly under a condition of its own
  (`AlwaysServedIff`, `CancelledRootHidesTimer`, `ShieldedRenewalUnserved`).
- If no due timer renews itself with a period of 1 or 2 ms, `handleExpired` returns
  (`NoSpinFinishes`); if no renewal is shielded by a cancelled entry, as on any cancel-free heap, it
  returns only then (`FinishesIff`, `CancelFreeFinishesIff`, `OneMillisecondSpins`). With a shielded
  renewal it can return although a due timer keeps renewing itself (`ShieldedSpinnerReturns`).
- The timerfd is set after the callbacks, with a delay computed before them: it is late exactly by
  the time they take beyond the millisecond of the clock reading (`OnReadInTimeIff`,
  `SlowCallbackIsLate`).
- A timer scheduled with delay 0 can leave the timerfd off, exactly in the millisecond the cached
  setting names (`ScheduleInTimeIff`, `ZeroDelayCanBeLost`).
- A callback that cancels its own timer and does not renew it makes `handleExpired` dereference
  nil (`CrashIff`, `SelfCancelCrashes`).
- Of the rules of RFC 6455 that a header can break by itself (sections 5.1, 5.2, 5.5 and 5.5.1), the
  frame parser does not enforce the minimal form of the length and the body of a close frame: a
  header that breaks a rule gets through exactly when it breaks only those (`PassesViolationIff`,
  `LongFormPasses`, `OneOctetClosePasses`). A data frame out of turn (section 5.4) is taken exactly
  when it begins a message inside another (`OutOfTurnTakenIff`, `AcceptedOutOfTurnIff`,
  `TextInsideMessage`).
- After a close frame the rest of the chunk is dropped, while a later chunk is still parsed; the cut
  then shows unless the later chunk is empty, or consists of fragments that leave an open message
  as it is (`CutMattersOnlyAfterClose`).
- Of a fragmented message only the last fragment is unmasked, and it comes out as text: it arrives
  as sent exactly when it is text and the keys of the other fragments are 0 wherever they are used
  (`FragmentsStayMasked`, `FragmentsIntactIff`).
- Sizes between 1023 KiB and 1 MiB index past the second pool table, although the table's comments
  put them in the third; the first class of the third table is never used (`RouteInTableIff`,
  `FirstMbClassUnused`). Giving back the empty buffer indexes before the first table (`BFree`).
- The counter of a pool has 32 bits: a pool is switched off for fewer than five requests in a period,
  and also for numbers that wrap to below five or into the sign (`Period`, `LittleUsedIff`).

## Model

| member | source | states |
|---|---|---|
| RingBuffers.RingBuffer.PushBack | ringbuffer.go:45-52 | appends to the queue, growing when full; unoccupied slots stay zero |
| RingBuffers.RingBuffer.PopFront | ringbuffer.go:55-65 | takes the first item off, clears its slot; on an empty queue answers false and changes nothing |
| RingBuffers.RingBuffer.PushFront | ringbuffer.go:68-75 | puts an item before the first, across slot 0 too |
| RingBuffers.RingBuffer.Grow | ringbuffer.go:77-93 | twice the capacity, the same items, from any head position |
| RingBuffers.UnrollPushFront | ringbuffer.go:72-74 | writing before the head of a circular slice prepends to its reading, wherever the head stands |
| RingBuffers.UnrollPopFront | ringbuffer.go:59-62 | clearing the head slot and moving on drops the first item of the reading |
| RingBuffers.Replay | ringbuffer.go:13-93 | every run of pushes and pops hands out and leaves what an unbounded double-ended sequence does, with tail at (head + len) mod size |
| Interest.EvDataMap.Store | ev_data.go:66-73 | the record of the descriptor is the given one, all other records are unchanged |
| Interest.EvDataMap.Load | ev_data.go:49-64 | finds the record of a registered descriptor, and only that |
| Interest.EvDataMap.Del | ev_data.go:75-86 | the descriptor is unregistered and its slot free again, all others untouched |
| Interest.EvPoll.Add | epoll.go:52-68 | registers the descriptor, the record staying whatever epoll_ctl answers; a store and kernel in step stay so exactly on success, or if the kernel watched those events already |
| Interest.EvPoll.Append | epoll.go:103-119 | adds the events to store and kernel, or undoes the change of the store; a store and kernel in step stay so exactly on success, for an unregistered descriptor, or if no event was set; no other descriptor is touched |
| Interest.EvPoll.Remove | epoll.go:69-102 | takes events away, unregisters when none is left or all are named, undoes on failure; a store and kernel in step stay so exactly on success, for an unregistered descriptor, or if the descriptor stays and all the events were set |
| Interest.ReadingSurvives | epoll.go:93 | waiting for writability, and ending it, keeps EPOLLIN and never empties the mask |
| Interest.AppendRollbackIff | epoll.go:110-116 | undoing a failed append restores the mask exactly if none of the events was set |
| Interest.RemoveRollbackIff | epoll.go:93-99 | undoing a failed remove restores the mask exactly if all of the events were set |
| Interest.AddInStepIff | epoll.go:52-68 | after a failed epoll_ctl a registration leaves store and kernel apart, unless the kernel watched those events already |
| Interest.AppendInStepIff | epoll.go:103-119 | an append leaves store and kernel in step exactly on success, for an unregistered descriptor, or if no event was set |
| Interest.RemoveInStepIff | epoll.go:69-102 | a remove leaves them in step exactly on success, for an unregistered descriptor, or if the descriptor stays registered and all the events were set |
| Interest.FailedCallsDisagree | epoll.go:52-119 | a failing case for each of add, append and remove |
| Interest.AddedBits | epoll.go:52-68 | a registration asks for exactly the given events, in the store and, on success, in the kernel |
| Interest.AppendedBits | epoll.go:103-119 | after an append exactly the bits set before or named are set, in store and kernel; after a failed one, in the store, those set before and not named; the handler stays |
| Interest.RemovedBits | epoll.go:84-102 | after a remove that leaves something exactly the bits set before and not named are set, in store and kernel; after a failed one, in the store, those set before or named; the handler stays |
| Interest.RemovedAll | epoll.go:69-92 | a remove of EvAll, or of everything that is set, unregisters whatever epoll_ctl answers, and ends the watch on success |
| WritePath.WriteConserves | io_handle.go:114-159 | a write adds exactly its bytes to wire-plus-pending, whatever the kernel answers, and reports all of them |
| WritePath.OrderedWriteConserves | io_handle_async.go:87-121 | an ordered write adds exactly the unsent bytes of its buffer, behind what is pending |
| WritePath.FlushConserves | io_handle_async.go:32-62 | a flush moves bytes from the queue to the wire, in order, none lost or sent twice |
| WritePath.WriteAnswers | io_handle.go:114-159 | for every handle, open or not: the count is what wire-plus-pending grew by; EBADF exactly for a closed one; EWRITE exactly if nothing was queued and the first answer other than EINTR was a failure |
| WritePath.WriteCallsKernel | io_handle.go:119-137 | write(2) is called only with an empty queue and until the answer is not EINTR; what that takes is on the wire at once |
| WritePath.OrderedWriteCallsKernel | io_handle_async.go:87-121 | an ordered write makes one attempt, only with an empty queue, and an interrupted one counts |
| WritePath.FlushTakes | io_handle_async.go:32-62 | a flush sends the buffers up to the first that is not taken whole, marks off what was taken of that, and asks for no further answer |
| WriteRuns.NothingLostOrReordered | io_handle_async.go:32-121 | over every run, wire plus pending is everything accepted, in order; flag, queue and EPOLLOUT are equivalent, EPOLLIN stays, the counter is the number of unsent bytes |
| WriteRuns.MaskIs | ev_handler.go:11-15 | over every run the mask is EPOLLIN, while waiting with EPOLLOUT and EPOLLRDHUP, and until the first flush that empties the queue with EPOLLRDHUP; no other bit, in particular never EPOLLET |
| WriteRuns.RdhupIsLostIff | ev_handler.go:11-15 | over every run EPOLLRDHUP is asked for exactly until the first flush that empties the queue, and after that while the handle waits |
| WriteRuns.OneWaitLosesRdhup | ev_handler.go:11-15 | a write declined once and then taken leaves EPOLLRDHUP out of the mask |
| WriteRuns.FlushDecreases | io_handle_async.go:45-53 | the size counter falls by exactly the bytes put on the wire |
| WriteRuns.FlushSendsIff | io_handle_async.go:45-55 | a flush sends something exactly if the front buffer has bytes left and the kernel takes one |
| WriteRuns.FlushDrainsIff | io_handle_async.go:40-61 | a kernel that takes everything empties the queue exactly if no queued buffer is empty |
| WriteRuns.EmptyBufferBlocksForever | io_handle_async.go:45-55 | with an empty buffer at the front nothing is sent in any continuation of the run |
| WriteRuns.EmptyAsyncWriteBlocks | io_handle_async.go:99-113 | an asynchronous write of no bytes on an idle handle puts such a buffer there |
| WriteRuns.RunDrainsIff | io_handle_async.go:32-121 | over every run a willing kernel empties the queue in one flush, and then has all accepted bytes, exactly if no empty buffer has ever joined the queue |
| WriteRuns.ClosedHandleIsSilent | io_handle.go:163-179 | after Destroy no operation of any run reaches the wire, the queue or the stored mask |
| WriteRuns.ReusedInOrderIff | io_handle.go:163-179 | the flag, counter, queue and mask of any destroyed handle registered again are in order exactly if the flag was down and the counter 0, which for a handle in order means that nothing was pending |
| WriteRuns.SecondReuseNotInOrder | io_handle.go:163-179 | a handle reused once with bytes pending is out of order after the next reuse as well |
| WriteRuns.ReusedHandleForgetsToWait | io_handle.go:26-29 | with the flag left up, no run of writes on the new connection asks for writability, and once bytes are queued nothing more is sent |
| WriteRuns.ReusedHandleStalls | io_handle.go:139-157 | one short write is enough for that |
| IOHandles.IOHandle.Write | io_handle.go:114-159 | the fields end up as in `WritePath.Write`, with count, error and the retry of interrupted calls |
| IOHandles.IOHandle.OrderedWrite | io_handle_async.go:87-121 | the fields end up as in `WritePath.OrderedWrite` |
| IOHandles.IOHandle.AsyncOrderedFlush | io_handle_async.go:32-62 | the fields end up as in `WritePath.Flush`; the drained callback is made exactly when the queue is empty |
| IOHandles.IOHandle.Destroy | io_handle.go:163-179 | the descriptor is closed and the queue emptied; flag and counter stay |
| Handoff.StepKeepsInv | async_write.go:55-109 | every step of producers and poller keeps token count, batch structure, order of items and CAS records |
| Handoff.DeliveryIsFifo | async_write.go:55-109 | delivered, being drained and waiting are together what was enqueued, in mutex order, in every state of every run |
| Handoff.OneWakeUpAtATime | async_write.go:60-107 | the flag counts the wake-up token: eventfd, writer, or poller before its store; the counter never exceeds 1 and the read never finds it empty |
| Handoff.UndrainedItemsAreAnnounced | async_write.go:89-91 | a poller at rest with items left in readq has a readable eventfd |
| Handoff.StrandedIffCasLost | async_write.go:60-62 | an item waits without wake-up exactly if it is in writeq, the flag is down, and its CAS failed between the last swap and the last store |
| Handoff.StepStrandsIff | async_write.go:60-105 | the only step that strands an item is the store of 0 while the item is in writeq with its CAS lost, and only a CAS ends it |
| Handoff.StrandedIff | async_write.go:55-109 | over every run, an item is stranded exactly if such a store came before and no CAS has been tried since |
| Handoff.UntilTheNextSwap | async_write.go:55-71 | with the flag down, writeq only grows until the next swap, and the first CAS posts a wake-up |
| Handoff.NextPushRescues | async_write.go:75-79 | that swap brings the stranded items in ahead of everything newer |
| HandoffRuns.PushIsRun | async_write.go:55-71 | a whole push is a run of the step relation |
| HandoffRuns.OnReadIsRun | async_write.go:74-109 | a whole OnRead is a run, delivering the first k items of its batch |
| HandoffRuns.LoopDelivers | async_write.go:75-87 | over every run, with any pushes in between, a drain loop delivers exactly the first k items of its batch, or all of a shorter one |
| HandoffRuns.OnReadStrandsIff | async_write.go:75-105 | an undisturbed OnRead strands items exactly if it finishes an earlier batch while writeq is not empty |
| HandoffRuns.BacklogStrands | async_write.go:81-105 | a backlog of more than one batch and a push in between strand the pushed item |
| HandoffRuns.PushDuringBatchStrands | async_write.go:60-105 | for every batch bound two pushes can leave the second stranded |
| HandoffQueues.DoubleQueue.Push | async_write.go:55-71 | the queues end up as in `HandoffRuns.Push` |
| HandoffQueues.AsyncWrite.OnRead | async_write.go:74-109 | drains at most 256 items of the batch, in order, and clears flag and eventfd exactly if none is left |
| HandoffQueues.PollSyncOpt.OnRead | poll_sync_opt.go:98-132 | the cache becomes the fold of the at most 8 operations drained |
| PollSync.FoldLastWrite | poll_sync_opt.go:71-75 | the fold holds for each key the value written last |
| PollSync.CacheFollowsThePushes | poll_sync_opt.go:76-132 | in every state of every run the cache is the fold of the operations delivered, and applying the waiting ones would give the fold of all pushed, in mutex order |
| PollSync.QuietCacheHasLastPush | poll_sync_opt.go:71-132 | with both queues drained the cache holds for each key what was pushed for it last |
| EndToEnd.NextKeepsInv | io_handle_async.go:67-121 | every step of producers, poller, closing and reopened handles keeps the hand-off invariant, valid queues, and empty queues on closed handles |
| EndToEnd.AsyncWritesReachTheWireInOrder | io_handle_async.go:64-121 | for every connection of every handle, wire, pending queue, readq and writeq are together what the hand-off held when it began (nothing, for the first) and then its AsyncWrite buffers in mutex order |
| EndToEnd.QuietMeansAllSent | async_write.go:15-16 | with all queues empty all of that is on the wire |
| EndToEnd.ClosedHandleWaits | io_handle_async.go:87-92 | a closed handle stays as Destroy left it until it is reopened, whatever is delivered to it |
| EndToEnd.ReuseSoundIff | io_handle.go:163-179 | a reopened handle starts in order and gets only buffers pushed after the reopening exactly if at the close its flag was down and its counter 0, and at the reopening readq and writeq had no item for it; it carries only its own bytes exactly if they had no bytes for it |
| EndToEnd.OldBytesOnNewConnection | async_write.go:81-87 | a run in which bytes pushed for the old connection go out on the new one |
| EndToEnd.OldEmptyBufferBlocks | async_write.go:81-87 | a run in which an old empty buffer blocks the new connection |
| EndToEnd.ConnectionStaysInOrder | io_handle_async.go:32-121 | a connection that starts in order, as the first does, keeps flag, queue, EPOLLOUT and counter in order |
| TimerHeap.ShiftDownOrders | timer_4heap.go:176-201 | from any state of its loop, shiftDown restores the order of live timers |
| TimerHeap.ShiftUpOrdersIff | timer_4heap.go:166-174 | shiftUp restores it exactly if no cancelled ancestor shields a later live one |
| TimerHeap.InsertOrdersIff | timer_4heap.go:84-85 | the same for a whole insert |
| TimerHeap.InsertUnderCancelledBreaksOrder | timer_4heap.go:107-116 | a heap with one cancelled entry in which an insert breaks the order |
| TimerHeap.CancelKeepsOrder | timer_4heap.go:107-116 | cancelling keeps every live timer no earlier than its live ancestors |
| TimerHeap.PopOneTakes | timer_4heap.go:147-164 | popOne removes exactly the entry it hands out |
| TimerHeap.PopOneKeepsOrder | timer_4heap.go:157-161 | and keeps the order of live timers |
| TimerHeap.PopOneIsEarliest | timer_4heap.go:147-164 | it hands out an entry exactly if the root is due, no later than any live timer; otherwise nothing live is due and the gap is returned |
| TimerHeap.RunOrderedIff | timer_4heap.go:70-174 | over every run of inserts, cancels and pops the live timers stay in order exactly if no insert is shielded when it is made |
| TimerHeap.RunPopsEarliest | timer_4heap.go:147-164 | in such a run every pop is of a timer no later than any live one |
| TimerHeap.RunPopsInOrder | timer_4heap.go:70-164 | if moreover no insert is earlier than what was popped before it, the live timers come out in order of expiry |
| TimerHeap.CancelsKeepPopsInOrder | timer_4heap.go:107-164 | cancels alone never disturb the order of the pops |
| TimerExpiry.LiveOrderIsHeapOrder | timer_4heap.go:166-201 | without cancelled entries the order is ordinary 4-ary heap order |
| TimerExpiry.NoSpinFinishes | timer_4heap.go:124-139 | on any heap handleExpired returns if no due timer keeps renewing itself with a period within the slack |
| TimerExpiry.FinishesIff | timer_4heap.go:124-139 | on an ordered heap, if no renewal is shielded by a cancelled entry, it returns exactly then |
| TimerExpiry.CancelFreeFinishesIff | timer_4heap.go:124-139 | so it is on every cancel-free heap |
| TimerExpiry.OneMillisecondSpins | timer_4heap.go:124-139 | a period of 1 ms makes it go on forever |
| TimerExpiry.ShieldedSpinnerReturns | timer_4heap.go:107-141 | a heap with a cancelled entry on which it returns although a due timer keeps renewing itself |
| TimerExpiry.ExpireFiresExactlyTheDue | timer_4heap.go:117-141 | with cancelled entries on the heap, and no renewal shielded, it fires exactly the live timers due within 2 ms, once each, in order of expiry, leaves the other live ones and the renewals in order, and returns the gap to the root |
| TimerExpiry.AnswerDecides | timer_4heap.go:132-138 | on any heap: a fired timer whose callback answered true and that has a period is on the heap exactly once, due a period from now; otherwise no entry has its id |
| TimerExpiry.CancelFreeExpire | timer_4heap.go:117-141 | on a cancel-free heap it fires all timers due within 2 ms and leaves exactly the others and the renewals |
| TimerArming.PendingTimerIsArmed | timer_4heap.go:49-95 | in every run without cancels and delays of 0 whose armings lag by at most `lag`, a pending timer means a timerfd armed no more than `lag` after its millisecond, and handleExpired always returns |
| TimerArming.OnReadInTimeIff | timer_4heap.go:59-68 | on any heap the timerfd set after the callbacks is in time for the root left exactly if they did not take longer than that beyond the millisecond of the clock reading |
| TimerArming.SlowCallbackIsLate | timer_4heap.go:59-68 | a callback of one millisecond makes it late |
| TimerArming.ScheduleInTimeIff | timer_4heap.go:88-92 | a schedule leaves the earliest timer unserved exactly for delay 0 in the millisecond of a stale cache |
| TimerArming.ZeroDelayCanBeLost | timer_4heap.go:71-92 | a run in which that happens |
| TimerArming.ScheduleServesIff | timer_4heap.go:70-95 | with cancelled entries on the heap in any order, a schedule keeps every live timer served exactly if the cache names the root and the timerfd is in time for the new timer, or else the root is past or no live timer is earlier |
| TimerArming.OnReadServesIff | timer_4heap.go:59-68 | a read of the timerfd leaves every live timer served exactly if none is earlier than the root left, as is the case if no renewal was shielded |
| TimerArming.ShieldedRenewalUnserved | timer_4heap.go:59-141 | a heap on which a renewal for 60 is left to a timerfd set for 100 |
| TimerArming.RunServedIff | timer_4heap.go:49-141 | over every run with cancels whose armings do not lag, every live timer is served exactly if none is earlier than what the timerfd was set for last, or that has gone off |
| TimerArming.AlwaysServedIff | timer_4heap.go:49-141 | every live timer is served in every state of such a run exactly if every schedule and every read of the timerfd meets its condition, in terms of the root, the cache and what the timerfd was set for last |
| TimerArming.CancelledRootHidesTimer | timer_4heap.go:88-116 | a run in which a timer is left to a timerfd set for an arbitrarily later, cancelled one |
| TimerItems.OneEntryPerHandler | timer_4heap.go:70-141 | outside callbacks a handler holds an item exactly if one heap entry names it, and never do two |
| TimerItems.CancelledNeverFires | timer_4heap.go:107-132 | whenever a callback starts, its item was not cancelled before and belongs to the handler |
| TimerItems.CrashIff | timer_4heap.go:132-138 | the nil dereference happens exactly when the item of a returning callback has been cancelled and the answer is false, or it was scheduled without a period |
| TimerItems.HeldAsScheduled | timer_4heap.go:107-136 | over every run every item keeps the period it was scheduled with, through cancels and renewals, and unless cancelled its handler |
| TimerItems.ScheduleMakes | timer_4heap.go:70-86 | a schedule is refused exactly for negative parameters or a handler with an item, and otherwise adds one entry and gives it to its handler |
| TimerItems.ReturnSettles | timer_4heap.go:132-138 | over every run: after an answer of true a timer scheduled with a period is back a period from its callback; otherwise, if not cancelled, it is gone and its handler holds none |
| TimerItems.SelfCancelCrashes | timer_4heap.go:132-138 | a run in which it happens |
| Timers.Timer4Heap.ShiftUp | timer_4heap.go:166-174 | swaps the items into the order of `TimerHeap.ShiftUp` |
| Timers.Timer4Heap.ShiftDown | timer_4heap.go:176-201 | swaps the items into the order of `TimerHeap.ShiftDown` |
| Timers.Timer4Heap.PopOne | timer_4heap.go:147-164 | hands out the item and leaves the heap of `TimerHeap.PopOne` |
| Timers.Timer4Heap.Schedule | timer_4heap.go:70-95 | refuses negative parameters and a handler that has a timer; otherwise the item is on the heap, known to its handler, and the timerfd set, some time after the clock was read, as in `TimerArming.Rearm` |
| Timers.Timer4Heap.Cancel | timer_4heap.go:107-116 | rewrites the shared item in place, key and handler but not the period, and detaches its handler |
| Timers.Timer4Heap.HandleExpired | timer_4heap.go:117-141 | fires and leaves what `TimerExpiry.Expire` says; a fired timer goes on exactly if its callback answered true and it has a period, and otherwise its handler loses its item |
| Timers.Timer4Heap.OnRead | timer_4heap.go:59-68 | the same, and the timerfd is armed after the callbacks for the delay computed before them, without touching the cache |
| Masking.MaskBytes | example/websocket.go:201-236 | the slice ends up masked octet by octet, for every length and key, the rest of the array unchanged |
| Masking.MaskedTwice | example/websocket.go:201-236 | masking undoes itself |
| Masking.XorWord | example/websocket.go:206-207 | one 64-bit XOR with the doubled little-endian key masks eight octets |
| Frames.HeaderVerdict | example/websocket.go:509-581 | once the length is known, rejects exactly what is too long for the server or breaks a rule of sections 5.1, 5.2, 5.5 and 5.5.1 of RFC 6455 on the header of a frame other than the minimal length and the body of a close frame (and, with permessage-deflate, the reserved bits), and otherwise reads the fields off as soon as the key is there |
| Frames.EarlyVerdict | example/websocket.go:509-559 | before the length is known, two octets are enough to reject a frame for reserved bits, opcode, a control frame that is not whole or a missing mask; otherwise the parser waits |
| Frames.PassesViolationIff | example/websocket.go:509-581 | a header that breaks a rule gets through exactly if the length suits the server and it breaks only unchecked rules |
| Frames.LongFormPasses | example/websocket.go:542-548 | such a header: 5 octets announced in the 16-bit form |
| Frames.OneOctetClosePasses | example/websocket.go:566-568 | and another: a close frame of one octet |
| Frames.OutOfTurnTakenIff | example/websocket.go:476-504 | a data frame that breaks section 5.4 of RFC 6455 is taken exactly if a message is open and the opcode is TEXT or BINARY, and what becomes of it |
| Frames.TextInsideMessage | example/websocket.go:487-491 | a final TEXT frame in the midst of a fragmented message is delivered |
| Frames.HeaderStable | example/websocket.go:509-581 | a verdict on the first octets does not change when more arrive |
| Frames.ChunksDoNotMatter | example/websocket.go:422-508 | without a close frame, callbacks, verdict, fragments and partial data do not depend on how the stream is cut |
| Frames.CutMattersOnlyAfterClose | example/websocket.go:467-474 | two chunks agree with one exactly if the first raises no close frame, or the second is empty, or a fragmented message is open and the second consists of fragments that add nothing to it or start it anew with the same text |
| Frames.StoppedIsClose | example/websocket.go:467-474 | the loop is cut short exactly by a close callback |
| Frames.ReadsStoppedIsClose | example/websocket.go:467-474 | over any chunks some call was cut short exactly if a close callback was made |
| Frames.ReadyAlways | example/websocket.go:437-449 | between calls nothing that is carried over could be consumed |
| Incremental.ConsumeSplit | example/websocket.go:422-449 | consuming two pieces at once is consuming the first and then its rest with the second |
| Incremental.SegmentationIrrelevant | example/websocket.go:422-449 | the same for any number of pieces, for any item parser that never revises a verdict |
| FrameCodec.FrameRoundTrip | example/websocket.go:431-505 | any encoded frame at the front of a buffer is taken off whole and has the effect of its unencoded form |
| FrameCodec.StreamRoundTrip | example/websocket.go:422-581 | for every sequence of frames, final or not, data or control, parsing the encoding is interpreting the frames |
| FrameCodec.AcceptedOutOfTurnIff | example/websocket.go:476-504 | a stream of frames that breaks section 5.4 is accepted exactly if it only ever does so by beginning a message inside another |
| FrameCodec.MessagesArriveIntact | example/websocket.go:422-581 | any sequence of unfragmented messages in any chunks is decoded into exactly those messages, for all three length forms |
| FrameCodec.CloseArrives | example/websocket.go:467-474 | an encoded close frame behind any messages reaches the callback with its status code and reason, and what follows it in the chunk is dropped |
| FrameCodec.FragmentsStayMasked | example/websocket.go:477-504 | a message of any number of fragments, with control frames in between, in any chunks, is delivered as text: the fragments before the last masked, the last unmasked |
| FrameCodec.FragmentsIntactIff | example/websocket.go:457-504 | it is delivered as sent exactly if it is text and the key of every fragment but the last is 0 wherever it is used |
| WebSockets.WsConn.OnFrame | example/websocket.go:422-508 | the loop with in-place unmasking makes the callbacks and leaves the state of `Frames.OnFrame` |
| BufPools.RouteInTableIff | bufpool.go:57-88 | the class index is in bounds exactly for sizes other than 0 and those above 1023 KiB up to 1 MiB |
| BufPools.RouteBackIff | bufpool.go:76-88 | a buffer of the size of a class goes back to that class, for all but one class |
| BufPools.RouteIsTight | bufpool.go:17-36 | no smaller class of the same table holds a size than the one it is routed to |
| BufPools.FirstMbClassUnused | bufpool.go:31-36 | nothing is ever routed to that class |
| BufPools.BufferPools.Alloc | bufpool.go:123-133 | the requested length, the capacity of the class (or the size itself while switched off), the buffer the pool finds, if any, and otherwise a new one |
| BufPools.BufferPools.BMalloc | bufpool.go:57-73 | fails exactly in the gap; otherwise the length asked for, the capacity of the class or of the request, and the buffer that the pool of the class finds, if any |
| BufPools.BufferPools.BFree | bufpool.go:76-88 | returns a buffer, made by BMalloc or elsewhere, to the class of its capacity or drops it; the index is out of bounds exactly for capacity 0 and in the gap, of what was handed out only for the empty buffer |
| BufPools.BufferPools.BuffPoolAdjust | bufpool.go:100-149 | every counter is reset, and a pool is switched off exactly if it was below five |
| BufPools.BufferPools.Period | bufpool.go:57-149 | over any requests between two adjustments a pool is switched off exactly if the 32-bit count of the requests routed to it is below five |
| BufPools.LittleUsedIff | bufpool.go:143-149 | that is, for fewer than five requests, or a number that wraps to below five or into the sign |

## Left out

- epoll_wait dispatch, sockets, creation of eventfd and timerfd, netfd: foreign calls; only their results appear.
- acceptor.go, reactor.go, options.go: address parsing, set-up and a modulo dispatch would add easy members only.
- connector.go: an error on a connecting descriptor closes it without telling the handler, so "exactly one notification" does not hold and would need many exclusions.
- connect_pool.go: a connection on its way to the pool is counted nowhere, so the bound on live connections is not an invariant.
- The HTTP upgrade, SHA-1 and base64 of example/websocket.go and the other example programs: library calls and string matching.
- permessage-deflate: the server switches it off after the handshake, so it is a parameter of the parser and nothing is decompressed.
- The Go memory model: the steps of the hand-off are atomic and sequentially consistent, as mutex and atomic operations make them. A failing eventfd read other than EAGAIN is not modelled, nor a failing write other than EINTR (async_write.go:65-70), after which the flag would stay up for good.
- What frames contain: the status code of a close frame and the encoding of text (sections 7.4 and 8.1 of RFC 6455) are not examined by the source, and not stated here.
- Aliasing of slices: a payload passed to a callback is a value here, in the source it aliases the read buffer or the partial data until the next call.
- The contents of reused buffers, and the overflow of 64-bit times.
- IOHandles.IOHandle.Write: the stored mask is a field of the handle; its place in the store of evPoll is what module `Interest` models, and epoll_ctl is taken to succeed. Buffers are values here; module `BufPools` has their allocation.
- IOHandles.IOHandle.AsyncOrderedFlush: requires the queue to exist, as it does when EPOLLOUT was asked for by the write path; the source dereferences nil otherwise.
- HandoffQueues.AsyncWrite.OnRead: records the items it delivers instead of calling the handlers; module `EndToEnd` joins delivery and write path on values.
- EndToEnd.AsyncWritesReachTheWireInOrder: handles are written through AsyncWrite only, and a handle is reopened on the same poller; runs that mix synchronous writes are in `WriteRuns`.
- Timers.Timer4Heap.HandleExpired: callbacks only answer whether the timer goes on, and none spins; callbacks that schedule and cancel are in `TimerItems`, on values.
- TimerHeap.RunOrderedIff: keys are at least 1 and cancelled keys are 1; an item cancelled inside its own callback and renewed keeps a later key and is outside these runs.
- TimerArming.PendingTimerIsArmed: no cancels, delays of at least 1, periods 0 or above the slack, a monotone clock. `ScheduleInTimeIff` says what a delay of 0 changes, `AlwaysServedIff` what cancels do.
- TimerArming.AlwaysServedIff: periods 0 or above the slack, and armings in the millisecond of the clock reading.
- BufPools.BufferPools.Period: requests and adjustments are sequential; a request between the reset of a counter and the switch is not modelled.
- BufPools.BufferPools.BFree: a second return of the same buffer is outside the model.
