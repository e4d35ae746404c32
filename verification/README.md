# Proofs about the stateful parts of the device tree

This project models the parts of the repository that keep state, and proves what they promise. Each file
stands for one part:

| file | part |
|---|---|
| `VectorImpl.dfy` | the copy-on-write vector: shared buffers, growing, shrinking, inserting, removing |
| `VectorSort.dfy`, `SortedVector.dfy` | its stable insertion sort, and the sorted vector with binary search and merge |
| `VectorRuns.dfy`, `VectorGrowth.dfy` | whole programs over many vectors, and the cost of growing |
| `LooperQueue.dfy`, `LooperWake.dfy` | the looper's message queue, and its wake-up protocol with any number of senders |
| `LooperResponses.dfy` | its descriptors, responses and callbacks |
| `RilLists.dfy`, `RilEvents.dfy`, `RilWatch.dfy` | the parts of the RIL event loop: linked lists, timers and pending events, the watch table |
| `RilRounds.dfy`, `RilLoop.dfy` | the RIL event loop as a whole, with callbacks that arm timers and watch descriptors: its rounds on values, and the methods that take them |
| `WakeLock.dfy` | the counted wake lock with its timeouts |
| `RequestBook.dfy`, `PendingRequests.dfy` | the protocol of pending requests on values, and the linked lists that implement it |
| `ClientCallbacks.dfy` | the client callbacks, their counter and their read-write lock |
| `Dispatch.dfy`, `DataProfiles.dfy` | request preparation: string copies, the vendor call, and the clean-up |
| `GraphicBuffer.dfy` | flattening and unflattening of graphic buffers |
| `MkElf.dfy` | the ELF image writer |
| `Options.dfy` | the option type that the others share |

`dafny verify dfyconfig.toml` checks everything.

Two kinds of files belong together. Code that changes things in place is a class or a method over arrays,
linked nodes or fields, proved against a function on values. What the source promises is then proved about
those functions, mostly for every run: a run is a list of states with a list of steps, where any thread may
take any step that its locks allow. Outcomes that depend on the outside world (allocations, `epoll_ctl`,
clocks, ready descriptors, what callbacks do) are parameters, so every theorem holds for all of them.

## What the proofs found

In these places the code does not do what it looks like or what a comment says. The model follows the code,
and a lemma or a contract says exactly when the expected property holds; the second name in brackets, where there
is one, is the member that shows an input or a run for which it fails.

- `removeItemsAt` checks its bounds in `size_t`: the check is right iff the sum of index and count does not
  wrap around to at most the current count (`RemovalCheckExact`, `WrappedRemovalIsAccepted`).
- `_shrink` says that it always makes the block smaller, so that a product is safe. It does so iff the
  capacity is above four or four items are too many for a `size_t` (`ShrinkReduces`, `ShrinkEnlarges`), and the
  product wraps around iff they are, without harm (`WrappedProduct`). When the smaller block cannot be
  allocated nothing is removed, but `removeItemsAt` and the sorted `remove` report success all the same
  (`RemoveItemsAt`).
- The fast merge of sorted vectors is the fold of `add` iff the boundary comparison is no tie; on a tie it
  keeps both items and the result is ordered only weakly (`MergeIsExact`, `TieKeepsBoth`).
- A failed timer allocation in `grabPartialWakeLock` releases the lock that earlier grabs rely on. Without
  such a failure the lock is held exactly while grabs are counted (`HeldIffCounted`,
  `FailedGrabReleasesTheLock`).
- The counter that protects new callbacks from a late reset is 32 bits wide: the reset clears the callbacks
  iff the number of changes since the failed call is a multiple of 2^32 (`LateResetSparesNewClients`,
  `LateResetClearsANewClient`).
- `unflatten` of an empty handle clears width, height, stride, format and usage, so the round trip holds iff
  the handle is not empty or the buffer is blank anyway (`RoundTrip`, `EmptyHandleIsBlanked`).
- `ril_event_add` ignores an event without notice iff all eight slots are taken (`WatchTable.Add`,
  `NinthIsIgnored`), and enters an event that is in the table already a second time, after which table and
  event disagree (`WatchTable.Add`). When two slots watch the same descriptor, removing one of them makes
  select forget the descriptor, and only then (`WatchTable.RemoveWatch`, `ForgottenDescriptor`).
- The ELF writer puts headers, board name and contents at fixed places and never checks that they fit: all
  images of n segments read back iff n is at most 126 (`ReadsBackIffAtMost126`, `OneByteIsLost`), and any one
  image does iff name and contents repeat what they cover of the headers (`ReadsBackIff`). The board name
  spares the headers iff there are at most 125 segments, or there are 126 and it starts with four zeros, or
  there are more and it consists of four zeros and the first twelve bytes of the header of segment 126
  (`HeadersIntactIff`, `NameDamagesHeaders`); behind it the contents must spare them too
  (`HeadersInImageIff`). The mark `entry` is accepted and has no effect.

## Model

| member | source | states |
|---|---|---|
| Vectors.RemovalCheckExact | libshims/utils/VectorImpl.cpp:277-281 | the bounds check of `removeItemsAt`, made in `size_t`, is right iff the sum does not wrap to at most the count |
| Vectors.WrappedRemovalIsAccepted | libshims/utils/VectorImpl.cpp:277-281 | a vector of one item and the largest index: the check lets the removal pass |
| Vectors.ShrinkReduces | libshims/utils/VectorImpl.cpp:461-474 | the reallocating shrink makes the block smaller iff its capacity is above 4 or 4 items are too many for a `size_t`, and larger iff it is below and they are not; the comment in the code says always smaller |
| Vectors.WrappedProduct | libshims/utils/VectorImpl.cpp:468-481 | the unchecked product of `_shrink` wraps exactly when four items are too many for a `size_t`; what is left of it is still the size of as many items as stated, and enough for those that stay |
| Vectors.MaxItems | libshims/utils/VectorImpl.cpp:402-404 | the item counts whose size in bytes is a `size_t`: the overflow checks of `_grow` in terms of items |
| Vectors.GrownIsLeast | libshims/utils/VectorImpl.cpp:387-402 | growing makes room for the least capacity of at least four that exceeds one and a half times the new size |
| Vectors.ShrunkIsLeast | libshims/utils/VectorImpl.cpp:461-474 | shrinking leaves the least capacity of at least four that is twice the new size, and reallocates iff the old capacity is at least two more than that |
| Vectors.InsertionOutcome | libshims/utils/VectorImpl.cpp:374-448 | an insertion in numbers: when it succeeds, when the index is refused, when the process aborts and when memory is short |
| Vectors.RemovalOutcome | libshims/utils/VectorImpl.cpp:277-287 | a removal inside the vector in numbers: when it aborts, when success is reported, and when it really takes place |
| Vectors.MoveForward | libshims/utils/VectorImpl.cpp:547-549 | an overlapping move to higher positions delivers the old contents of its source |
| Vectors.MoveBackward | libshims/utils/VectorImpl.cpp:551-553 | an overlapping move to lower positions delivers the old contents of its source |
| Vectors.SplicedIs | libshims/utils/VectorImpl.cpp:437-445 | what an opened and filled gap amounts to: the splice, item by item |
| Vectors.CutIs | libshims/utils/VectorImpl.cpp:476-503 | what closing a gap amounts to: the cut, item by item |
| Vectors.VectorImpl.Copy | libshims/utils/VectorImpl.cpp:49-56 | a copy shares the buffer, the reference count goes up by one, and nothing else changes |
| Vectors.VectorImpl.Finish | libshims/utils/VectorImpl.cpp:289-294 | letting go lowers the count of sharers by exactly this vector and frees the buffer iff it was the last one |
| Vectors.VectorImpl.Assign | libshims/utils/VectorImpl.cpp:67-83 | assignment aborts iff the item sizes differ; otherwise it takes over the contents by sharing, and keeps all other vectors and all counts exact, also for self-assignment |
| Vectors.VectorImpl.EditArray | libshims/utils/VectorImpl.cpp:85-104 | afterwards the storage is private with the same items; it is copied iff it was shared |
| Vectors.VectorImpl.EditResize | libshims/utils/VectorImpl.cpp:407-418 | the reallocation that keeps the leading items, whether the buffer was shared or not |
| Vectors.VectorImpl.GrowInPlace | libshims/utils/VectorImpl.cpp:437-445 | the in-place branch: the tail moved up, the gap open, the head in place |
| Vectors.VectorImpl.GrowFresh | libshims/utils/VectorImpl.cpp:419-436 | the fresh-buffer branch gives the same picture as the in-place one |
| Vectors.VectorImpl.Grow | libshims/utils/VectorImpl.cpp:374-448 | all branches agree on the opened gap; which outcome and capacity result is fixed exactly, failed calls change nothing |
| Vectors.VectorImpl.GrowElsewhere | libshims/utils/VectorImpl.cpp:405-436 | the reallocating branch, with its two ways to get the new block, opens the same gap in a private block |
| Vectors.VectorImpl.GrowHere | libshims/utils/VectorImpl.cpp:437-446 | the other branch copies a shared block first, opens the same gap, and fails only for lack of memory |
| Vectors.VectorImpl.Isolated | libshims/utils/VectorImpl.cpp:85-104 | an edit of private memory only is invisible to every other vector |
| Vectors.VectorImpl.InsertArrayAt | libshims/utils/VectorImpl.cpp:124-133 | the items become the splice of the old items and the source, which may lie in this vector's block wherever the code supports that; exact outcome, others unchanged |
| Vectors.VectorImpl.InsertVectorAt | libshims/utils/VectorImpl.cpp:114-117 | inserting another vector, which may share the buffer, or this one, is a splice of its old items |
| Vectors.VectorImpl.InsertAt | libshims/utils/VectorImpl.cpp:145-158 | n copies spliced in; exact outcome, capacity and number of items copied; others unchanged |
| Vectors.VectorImpl.ReplaceAt | libshims/utils/VectorImpl.cpp:254-275 | exactly one item changes, in this vector only |
| Vectors.VectorImpl.ShrinkInPlace | libshims/utils/VectorImpl.cpp:504-513 | the in-place branch removes exactly the given range |
| Vectors.VectorImpl.ShrinkFresh | libshims/utils/VectorImpl.cpp:486-503 | the fresh-buffer branch removes the same range |
| Vectors.VectorImpl.Shrink | libshims/utils/VectorImpl.cpp:450-514 | all branches agree on the removal, nothing is removed when the smaller block cannot be allocated, and the new capacity is exact, also where the product wraps |
| Vectors.VectorImpl.RemoveItemsAt | libshims/utils/VectorImpl.cpp:277-287 | the items become the cut of the old items, others unchanged; exact outcome and capacity; success is reported even when the shrink could not allocate |
| Vectors.VectorImpl.SetCapacity | libshims/utils/VectorImpl.cpp:331-351 | the items stay, the capacity is raised iff it was asked to be more than the count and memory sufficed |
| VectorGrowth.AmortisedGrowth | libshims/utils/VectorImpl.cpp:36-40 | n pushes onto an empty vector copy at most 3n items |
| VectorGrowth.PushAll | libshims/utils/VectorImpl.cpp:234-247 | the pushes of a run really cost what the amortised bound counts |
| VectorGrowth.ShrinkEnlarges | libshims/utils/VectorImpl.cpp:461-474 | a run of three calls after which a removal makes the block larger, from three items to four |
| VectorRuns.Table.Copy | libshims/utils/VectorImpl.cpp:49-56 | a copy in a table of vectors is an independent sequence from then on |
| VectorRuns.Table.Change | libshims/utils/VectorImpl.cpp:85-104 | a mutation takes effect exactly when the state of the vector and the verdicts of its allocations say so; it has its sequence meaning on the one vector and none on the others |
| VectorRuns.Table.Step | libshims/utils/VectorImpl.cpp:67-83 | one operation of a program over any number of vectors is one step on a list of independent sequences; it takes effect exactly when it should, and certainly when it applies and memory and room suffice |
| VectorRuns.Table.Run | libshims/utils/VectorImpl.cpp:49-104 | copy-on-write isolation over whole runs: any program computes what independent sequences would, an operation that applies fails only for lack of memory or room, and with enough of both the result is the ideal one |
| VectorRuns.NothingMissing | libshims/utils/VectorImpl.cpp:49-104 | when every operation that applies takes effect, the result is the ideal one |
| VectorRuns.AppliesSucceeds | libshims/utils/VectorImpl.cpp:85-104 | with memory and room an operation that applies succeeds, whatever blocks are shared |
| VectorRuns.AppliesIsExact | libshims/utils/VectorImpl.cpp:67-104 | a change, insertions of nothing aside, applies iff with memory it takes effect in every state of the block |
| VectorRuns.SelfInsertionUnsupportedIff | libshims/utils/VectorImpl.cpp:114-117 | a vector may be inserted into itself unless that would move or give up its own block before the items are copied |
| VectorRuns.EffectsConcat | libshims/utils/VectorImpl.cpp:49-104 | programs run from front to back: a program in two parts does what the parts do one after the other |
| VectorRuns.CopiesAreIndependent | libshims/utils/VectorImpl.cpp:49-56 | whatever is done to a vector does not reach its copy, nor the other way round |
| VectorSorting.InsertionSortedIsStable | libshims/utils/VectorImpl.cpp:170-221 | the result is ordered, a permutation, and keeps the order of ties |
| VectorSorting.StableSortIsUnique | libshims/utils/VectorImpl.cpp:170-221 | ordered, permuted and stable leaves only one possible result |
| VectorSorting.SortedStaysPut | libshims/utils/VectorImpl.cpp:176-183 | an ordered vector is its own sort, so nothing needs to be copied for it |
| VectorSorting.PlacedStaysOrdered | libshims/utils/VectorImpl.cpp:199-210 | inserting into the ordered prefix keeps it ordered |
| VectorSorting.PlacedIsPermutation | libshims/utils/VectorImpl.cpp:199-210 | inserting into the ordered prefix loses and invents no item |
| VectorSorting.PlacedKeepsTies | libshims/utils/VectorImpl.cpp:199-210 | an inserted item goes behind its ties |
| VectorSorting.ShiftInto | libshims/utils/VectorImpl.cpp:199-210 | the inner loop shifts exactly the greater items and places the new one |
| VectorSorting.PlaceNext | libshims/utils/VectorImpl.cpp:179-211 | one round of the outer loop, with the shortcut for an item in order |
| VectorSorting.FirstDisordered | libshims/utils/VectorImpl.cpp:178-183 | finds the first item that is below its predecessor |
| VectorSorting.Sort | libshims/utils/VectorImpl.cpp:165-221 | the vector becomes the stable sort; private storage is taken only if some pair is out of order; vectors that shared the buffer keep their items |
| SortedVectors.Position | libshims/utils/VectorImpl.cpp:597-621 | an item ties with one item of a strictly ordered vector or falls into one gap |
| SortedVectors.IndexOrderOf | libshims/utils/VectorImpl.cpp:597-621 | the loop is the binary search, on vectors in any order |
| SortedVectors.SearchFinds | libshims/utils/VectorImpl.cpp:597-621 | in an ordered vector, weakly or strictly, the binary search finds a tie if there is one and the exact gap otherwise |
| SortedVectors.MiddleOfTies | libshims/utils/VectorImpl.cpp:597-621 | among nothing but ties the search picks the middle one, so this is the one that add replaces and remove removes |
| SortedVectors.AddedStaysStrict | libshims/utils/VectorImpl.cpp:623-633 | adding keeps the strict order |
| SortedVectors.LookupAdded | libshims/utils/VectorImpl.cpp:623-633 | adding is a map update: the class of the item holds it, every other class is untouched |
| SortedVectors.LookupRemoved | libshims/utils/VectorImpl.cpp:670-677 | removal empties one class and touches no other |
| SortedVectors.Add | libshims/utils/VectorImpl.cpp:623-633 | on a vector in any order: what the binary search points at is replaced or gets the item in front of it, with the exact outcome and index; other vectors unchanged |
| SortedVectors.InsertedIsAdded | libshims/utils/VectorImpl.cpp:623-633 | on a strictly ordered vector add is the map update: it replaces the tie or inserts in place |
| SortedVectors.InsertedStaysOrdered | libshims/utils/VectorImpl.cpp:623-633 | on a weakly ordered vector add replaces one of the ties or goes into the gap, and the order stays |
| SortedVectors.MergeEach | libshims/utils/VectorImpl.cpp:635-650 | the item-by-item merge is the fold of add over what was taken before a failure, on vectors in any order, and it fails only for lack of memory or room |
| SortedVectors.MergeIsExact | libshims/utils/VectorImpl.cpp:652-668 | the fast merge equals the fold of add iff the boundary comparison is no tie; on a tie the order is only weak |
| SortedVectors.TieKeepsBoth | libshims/utils/VectorImpl.cpp:657-661 | two vectors with one equal number each: the merge holds it twice, the fold of add once |
| SortedVectors.MergeStaysOrdered | libshims/utils/VectorImpl.cpp:652-668 | merging weakly ordered vectors gives a weakly ordered one |
| SortedVectors.Merge | libshims/utils/VectorImpl.cpp:652-668 | in front if the last new item is not above the first old one, behind if the first new one is not below the last old one, otherwise item by item; with memory and room it succeeds, and a failure leaves the items added so far |
| SortedVectors.FrontTie | libshims/utils/VectorImpl.cpp:656-660 | what the fold of add would give on a tie at the front |
| SortedVectors.BackTie | libshims/utils/VectorImpl.cpp:661-664 | what the fold of add would give on a tie at the back |
| SortedVectors.Remove | libshims/utils/VectorImpl.cpp:670-677 | the item that the binary search finds is cut out, or nothing happens, on a vector in any order; exact result, also when the allocation fails |
| SortedVectors.CutStaysOrdered | libshims/utils/VectorImpl.cpp:670-677 | a removal takes one item, and a weak order stays |
| LooperQueue.RankUnique | libshims/utils/Looper.cpp:511-514 | the scan for the insertion point has one answer |
| LooperQueue.InsertedStaysSorted | libshims/utils/Looper.cpp:507-517 | the queue stays sorted by uptime, ties in the order of sending |
| LooperQueue.KeptStaysSorted | libshims/utils/Looper.cpp:534-567 | removal keeps the order and never makes the head earlier |
| LooperQueue.KeptMembers | libshims/utils/Looper.cpp:534-567 | removal keeps exactly the messages of other handlers and, if a type was given, of other types |
| LooperQueue.KeptPartitions | libshims/utils/Looper.cpp:534-567 | removed and kept messages make up the queue |
| LooperQueue.Looper.SendMessageAtTime | libshims/utils/Looper.cpp:500-532 | the insertion by uptime, and whether wake() follows |
| LooperQueue.Looper.RemoveMessages | libshims/utils/Looper.cpp:534-567 | the backward scan is the order-preserving filter |
| LooperQueue.Looper.TakeDue | libshims/utils/Looper.cpp:281-313 | one round of the delivery loop: a due head is taken off, otherwise its uptime is the next wake-up |
| LooperWake.StepKeepsInv | libshims/utils/Looper.cpp:195-316 | every step of every thread keeps the queue sorted and wake-ups covered |
| LooperWake.NoLostWakeup | libshims/utils/Looper.cpp:500-532 | in every interleaving an early message outside the drain-to-unlock region is covered by a byte in the pipe or a sender about to write one |
| LooperWake.SleepsNoLongerThanDue | libshims/utils/Looper.cpp:200-223 | a sleeping poller wakes less than a millisecond after the first message is due, also when the delay does not fit an int, unless its caller gave no timeout |
| LooperWake.PollHonoursCallerAndMessage | libshims/utils/Looper.cpp:200-223 | a poll waits without end iff its caller allows that and no message is due within the longest delay; otherwise no longer than the caller allows, less than a millisecond beyond the next message, and for at least the shorter of the two |
| LooperWake.ZeroTimeoutDoesNotWait | libshims/utils/Looper.cpp:200-202 | a poll with a timeout of zero does not wait, whatever is queued |
| LooperWake.WhoWakes | libshims/utils/Looper.cpp:507-531 | a sender goes on to wake the poller iff nothing is being dispatched and every queued message is due later than its own, which is queued as it was sent |
| LooperWake.WakingFillsThePipe | libshims/utils/Looper.cpp:368-383 | a wake-up adds one byte unless the pipe is full, nothing but a read takes any, and the pipe is readable afterwards |
| LooperWake.DrainEmptiesThePipe | libshims/utils/Looper.cpp:385-395 | the drain reads 16 bytes at a time and ends exactly when the pipe is empty |
| LooperWake.PollerNeverStuck | libshims/utils/Looper.cpp:195-316 | inside pollInner the poller always has a step to take, exactly one kind of it at the head of the delivery loop, and other threads get the lock while it waits and while it dispatches |
| LooperWake.RemovesWhatWasAskedFor | libshims/utils/Looper.cpp:534-567 | in every run a removal takes exactly the messages of the given handler, or only those of the given type |
| LooperWake.OneRound | libshims/utils/Looper.cpp:195-316 | a run in which a poller without a deadline is woken by a sender, delivers the message and ends as it began |
| LooperWake.StaysAsleep | libshims/utils/Looper.cpp:219-226 | while the poller sleeps nobody moves its next wake-up time or its deadline |
| LooperWake.DeliversTheFirst | libshims/utils/Looper.cpp:281-303 | a delivered message is due before all other queued ones, or was sent first among those due at the same time; it leaves the queue and is never early |
| LooperWake.SettlesNextUptime | libshims/utils/Looper.cpp:308-316 | at the unlock the next wake-up is the uptime of the head, or LLONG_MAX |
| LooperWake.EachMessageOnce | libshims/utils/Looper.cpp:281-313 | every message ever sent is queued, delivered or removed, exactly once |
| LooperWake.StepKeepsAccounts | libshims/utils/Looper.cpp:281-313 | no step loses or doubles a message |
| LooperWake.Send | libshims/utils/Looper.cpp:500-532 | the object sends as the step of the protocol says, and wakes exactly when the step does |
| LooperWake.Remove | libshims/utils/Looper.cpp:534-567 | the object removes as the step says |
| LooperWake.StartDelivery | libshims/utils/Looper.cpp:280-281 | the end of event handling is the step that ends the drain |
| LooperWake.Deliver | libshims/utils/Looper.cpp:281-313 | one round of the delivery loop is the step of a delivery or of the unlock |
| LooperWake.EndDispatch | libshims/utils/Looper.cpp:305-306 | the return from a handler is the step that ends a dispatch |
| LooperResponses.EveryResponseHasOneTaker | libshims/utils/Looper.cpp:319-338 | each response is for a callback or for a caller of pollOnce, never both or neither |
| LooperResponses.CallbackTakes | libshims/utils/Looper.cpp:318-338 | a response goes to a callback iff its request has one, and otherwise to a caller |
| LooperResponses.ReturnableConcat | libshims/utils/Looper.cpp:162-179 | responses are returned in the order in which they were pushed |
| LooperResponses.CallableConcat | libshims/utils/Looper.cpp:318-338 | callbacks are called in the order in which their responses were pushed |
| LooperResponses.SignalledMembers | libshims/utils/Looper.cpp:255-278 | a response stands for a reported descriptor that is registered, with the flags of the report and the request of the registration |
| LooperResponses.SignalledConcat | libshims/utils/Looper.cpp:255-278 | reported descriptors are answered one by one in the order of the report |
| LooperResponses.PollPushes | libshims/utils/Looper.cpp:255-278 | a poll pushes the response for a registered descriptor iff its wait ends with a report of it with these flags |
| LooperResponses.OthersLeaveAlone | libshims/utils/Looper.cpp:408-487 | registrations and removals of other descriptors, and refused ones, leave a registration as it is |
| LooperResponses.LastCallDecides | libshims/utils/Looper.cpp:408-487 | the last call on a descriptor that is not refused decides whether and how it is registered |
| LooperResponses.ReactionDecides | libshims/utils/Looper.cpp:328-332 | a descriptor is gone after its callback returned zero, unless epoll refuses; otherwise the calls of the callback decide |
| LooperResponses.CallbacksKeep | libshims/utils/Looper.cpp:318-338 | the callbacks of a poll leave a descriptor alone that they make no call on and whose own callback wants to stay |
| LooperResponses.CallbackUnregisters | libshims/utils/Looper.cpp:328-332 | at the end of the callbacks a descriptor is gone whose callback returned zero, unless a later one makes a call on it |
| LooperResponses.PollKeeps | libshims/utils/Looper.cpp:195-340 | a whole poll leaves a registration alone unless a call is made on it or its callback returns zero |
| LooperResponses.MeanwhileDecides | libshims/utils/Looper.cpp:223-278 | what another thread registers during the wait is answered in the same poll, and stands at its end unless handlers or callbacks change it |
| LooperResponses.HandlersDecide | libshims/utils/Looper.cpp:281-316 | what the message handlers register stands at the end of the poll unless a callback changes it |
| LooperResponses.Looper.AddFd | libshims/utils/Looper.cpp:408-464 | registration: idents of callbacks are POLL_CALLBACK, others need permission and a non-negative ident |
| LooperResponses.Looper.RemoveFd | libshims/utils/Looper.cpp:466-487 | deregistration and its three results |
| LooperResponses.Looper.HandleEvents | libshims/utils/Looper.cpp:255-278 | one response per registered descriptor, in order |
| LooperResponses.Looper.Invoke | libshims/utils/Looper.cpp:328-331 | a callback makes its calls, and its descriptor is removed exactly when it returns zero |
| LooperResponses.Looper.InvokeCallbacks | libshims/utils/Looper.cpp:318-338 | every callback response is passed to its callback once, and the registrations afterwards are the fold of all calls made, with a removal after every zero result |
| LooperResponses.Looper.PollInner | libshims/utils/Looper.cpp:195-340 | the result is POLL_CALLBACK iff a message was delivered or a callback called, and otherwise says whether the wait failed, timed out or ended; consumed responses are replaced, all callbacks called and dropped, and the registrations are those that other threads, handlers and callbacks leave |
| LooperResponses.Looper.DrainNext | libshims/utils/Looper.cpp:162-179 | the next response with an ident to return, skipping the others |
| LooperResponses.Looper.PollOnce | libshims/utils/Looper.cpp:159-193 | responses come back one by one in order, with at most one poll, only when none is left; a negative result is POLL_CALLBACK iff that poll delivered a message or called a callback, and otherwise says how its wait ended |
| RilLists.RilEvent.Sentinel | libril/ril_event.cpp:104-110 | an initialised list head is an empty ring |
| RilLists.AddToList | libril/ril_event.cpp:112-119 | links one node into a ring at any position, both directions |
| RilLists.RemoveFromList | libril/ril_event.cpp:121-131 | unlinks one node and clears its links; the rest stays a ring |
| RilEvents.TimeArithmetic | libril/ril_event.cpp:37-66 | timeradd and timersub are exact, and normalised iff one carry is enough |
| RilEvents.LessIsEarlier | libril/ril_event.cpp:49-54 | on normalised times timercmp compares instants |
| RilEvents.DueSplits | libril/ril_event.cpp:166-177 | in a sorted list the due timers are exactly the leading ones |
| RilEvents.AscendingInsert | libril/ril_event.cpp:301-307 | a timer put before the first one that is not earlier keeps the list sorted |
| RilEvents.EventLoop.constructor | libril/ril_event.cpp:241-249 | the initial rings are empty and separate |
| RilEvents.EventLoop.AddTimer | libril/ril_event.cpp:286-312 | a timer is armed at its deadline, before equal ones, and no other timer is lost |
| RilEvents.EventLoop.FirstNotBefore | libril/ril_event.cpp:301-305 | the walk stops at the first timer that is not earlier, or at the sentinel |
| RilEvents.EventLoop.ProcessTimeouts | libril/ril_event.cpp:158-180 | exactly the timers due strictly before now become pending, in order |
| RilEvents.EventLoop.MoveDue | libril/ril_event.cpp:170-177 | the loop moves the leading due timers one by one and stops at the first that is not due |
| RilEvents.EventLoop.CalcNextTimeout | libril/ril_event.cpp:215-238 | the wait ends at the earliest deadline: none is missed and none is waited past |
| RilEvents.EventLoop.Callback | libril/ril_event.cpp:207-210 | an unlinked event may arm timers and be rearmed, freed or kept by its callback: all deadlines afterwards, and one more call on record |
| RilEvents.TimesInsert | libril/ril_event.cpp:301-307 | arming a timer puts its deadline before those that are not earlier |
| RilEvents.ArmedAscends | libril/ril_event.cpp:301-307 | arming a timer keeps the deadlines in order |
| RilEvents.ReactionsArm | libril/ril_event.cpp:207-210 | after the callbacks of a round exactly the deadlines that they asked for have joined the old ones, in order |
| RilWatch.WatchTable.Add | libril/ril_event.cpp:265-283 | the first free slot is taken and both caches follow, also for a descriptor or an event that is watched already; a full table ignores the event; table and events still agree iff the event was not in the table or got no slot |
| RilWatch.NinthIsIgnored | libril/ril_event.cpp:269-281 | nine additions to a new table: the ninth event is not watched |
| RilWatch.WatchTable.RemoveWatch | libril/ril_event.cpp:134-156 | the slot and nfds follow the removal; select goes on being asked about everything watched iff no other slot watches the descriptor |
| RilWatch.ForgottenDescriptor | libril/ril_event.cpp:134-141 | two events on one descriptor and one removal: the other event is watched and select is not asked about it |
| RilWatch.WatchTable.LargestFd | libril/ril_event.cpp:142-152 | the recomputation finds the largest watched descriptor |
| RilWatch.WatchTable.Delete | libril/ril_event.cpp:315-329 | deletion of a watched event; nothing for others, whether they were ever added or not |
| RilWatch.WatchTable.NfdsCoversWatched | libril/ril_event.cpp:68-71 | nfds is one more than the largest watched descriptor |
| RilWatch.WatchTable.DistinctStaysExact | libril/ril_event.cpp:134-141 | a descriptor is still watched after a removal iff another slot has it |
| RilWatch.TakeReady | libril/ril_event.cpp:189-193 | a ready event becomes pending and stays watched iff it is persistent |
| RilWatch.ProcessReadReadies | libril/ril_event.cpp:182-200 | the pass visits slots in order until the given number of ready events is pending, and keeps table and caches in agreement |
| RilWatch.PassStarts | libril/ril_event.cpp:182-188 | a pass may start whenever no watched event is on a list |
| RilWatch.PassEnds | libril/ril_event.cpp:189-195 | a persistent event stays watched, a one-shot event is pending and no longer watched; without double descriptors select goes on being asked about all that is watched |
| RilWatch.CountOfReadySuffices | libril/ril_event.cpp:187-197 | with the number that select reports, the pass takes every ready event |
| RilLoop.AddedSlot | libril/ril_event.cpp:265-283 | what ril_event_add does to the table is to fill the first free slot, or nothing when there is none |
| RilLoop.OwnSlot | libril/ril_event.cpp:134-141 | an event that the loop knows has a slot iff its index is not -1 |
| RilLoop.DoWatches | libril/ril_event.cpp:265-329 | the watch table afterwards is the fold of the calls that a callback makes: new events in the first free slot, deletions, its own event at most once; lists and table stay sound |
| RilLoop.Fire | libril/ril_event.cpp:207-210 | the first pending event is unlinked, then called, and may arm timers, watch, and be kept, rearmed or freed: every deadline and every slot afterwards, and one more call on record |
| RilLoop.FirePending | libril/ril_event.cpp:202-213 | every pending event fires once, in order, as it was at the start; deadlines and watch table afterwards are the folds of all callbacks, an event is armed again exactly if its callback asks and it is not watched, and no timer is lost |
| RilLoop.AfterPass | libril/ril_event.cpp:182-200 | after a pass an event that is still watched was in the table, and is persistent if it was taken; the slots are those swept of ready one-shot events |
| RilLoop.ReadyTold | libril/ril_event.cpp:186-197 | what a pass makes pending are the events that the slots signal |
| RilLoop.Gather | libril/ril_event.cpp:377-380 | what is pending then: the due timers, then the ready events, and nothing else; the other timers and the swept slots stay |
| RilLoop.Iterate | libril/ril_event.cpp:377-382 | one round of the loop is one round on values: calls, deadlines, timers and watch table are those that follow |
| RilLoop.Run | libril/ril_event.cpp:345-383 | any number of rounds of the loop is a run on values, each round following from the one before; lists and table stay sound, the deadlines in order, and nothing stays pending |
| RilRounds.CallsOfRun | libril/ril_event.cpp:345-383 | in every run the calls that are made are exactly those of what fires, round by round, with their descriptors |
| RilRounds.NoTimerLost | libril/ril_event.cpp:345-383 | in every run a timer that was armed still is or has been called, and one that is armed was so, is new, or was armed again by its callback |
| RilRounds.NothingFiresEarly | libril/ril_event.cpp:158-197 | what fires in a round is a timer whose deadline lies before the time that was read, or sits in a slot whose descriptor select reported |
| RilRounds.DeadlinesStayInOrder | libril/ril_event.cpp:301-307 | in every run the deadlines stay in order |
| RilRounds.EveryDueTimerFires | libril/ril_event.cpp:158-180 | in every round of every run each timer that is due fires, ahead of all descriptors and in the order of the deadlines, and its call is made |
| RilRounds.EveryReadySlotFires | libril/ril_event.cpp:182-200 | each visited slot whose descriptor was reported fires once, behind the timers and the slots before it, and no other slot does |
| RilRounds.AllReadyFire | libril/ril_event.cpp:182-200 | when select counts right the early end of the pass misses nothing |
| RilRounds.WhatWasAskedForIsArmed | libril/ril_event.cpp:286-312 | every timer that a callback arms has its deadline among those after the round |
| RilRounds.ReactionIs | libril/ril_event.cpp:207-210 | a callback arms all it asks for, and an event that it leaves in the table is kept |
| RilRounds.AfterWatchIs | libril/ril_event.cpp:265-329 | each call on the watch table in plain words: the first free slot is filled, an event that is watched gets no second one, a slot that is given up is free |
| RilRounds.WatchesInTurn | libril/ril_event.cpp:265-329 | the calls of a callback take effect one after the other |
| RilRounds.PersistentStays | libril/ril_event.cpp:189-195 | in every run a persistent event keeps its slot for as long as no callback stops watching the slot |
| RilRounds.QuietStays | libril/ril_event.cpp:182-195 | so does a one-shot event for as long as select does not report its descriptor |
| RilRounds.OneShotLeaves | libril/ril_event.cpp:189-195 | a one-shot event that is taken leaves its slot, which stays free unless a callback watches something |
| WakeLock.StepKeepsInv | libril/ril.cpp:662-733 | every grab, release and timeout keeps: held only under a counted grab and a live timeout, one live timeout, no dangling pointer |
| WakeLock.HeldOnlyUnderTimeout | libril/ril.cpp:662-686 | in every run from version 13 on, a held lock has an armed timer that would release it |
| WakeLock.OneLiveTimeout | libril/ril.cpp:350-364 | at most one armed timer is uncancelled, and the last pointer names an armed timer |
| WakeLock.TimeoutsReleaseTheLock | libril/ril.cpp:715-733 | once grabs stop, firing the armed timers ends with the lock released |
| WakeLock.FiringUsesUpTimers | libril/ril.cpp:350-364 | each firing uses up one armed timer and releases none |
| WakeLock.HeldIffCounted | libril/ril.cpp:670-680 | held exactly while grabs are counted iff no timer allocation fails under a counted grab |
| WakeLock.FailedGrabReleasesTheLock | libril/ril.cpp:670-680 | two grabs, the second without memory: one grab is counted and the lock is not held |
| WakeLock.CountsGrabsMinusReleases | libril/ril.cpp:662-710 | in every stretch of a run without failed grabs, live timeouts and releases of nothing, the count grows by the grabs and falls by the releases, and the lock stays held exactly while it is positive |
| WakeLock.HeldIffMoreGrabs | libril/ril.cpp:662-710 | from the start of such a run the lock is held iff there were more grabs than releases |
| WakeLock.MatchedGrabsGiveBack | libril/ril.cpp:662-710 | after as many releases as grabs, count and lock are what they were before |
| WakeLock.DisorderReleases | libril/ril.cpp:670-733 | after every other step the lock is released, and nothing is counted, except that a failed grab leaves the count |
| WakeLock.NewTimeoutIsTheOnlyLiveOne | libril/ril.cpp:670-680 | a grab or an unsolicited response arms a new timer and cancels all older ones |
| WakeLock.LastReleaseCancels | libril/ril.cpp:697-703 | the release that gives up the lock leaves no live timeout |
| WakeLock.SecondGrabKeepsTheLock | libril/ril.cpp:688-710 | two grabs and one release: the lock is held and one grab counted |
| WakeLock.UncountedHeldIff | libril/ril.cpp:682-733 | below version 13 the lock is held iff it was grabbed and no release, live timeout or failed timer has come since |
| WakeLock.WakeLockState.RequestTimeout | libril/ril.cpp:871-902 | a fresh uncancelled timer, or nothing |
| WakeLock.WakeLockState.GrabPartialWakeLock | libril/ril.cpp:662-686 | does what the protocol step of a grab says, in both versions |
| WakeLock.WakeLockState.ReleaseWakeLock | libril/ril.cpp:688-710 | does what the protocol step of a release says |
| WakeLock.WakeLockState.WakeTimeoutCallback | libril/ril.cpp:715-733 | an uncancelled timeout clears count and lock, a cancelled one does nothing |
| WakeLock.WakeLockState.UserTimerCallback | libril/ril.cpp:350-364 | the timer callback with its clean-up of the last pointer |
| RequestBook.StepKeepsInv | libril/ril.cpp:206-261 | adding, acknowledging and completing keep every list equal to its outstanding requests |
| RequestBook.ListsAreOutstanding | libril/ril.cpp:254-255 | in every run each list holds exactly the added requests of its slots that are not answered, newest first |
| RequestBook.OwnList | libril/ril.cpp:212-234 | every SIM slot in use has a list of its own, and any other slot uses the first one |
| RequestBook.AddJoinsTheList | libril/ril.cpp:236-261 | in every run an added request joins the front of the list of its slot with its serial and slot, and nothing else changes |
| RequestBook.AckIsPassedOn | libril/ril.cpp:570-602 | in every run an ack goes on to the client iff its request is not answered yet |
| RequestBook.AckedRequest | libril/ril.cpp:570-655 | a run: a request of slot 1 is added, acked and completed, with one ack and one answer that expects an ack |
| RequestBook.PendingIff | libril/ril.cpp:546-563 | a request is pending iff it was added and not answered |
| RequestBook.AnsweredIffCompleted | libril/ril.cpp:603-660 | a request gets exactly one completion response iff it is completed at least once |
| RequestBook.AnswerIsRight | libril/ril.cpp:633-655 | the response carries its serial and slot, and expects an ack iff version >= 13 and the request was acked |
| RequestBook.AckedIff | libril/ril.cpp:570-602 | a request counts as acked iff an ack came while it was pending |
| RequestBook.StaleTokensDoNothing | libril/ril.cpp:578-581 | ack or complete on a token that is not pending does nothing |
| PendingRequests.RequestList.Prepend | libril/ril.cpp:254-255 | a request goes to the front of its list |
| PendingRequests.RequestList.CheckAndDequeueIfAck | libril/ril.cpp:546-563 | the pointer-to-pointer scan marks or unlinks exactly the given request |
| PendingRequests.RequestTable.AddRequestToList | libril/ril.cpp:206-261 | adding refines the protocol step, and fails exactly for unknown commands and missing memory |
| PendingRequests.RequestTable.ListedIffPending | libril/ril.cpp:526-543 | a request is found on the list of its slot iff it is pending |
| PendingRequests.RequestTable.CheckAndDequeue | libril/ril.cpp:513-568 | the search finds exactly pending requests and leaves all other lists alone |
| PendingRequests.RequestTable.OnRequestAck | libril/ril.cpp:570-602 | refines the protocol step of an acknowledgement |
| PendingRequests.RequestTable.OnRequestComplete | libril/ril.cpp:603-660 | refines the protocol step of a completion, with its response |
| ClientCallbacks.ServiceState.SetResponseFunctions | libril/ril_service.cpp:839-848 | installs the callbacks and advances the counter |
| ClientCallbacks.ServiceState.ResetUnlessChanged | libril/ril_service.cpp:799-815 | clears the callbacks iff the noted counter is the current one |
| ClientCallbacks.StepKeepsInv | libril/ril_service.cpp:780-824 | every step of every thread keeps the lock exclusive and the memory of failed calls right |
| ClientCallbacks.KeepsMemory | libril/ril_service.cpp:786-797 | what a thread noted about its failed call is still so when it compares |
| ClientCallbacks.LateResetSparesNewClients | libril/ril_service.cpp:799-815 | in every run a late reset clears the callbacks iff the number of changes since the failed call is a multiple of 2^32, so newer callbacks stay |
| ClientCallbacks.LateResetClearsANewClient | libril/ril_service.cpp:799-815 | a run with 2^32 changes between the failed call and the comparison, after which the callbacks of a newer client are cleared |
| ClientCallbacks.NoChangeUnderReadLock | libril/ril_service.cpp:787-797 | nobody changes callbacks while a thread holds the read lock under which its call failed |
| ClientCallbacks.OnlyWritersChange | libril/ril_service.cpp:799-848 | callbacks change only when a holder of the write lock installs a client, which is then the one that is called, or resets one, and the counter counts every change |
| ClientCallbacks.SuccessfulCallChangesNothing | libril/ril_service.cpp:780-786 | a call that succeeds or has nobody to go to changes nothing |
| ClientCallbacks.NeverDeadlocked | libril/ril_service.cpp:780-824 | in every reachable state with a busy thread some busy thread can go on |
| ClientCallbacks.FailedClientIsCleared | libril/ril_service.cpp:786-824 | a run in which a call fails, nobody installs a client in between, the callbacks are cleared, and the caller is back under the read lock |
| Dispatch.Process.CopyString | libril/ril_service.cpp:525-547 | succeeds iff the string is empty and may not be, or memory suffices and the characters fit the reported length; a copy, a null pointer, or one error of the right kind and nothing left allocated |
| Dispatch.OnlyTruncationFails | libril/ril_service.cpp:525-547 | with enough memory the preparation fails iff some string that is copied has more characters than its length says, and then with an internal error |
| Dispatch.HonestStringsPass | libril/ril_service.cpp:588-613 | with enough memory strings that keep within their lengths reach the vendor as they are, in one call, and any other array gets one internal error |
| Dispatch.FreeStrings | libril/ril_service.cpp:495-509 | frees every string of an array exactly once |
| Dispatch.CopyAll | libril/ril_service.cpp:603-613 | the copy loop: all strings copied, or one error and none left |
| Dispatch.DispatchStrings | libril/ril_service.cpp:588-683 | the vendor is called once with the strings, plus the made-up completion of a manual selection, or one error is sent, never both; with enough memory the call is made iff every string that is copied keeps within its length; all memory is given back |
| DataProfiles.ProfileArray.FreeMembers | libril/ril_service.cpp:2468-2492 | the column-wise release frees every string of every profile exactly once |
| DataProfiles.ProfileArray.CopyRow | libril/ril_service.cpp:2532-2555 | the guarded copies of one profile |
| DataProfiles.CopyProfiles | libril/ril_service.cpp:2529-2564 | the profile loop stops at the first failure, with one error; the types are converted to their names on the way |
| DataProfiles.SetDataProfile | libril/ril_service.cpp:2494-2654 | both vendor versions: one vendor call with all profiles or one error, all memory given back |
| DataProfiles.RowsArePassed | libril/ril_service.cpp:2566-2567 | the structures hold exactly the strings of the profiles |
| DataProfiles.EarlyLayout | libril/ril_service.cpp:2532-2555 | up to version 14 the structure carries APN, protocol (the roaming one when roaming), user and password |
| DataProfiles.LateLayout | libril/ril_service.cpp:2596-2622 | from version 15 on it carries APN, protocol, roaming protocol, user, password, match data and the name of the MVNO type, an empty protocol as a null pointer |
| DataProfiles.EarlyProfilesPass | libril/ril_service.cpp:2494-2578 | up to version 14, with enough memory, the vendor gets all profiles iff every string keeps within its length |
| DataProfiles.LateProfilesPass | libril/ril_service.cpp:2580-2654 | from version 15 on, with enough memory, the first profile with a string beyond its length or an unknown type decides about the error; without one the vendor gets all profiles |
| DataProfiles.MvnoNamesAre | libril/ril_service.cpp:1116-1132 | the names of the four known types, each of exactly one type, and no name for any other |
| DataProfiles.PassableAreNamed | libril/ril_service.cpp:2618-2622 | in the later layout no profile of an unknown type reaches the vendor |
| DataProfiles.SetInitialAttachApn | libril/ril_service.cpp:2061-2148 | both vendor versions: one vendor call or one error, all memory given back |
| DataProfiles.ApnLayout | libril/ril_service.cpp:2061-2148 | which member carries which string, in both versions; all but the APN are null pointers when empty |
| DataProfiles.ApnPasses | libril/ril_service.cpp:2061-2148 | with enough memory: the vendor call iff every copied string keeps within its length and, from version 15 on, the type is known; otherwise the error of the first thing wrong |
| DataProfiles.MatchAndCall | libril/ril_service.cpp:2135-2145 | the copy behind the MVNO check, and the release of all six strings |
| GraphicBuffers.RoundTrip | libshims/ui/GraphicBuffer.cpp:257-332 | unflatten accepts flattened data iff the counts are below its limits, and gives back the buffer iff the handle is not empty or the buffer is blank |
| GraphicBuffers.EmptyHandleIsBlanked | libshims/ui/GraphicBuffer.cpp:308-311 | a buffer of 640 by 480 without a handle passes all checks and comes out blank |
| GraphicBuffers.FormatIs | libshims/ui/GraphicBuffer.cpp:228-245 | the ints of the format: magic number, width, height, stride, format, usage, both counts, and the ints of the handle |
| GraphicBuffers.RefusedFor | libshims/ui/GraphicBuffer.cpp:257-287 | which status for what: too little data, a wrong magic number, counts that are negative or too large, too little for the counts |
| GraphicBuffers.GraphicBuffer.Flatten | libshims/ui/GraphicBuffer.cpp:221-255 | writes exactly the encoding, inside the stated sizes, and lowers size and count by what it used; or changes nothing |
| GraphicBuffers.GraphicBuffer.Unflatten | libshims/ui/GraphicBuffer.cpp:257-332 | every check, error and clean-up: what the buffer holds, what is freed and what is left over |
| GraphicBuffers.GraphicBuffer.FreeHandle | libshims/ui/GraphicBuffer.cpp:98-110 | an owned handle goes back once, in the way of its owner |
| GraphicBuffers.Rebuilt | libshims/ui/GraphicBuffer.cpp:297-306 | the new handle holds the descriptors and then the ints |
| GraphicBuffers.HandOver | libshims/ui/GraphicBuffer.cpp:221-332 | flatten here and unflatten there hand over the buffer iff the handle is not empty or the buffer is blank |
| MkElf.WordReads | boot/mkelf.py:112-120 | a packed 32-bit field reads back |
| MkElf.WordsRead | boot/mkelf.py:112-120 | unpacking the fields of a program header reads what was packed, as far as it arrived |
| MkElf.HalfReads | boot/mkelf.py:80-85 | a packed 16-bit field reads back |
| MkElf.WriteOn | boot/mkelf.py:153-158 | a write right behind another one is one write of both |
| MkElf.LayOut | boot/mkelf.py:133-141 | the offsets put the segments one behind the other from 4096 on |
| MkElf.WriteElfHeader | boot/mkelf.py:62-85 | appends the header, or fails iff the entry address or the count does not fit |
| MkElf.WriteElfPhdr | boot/mkelf.py:87-120 | appends a program header, or fails iff a field does not fit |
| MkElf.WriteTable | boot/mkelf.py:146-147 | all program headers in order, unless one does not fit |
| MkElf.WriteContents | boot/mkelf.py:153-159 | the seeks and writes of all segments are one write of their contents at 4096 |
| MkElf.MakeElf | boot/mkelf.py:122-161 | the file is the image, and it is written iff count, addresses, sizes and offsets are in range |
| MkElf.FitsIff | boot/mkelf.py:80-120 | every field can be packed iff the count is below 2^16 and every address, size and offset below 2^32 |
| MkElf.ElfHeaderBytes | boot/mkelf.py:62-85 | the first 52 bytes of the file, byte by byte around the entry address and the count |
| MkElf.EntryInNumbers | boot/mkelf.py:87-120 | any of the first 126 program headers in the file, word by word: type 4 iff a command line, the flags of ramdisk, IPL, command line and RPM and of nothing else, offset, address and size |
| MkElf.OffsetsInNumbers | boot/mkelf.py:133-141 | the first offset is 4096, and each segment begins where the one before it ends |
| MkElf.GapsAreZero | boot/mkelf.py:146-158 | how long the file is, and that what was never written is zero |
| MkElf.PackedWordReads | boot/mkelf.py:112-120 | words are packed least significant byte first |
| MkElf.ElfHeaderReads | boot/mkelf.py:62-85 | the header means a little-endian 32-bit ARM executable whose program headers follow it |
| MkElf.EntryInPlace | boot/mkelf.py:146-147 | entry i of the table is the header of segment i |
| MkElf.ContentsInPlace | boot/mkelf.py:133-141 | the segments tile the contents: each ends where the next begins |
| MkElf.ContentsInFile | boot/mkelf.py:153-159 | every segment lies in the file at its offset, for any number of segments and with any board name |
| MkElf.ContentsTileTheFile | boot/mkelf.py:153-159 | behind the first page the file is exactly the contents iff the headers do not reach behind them |
| MkElf.BoardNameReads | boot/mkelf.py:149-151 | the board name, cut off or padded with zeros, is in the bytes 4080 to 4095 |
| MkElf.RoundTrip | boot/mkelf.py:122-161 | up to 126 segments, reading through e_phoff, e_phentsize and e_phnum gives back type, offset, flags, address and bytes of each |
| MkElf.ReadsBackIffAtMost126 | boot/mkelf.py:133-161 | all images of n segments read back iff n is at most 126 |
| MkElf.OneByteIsLost | boot/mkelf.py:146-158 | an image of any larger count whose address field is overwritten |
| MkElf.HeadersIntactIff | boot/mkelf.py:149-151 | for any number of segments the board name spares the headers iff they end before it, or it repeats what they hold there: zeros for 126 segments, and zeros and the start of the header of segment 126 for more |
| MkElf.NameDamagesHeaders | boot/mkelf.py:149-151 | with 126 segments every name that does not start with a zero damages the headers |
| MkElf.ReadsBackIff | boot/mkelf.py:122-161 | any one image reads back, offsets included, iff board name and contents repeat all that they cover of the program headers, alignments aside |
| MkElf.HeadersInImageIff | boot/mkelf.py:149-158 | the headers are in the file iff the name spares them and the contents repeat what lies behind the first page |

## Left out

What stands for code that the repository does not hold:

- `SharedBuffer`, gralloc, `native_handle` and the type traits: short classes and
  parameters with the obvious contract; a reallocation is an allocation, a copy and a release.
- Element construction, destruction and copying through the virtual `do_` methods: items are values, and
  `_do_construct` is a default item passed by the caller.
- Real pipes, epoll, select, clocks, sysfs and binder calls: inputs of the steps and methods.

What the model states with a precondition or not at all:

- Vectors.VectorImpl.InsertArrayAt: a source in the receiver's own private block lies before the insertion point and the block has room; otherwise the code copies from memory that it has just moved or freed.
- Vectors.VectorImpl.InsertAt: takes its item by value, while the code reads it through a pointer after the gap was opened.
- Vectors.VectorImpl.RemoveItemsAt: not for the wrapped ranges that pass the bounds check with an amount of at most the count (`RemovalUndefined`), for which the code reads outside the block.
- SortedVectors.Merge: the receiver is not empty, because the code reads its first item; like MergeEach it does not cover a vector that is merged into itself, and the argument has items of the same size.
- Vectors.VectorImpl.InsertVectorAt: the other vector has items of the same size, because the code copies by the size of the receiver.
- Vectors.VectorImpl.SetCapacity: the item size appears only as the largest item count whose bytes fit a `size_t`, on a 32-bit target.
- LooperWake.SleepsNoLongerThanDue: assumes the documented contract of `toMillisecondTimeoutDelay`, whose source is not part of this model.
- LooperResponses.Looper.PollInner: callbacks do not poll again themselves; what other threads register between two callbacks counts as part of a callback.
- RilWatch.WatchTable.Add: the descriptor is not negative; how a table goes on with which an event disagrees is not modelled.
- RilWatch.WatchTable.Delete: the event was set up before, so its index is -1 or its own slot.
- RilLoop.DoWatches: a callback watches its own event only while that is in no slot, and no negative descriptor.
- RilLoop.FirePending: a callback frees or reuses no event but its own, and its own only while that is neither watched nor armed (an event that is watched is kept instead); what other threads add meanwhile counts as part of a callback.
- WakeLock.HeldOnlyUnderTimeout: a timer callback and its clean-up are one step, so an interleaving between the two is not modelled; versions below 13 keep only the weaker invariants.
- RequestBook.AnsweredIffCompleted: request memory is never reused for a later request while its old token is still around, and the fields `cancelled` and `local`, which nothing sets, are not modelled.
- PendingRequests.RequestTable.OnRequestComplete: the response function itself is the recorded answer; the wake lock that it grabs has its own model.
- ClientCallbacks.LateResetSparesNewClients: callers hold the read lock on entry; the error path of request preparation, which does not, and the NITZ path, which holds the write lock (libril/ril.cpp:798-815), are not part of the protocol. The counters are signed in the code (libril/ril_service.cpp:88-96), where going past the maximum is undefined; the model takes it that they wrap around.
- Dispatch.DispatchStrings: the request information that stays in the pending list after a locally sent error is not followed further, the unrolled argument list is a sequence, and a request that cannot be added to the list ends before this method.
- DataProfiles.SetDataProfile: the numeric members of the structures, which are plain copies, are left out; the unrolled copies of the strings are a loop over the members.
- GraphicBuffers.GraphicBuffer.Flatten: the buffer pointer, which advances by ints where the size shrinks by bytes, is not modelled, so nothing is said about a cursor over several buffers; handles have at most 2^28 - 1 entries of each kind.
- MkElf.MakeElf: command-line parsing and reading of the input files; a file's size does not change between the two times it is looked at, and a failed field leaves an unspecified partial file.
- VectorSorting.Sort: the outer loop is split at its first disordered item, where the code sets up its temporary item.

Not modelled, because it would only add easy or repetitive members:

- The wrappers of the vector (`push`, `pop`, `add`, `clear`, `resize`, `appendVector`, `appendArray`, `editItemLocation`) and `pollAll`, `wake` beyond its one write, and the thread-local looper.
- The remaining request, response and indication functions of `ril_service.cpp` and `sap_service.cpp`, the command tables and `requestToString`.
- `setCarrierInfoForImsiEncryption`, whose success path does not free its strings (libril/ril_service.cpp:2876-2883).
- `rilSocketQueue.h` and `RilSapSocket.cpp`, a weaker form of the pending-request list.
- GNSS, vibrator, camera, MAC address, lights, init and settings code: device input and output and thin wrappers.
