# Verified model of the DSP firmware utilities

The utilities are containers and cross-core protocols that firmware components share: rings,
queues, lists, allocators, locks over non-coherent caches, and two codecs. This project restates
them in Dafny and proves what their users rely on, for all inputs and all runs.

`dafny verify dfyconfig.toml` checks everything.

## How it is organised

- **The two-phase ring** `CircularBuffer<T>`. `RingModel.dfy` gives states and transitions,
  `RingLemmas.dfy` what each call does to the queue, `RingAnswers.dfy` when it succeeds and what it
  lends, `RingRegime.dfy` what callers have to check,
  `RingRuns.dfy` whole runs, `RingMisuse.dfy` what happens when they do not check, and
  `CircularBuffer.dfy` the class that changes its fields in place, each method proved against its
  transition. The *window* of a ring is its unread elements followed by the cells reserved for
  writing, in ring order; the modulus shrinks when a reservation skips the tail of the array and
  grows back when the read position wraps, and the window is what stays the same.
  `ByteArraySized.dfy` is the local byte array filled from such a ring.
- **Locks over caches.** `Coherence.dfy` is a private cache with demand fills, evictions at any time
  and explicit write-back and invalidation. `Shared.dfy` is the reader/writer lock as a transition
  system for any number of cores, `SharedProofs.dfy` its invariant and safety theorems,
  `SharedProgress.dfy` who gets in and who waits,
  `SharedReleases.dfy` when exactly the end of a write access does harm and what callers must do, `SharedWitness.dfy` a run
  from the constructor in which it does. `SharedRw.dfy` is the exclusive lock, `SharedRwWitness.dfy`
  how a light section that stores loses updates of other cores.
- **Containers in arrays.** `Lists.dfy` has what linking a node in or out does to a doubly linked
  chain; `BiListPreAlloc.dfy` and `FmtModulesList.dfy` use it. `BufferProvider.dfy`,
  `SimpleQueue.dfy`, `CppSimpleQueue.dfy` and `RtCircularBuffer.dfy` are on their own arrays.
- **Codecs and the guard.** `Tlv.dfy`, `Crc.dfy`, `ThreadLock.dfy`.

## The regime of the ring

The ring keeps its invariant only while callers respect conditions the code does not check.
`RingRegime.Allowed` collects them and `RingRegime.RegimeIsExact` shows they are necessary and
sufficient for every call to keep the invariant:

- a reservation hides the tail only while something in the ring is not lent to the reader;
- while a head chunk is pending, nothing committed since, the reader does not drain the ring;
- commits stay within the reservation (over-commits of exactly one lap are the only exception: the
  counters then agree again by accident);
- Push finds a cell that is neither unread nor reserved, and the Displace calls find nothing queued
  on their side;
- Unwind in its copying branch is asked for no more than is unread.

The conditions are exact for the invariant, which is more than the queue needs at every moment:
after a tail hidden too early, the commit of what the reader holds repairs the ring if the chunk did
not fill it (`RingMisuse.HideWhileDrainedRecoversIff`). What follows from a violation otherwise is
stated in `RingMisuse.dfy`, each lemma for all states and arguments in its hypothesis, and together
these cover every state that violates a condition: elements read twice, overwritten, lost, left
behind or pushed out of order, amounts that underflow, loans that can never be committed. Each
condition comes with a small ring on which it is violated.

## Write accesses of `Shared`

A plain write access does not refresh the object, so it can leave an outdated line in the cache of
its own core and clear the flag that would have told it. `SharedReleases.RereadIsCurrentIff` says
that this harms exactly when the core caches an outdated line at the release: if it reads next, with
no step of another core and no eviction in between, it then sees that line. Callers cannot see what
is cached; what they can do instead, overwrite the whole object, is `SharedModel.Disciplined`. It is
enough (`SharedProofs.DisciplinedTracesAreRuns`) and cannot be weakened
(`SharedReleases.DisciplineIsExact`). Exclusion and the count of the readers do not depend on it.

## Where code and documentation disagree

The model follows the code.

- `InsertData(0)` inserts a full lap (FW/src/lp/common/utilities/circular_buffer_template.h:406-442).
- `ReInitialize` checks the amount stored before the call, not the new one (FW/src/lp/common/utilities/circular_buffer_template.h:458).
- `CommitQueued` answers an over-commit with an error code through a `bool`, which reads as "wrapped"
  (FW/src/lp/common/utilities/circular_buffer_template.h:572-576).
- A writer of `Shared` that has to wait looks at its cached control block again without invalidating
  it, so it waits until the block happens to be evicted (FW/src/lp/common/utilities/shared.h:171-176).
- `RtCircularBuffer::Init` and `Release` leave the amount of data alone (FW/src/lp/common/utilities/simple_circular_buffer.h:26-40).
- `SimpleQueue` `Remove` of an absent element drops the newest entry, and on a full queue of more
  than one cell it clears the front cell (FW/src/lp/common/utilities/queue.cc:47-77).
- `BufferProvider::GetBuffer` accepts negative sizes and then loses its address order, and size 0,
  after which two buffers can have one address (FW/src/lp/common/utilities/buffer_provider.h:40-105).
- `TlvIterator::IsValid` compares signed values, so lengths from 2^31 - 8 on can be accepted without
  fitting (FW/src/lp/common/utilities/tlv.h:92-95).

## Model

| member | source | states |
|---|---|---|
| RingModel.CellsAreDistinct | FW/src/lp/common/utilities/circular_buffer_template.h:270-324 | Different places of the window (unread elements, then reserved cells) are different cells, all inside the array, whatever the current modulus |
| RingRuns.RunsAreFifo | FW/src/lp/common/utilities/circular_buffer_template.h:220-828 | Over every run of reservations, stores, commits, Push/Pop, Displace, InsertData and Unwind calls within the regime: a write commit appends exactly what the writers stored in the granted cells, whatever happened in between; elements committed = elements consumed followed by elements still stored; nothing is lost, duplicated or reordered while the modulus shrinks and grows |
| RingRuns.LoansNeverOverlap | FW/src/lp/common/utilities/circular_buffer_template.h:680-828 | In every reachable state the cells lent to writers are pairwise different, inside the ring, and apart from every unread element and every cell lent to a reader; readers see exactly the oldest elements |
| RingRegime.RegimeIsExact | FW/src/lp/common/utilities/circular_buffer_template.h:220-828 | For every call on every valid ring: the invariant survives iff the condition `Allowed`, on fields and arguments before the call, holds, apart from over-commits of exactly one lap |
| RingRuns.StepKeepsValid | FW/src/lp/common/utilities/circular_buffer_template.h:220-828 | One allowed call keeps: ring invariant, where the lent cells are, that the cells lent to writers hold what the writers stored, and committed = consumed ++ stored |
| RingRuns.RunStaysValid | FW/src/lp/common/utilities/circular_buffer_template.h:220-828 | The same for every finite run |
| RingLemmas.HideOnlyUnwrapped | FW/src/lp/common/utilities/circular_buffer_template.h:746-756 | The branch that hides the tail is unreachable once data or reservations wrap |
| RingLemmas.GetWriteableKeepsInvIff | FW/src/lp/common/utilities/circular_buffer_template.h:721-779 | Reserving keeps the invariant iff it does not hide the tail while everything in the ring is lent to the reader |
| RingLemmas.GetWriteableGrants | FW/src/lp/common/utilities/circular_buffer_template.h:721-779 | A granted chunk is contiguous and is exactly the next run of cells behind the window; all old cells keep place and value, also when the modulus shrinks; a refused call changes nothing |
| RingLemmas.GetWriteableRefuses | FW/src/lp/common/utilities/circular_buffer_template.h:743-758 | A non-zero request is granted iff enough cells are free and the run fits at the queued position or below the read position |
| RingLemmas.GetReadableGrants | FW/src/lp/common/utilities/circular_buffer_template.h:680-718 | A lent read chunk is the run of cells at the first unread element not yet lent; window and cells are unchanged |
| RingLemmas.GetReadableRefuses | FW/src/lp/common/utilities/circular_buffer_template.h:691-703 | A read request is granted iff that many unlent elements exist and lie in consecutive cells |
| RingLemmas.ReadCommitKeepsInvIff | FW/src/lp/common/utilities/circular_buffer_template.h:650-677 | Exact condition: within the reservation and not draining the ring while a head chunk is pending, or an over-commit of one whole lap |
| RingLemmas.ReadCommitDrops | FW/src/lp/common/utilities/circular_buffer_template.h:650-677 | A read commit drops exactly a prefix of the window and leaves every other cell in place, across the wrap and the return of the hidden tail |
| RingLemmas.WriteCommitKeepsInvIff | FW/src/lp/common/utilities/circular_buffer_template.h:619-647 | Exact condition: within the reservation, or one of two whole-lap over-commits (one of them through 32-bit overflow of the bounds check) |
| RingLemmas.WriteCommitAppends | FW/src/lp/common/utilities/circular_buffer_template.h:619-647 | A write commit appends exactly what the first granted cells hold, in ring order |
| RingLemmas.StoreStages | FW/src/lp/common/utilities/circular_buffer_template.h:741-757 | A store through a granted descriptor changes that staged element and no unread one |
| RingLemmas.PushKeepsInvIff | FW/src/lp/common/utilities/circular_buffer_template.h:220-234 | A successful Push keeps the invariant iff some cell is neither unread nor reserved; its own guard does not imply that |
| RingLemmas.PushAppends | FW/src/lp/common/utilities/circular_buffer_template.h:220-234 | Push appends its element and moves nothing else |
| RingLemmas.PopKeepsInvIff | FW/src/lp/common/utilities/circular_buffer_template.h:242-264 | A successful Pop keeps the invariant iff it does not take the last element while a head chunk is pending |
| RingLemmas.PopDrops | FW/src/lp/common/utilities/circular_buffer_template.h:242-264 | Pop hands out the oldest element; the others keep their cells, also when the modulus is restored |
| RingLemmas.DisplaceReadKeepsInvIff | FW/src/lp/common/utilities/circular_buffer_template.h:358-391 | A successful move of the read position keeps the invariant iff nothing is queued for reading (the guard misses a queue of the whole ring) |
| RingLemmas.DisplaceReadDrops | FW/src/lp/common/utilities/circular_buffer_template.h:358-391 | Moving the read position drops the elements passed, 1 to a full lap of them |
| RingLemmas.DisplaceWriteKeepsInvIff | FW/src/lp/common/utilities/circular_buffer_template.h:415-442 | The same exact condition for the write position |
| RingLemmas.DisplaceWriteAppends | FW/src/lp/common/utilities/circular_buffer_template.h:415-442 | Moving the write position appends the cells passed with what they hold |
| RingLemmas.InsertDataAppendsIff | FW/src/lp/common/utilities/circular_buffer_template.h:406-409 | A successful InsertData(size) adds `size` elements iff 1 <= size <= array size; size 0 adds a full lap |
| RingLemmas.UnwindKeepsInvIff | FW/src/lp/common/utilities/circular_buffer_template.h:781-828 | Unwind keeps the invariant iff, in the copying branch, the request is within the unread data |
| RingLemmas.UnwindShowsPrefix | FW/src/lp/common/utilities/circular_buffer_template.h:812-826 | The copying branch lends one contiguous region over preceding array ++ array equal to the first requested elements, and changes no stored element |
| RingLemmas.UnwindThenCommit | FW/src/lp/common/utilities/circular_buffer_template.h:781-828 | Unwind followed by a ReadCommit of the same size drops exactly the elements shown |
| RingLemmas.UnwindLends | FW/src/lp/common/utilities/circular_buffer_template.h:781-828 | For requests within the unread data, every branch of Unwind lends a prefix of the queue as one region or leaves the ring alone |
| RingLemmas.ReInitializeKeepsInvIff | FW/src/lp/common/utilities/circular_buffer_template.h:455-474 | ReInitialize leaves a valid ring iff the position is refused or the new amount fits: the check at the top looks at the old amount |
| RingLemmas.ResetEmpties | FW/src/lp/common/utilities/circular_buffer_template.h:446-453 | Reset gives a valid, empty, full-size ring from any state |
| RingLemmas.CommitQueuedAdvances | FW/src/lp/common/utilities/circular_buffer_template.h:567-581 | Within the reservation a commit moves a position round the boundary, tells whether it passed it, and keeps the end of the reservation |
| RingAnswers.ReadAnswered | FW/src/lp/common/utilities/circular_buffer_template.h:680-718 | When a read request is granted and what it lends; request 0 lends all unlent elements up to the logical end, and fails iff there are none |
| RingAnswers.WriteAnswered | FW/src/lp/common/utilities/circular_buffer_template.h:721-779 | When a reservation is granted and where; request 0 is granted iff a cell is free, starts behind the window, and ends at the logical end or when the ring is full; the head of the array is used iff the tail is too short |
| RingAnswers.ReadCommitAnswered | FW/src/lp/common/utilities/circular_buffer_template.h:650-677 | Underrun iff more than unread is committed; the last commit ends the reservation; the hidden tail returns iff the read position wraps |
| RingAnswers.WriteCommitAnswered | FW/src/lp/common/utilities/circular_buffer_template.h:619-647 | Overrun iff the ring cannot hold the amount and the sum does not overflow 32 bits; the last commit ends the reservation |
| RingAnswers.PushAnswered | FW/src/lp/common/utilities/circular_buffer_template.h:220-234 | Push succeeds iff the unlent elements do not fill the ring and nothing is queued for writing; OutOfResources and Busy otherwise, in that order |
| RingAnswers.PopAnswered | FW/src/lp/common/utilities/circular_buffer_template.h:242-264 | Pop succeeds iff an unlent element exists and nothing is queued for reading; both refusals exact; the hidden tail returns iff the read position wraps |
| RingAnswers.DistancePasses | FW/src/lp/common/utilities/circular_buffer_template.h:358-442 | The distance computed with the 32-bit modulus is the one number of cells from 1 to a whole lap that leads to the target |
| RingAnswers.MoveReadAnswered | FW/src/lp/common/utilities/circular_buffer_template.h:358-391 | When moving the read position succeeds, how far it goes, and each refusal |
| RingAnswers.MoveWriteAnswered | FW/src/lp/common/utilities/circular_buffer_template.h:415-442 | The same for the write position |
| RingAnswers.InsertAnswered | FW/src/lp/common/utilities/circular_buffer_template.h:406-442 | InsertData of up to the array size succeeds iff the ring has its full size, the amount fits and nothing is queued for writing; 0 counts as a lap |
| RingAnswers.UnwindAnswered | FW/src/lp/common/utilities/circular_buffer_template.h:781-828 | What Unwind lends in place or by copying, and each refusal: reads queued, empty ring, no preceding array, one that is too short |
| RingAnswers.ReInitializeAnswered | FW/src/lp/common/utilities/circular_buffer_template.h:455-474 | Accepted iff the position is at most the array size; the ring then reads on from there and claims the amount as given; otherwise it is empty |
| RingAnswers.ReInitializeClaims | FW/src/lp/common/utilities/circular_buffer_template.h:455-474 | For an amount that fits, the contents are what the cells from that position on hold |
| RingMisuse.HideWhileDrainedBlocksReader | FW/src/lp/common/utilities/circular_buffer_template.h:746-756 | Tail hidden while everything is lent to the reader: until the reader commits, every read request is refused, after the reservation and after any commit of the chunk |
| RingMisuse.HideWhileDrainedRecoversIff | FW/src/lp/common/utilities/circular_buffer_template.h:650-677 | Then the commit of what the reader holds leaves a valid ring whose contents are the chunk iff the chunk did not fill the shortened ring |
| RingMisuse.HideWhileEmptyPopsHiddenCell | FW/src/lp/common/utilities/circular_buffer_template.h:242-264 | With nothing lent, Pop instead hands out the hidden cell, which the writer was not given |
| RingMisuse.DrainWhilePending | FW/src/lp/common/utilities/circular_buffer_template.h:650-677 | Draining while a head chunk is pending, by one commit or by Pop of the last element, restores the modulus and leaves the write position where it was |
| RingMisuse.DrainWhilePendingMisplacesWriter | FW/src/lp/common/utilities/circular_buffer_template.h:619-647 | Any commit of the chunk then ends with the write position away from the end of the data |
| RingMisuse.DrainWhilePendingLosesPush | FW/src/lp/common/utilities/circular_buffer_template.h:220-234 | So the element pushed next lies elsewhere, and the reader finds an old cell in its place |
| RingMisuse.OverCommitIs | FW/src/lp/common/utilities/circular_buffer_template.h:619-647 | A write commit beyond the reservation passes the check, adds to the amount and leaves the write position |
| RingMisuse.OverCommitMisplacesPush | FW/src/lp/common/utilities/circular_buffer_template.h:619-647 | When no reservation is left, the next push, at once or after a Pop of a ring that counts as full, lands `size` places too early in the queue, or in the hidden cell while a head chunk is pending |
| RingMisuse.OverCommitExposesReservation | FW/src/lp/common/utilities/circular_buffer_template.h:619-647 | When the reservation goes on, its cells count as unread, and the free amount underflows where the ring cannot hold both |
| RingMisuse.OverflowingCommitDropsData | FW/src/lp/common/utilities/circular_buffer_template.h:622-629 | A commit whose sum overflows 32 bits passes the check and drops unread elements |
| RingMisuse.OverReadIs | FW/src/lp/common/utilities/circular_buffer_template.h:567-677 | A read commit beyond the reservation passes the check, lowers the amount, leaves the read position, and restores the modulus as if it had wrapped |
| RingMisuse.OverReadRepeats | FW/src/lp/common/utilities/circular_buffer_template.h:650-677 | With elements left and no loan, Pop hands out the oldest again, and in a ring of full size the elements left are the oldest: the newest are lost |
| RingMisuse.OverReadOfAllRepeats | FW/src/lp/common/utilities/circular_buffer_template.h:650-677 | With none left, the element pushed next is answered by a Pop of the oldest |
| RingMisuse.OverReadOfAllHidesChunk | FW/src/lp/common/utilities/circular_buffer_template.h:650-677 | And so is any chunk reserved before, when it is committed |
| RingMisuse.OverReadUnderLoan | FW/src/lp/common/utilities/circular_buffer_template.h:650-677 | With the loan going on, the amount behind it shrinks by what was committed, or underflows |
| RingMisuse.OverReadRestoresTooEarly | FW/src/lp/common/utilities/circular_buffer_template.h:572-673 | On a shortened ring the tail comes back too early: elements behind the shortened end are looked for in the hidden cells |
| RingMisuse.PushWithoutRoomOverwrites | FW/src/lp/common/utilities/circular_buffer_template.h:220-234 | Push without a free cell overwrites the first cell of the window, which is lent or reserved |
| RingMisuse.MoveReadUnderLoan | FW/src/lp/common/utilities/circular_buffer_template.h:358-391 | Moving the read position under a loan of the whole ring underflows the amount left, and the reader cannot commit any more |
| RingMisuse.MoveWriteUnderLoan | FW/src/lp/common/utilities/circular_buffer_template.h:415-442 | The same for the write position: the free amount underflows, and the writer cannot commit |
| RingMisuse.UnwindBeyondData | FW/src/lp/common/utilities/circular_buffer_template.h:812-826 | An unwound request beyond the data is lent in full, underflows the amount left and cannot be committed |
| RingMisuse.ReInitializeBeyondSize | FW/src/lp/common/utilities/circular_buffer_template.h:455-474 | More elements than cells are accepted, and the free amount underflows |
| RingMisuse.InsertNothingFills | FW/src/lp/common/utilities/circular_buffer_template.h:406-442 | InsertData(0) succeeds only on an empty ring and fills it |
| RingMisuse.HideExample | FW/src/lp/common/utilities/circular_buffer_template.h:746-756 | A ring of four cells: the writer stores 20 and 21, Pop takes 13 |
| RingMisuse.DrainExample | FW/src/lp/common/utilities/circular_buffer_template.h:242-264 | A ring of four cells on which Pop of the last element breaks the invariant |
| RingMisuse.OverCommitExample | FW/src/lp/common/utilities/circular_buffer_template.h:619-647 | A ring of four cells on which an over-commit of a writer succeeds and breaks the invariant |
| RingMisuse.OverflowExample | FW/src/lp/common/utilities/circular_buffer_template.h:622-629 | The same with a size of 2^32 - 1 |
| RingMisuse.OverReadExample | FW/src/lp/common/utilities/circular_buffer_template.h:650-677 | The same for an over-commit of the reader |
| RingMisuse.OverReadHiddenExample | FW/src/lp/common/utilities/circular_buffer_template.h:572-673 | A shortened ring of 12, 10, 11: after an over-read Pop hands out 12 and then the hidden 13 |
| RingMisuse.PushExample | FW/src/lp/common/utilities/circular_buffer_template.h:220-234 | A full ring of four cells lent to the reader: Push overwrites the first |
| RingMisuse.MoveReadExample | FW/src/lp/common/utilities/circular_buffer_template.h:358-391 | The same ring: moving the read position succeeds and breaks the invariant |
| RingMisuse.MoveWriteExample | FW/src/lp/common/utilities/circular_buffer_template.h:415-442 | An empty ring reserved as a whole: moving the write position succeeds and breaks the invariant |
| RingMisuse.UnwindExample | FW/src/lp/common/utilities/circular_buffer_template.h:781-828 | Two elements across the end, three requested: granted, invariant broken |
| RingMisuse.ReInitializeExample | FW/src/lp/common/utilities/circular_buffer_template.h:455-474 | Five elements in four cells accepted |
| RingMisuse.InsertNothingExample | FW/src/lp/common/utilities/circular_buffer_template.h:406-442 | A fresh ring of four cells is full after InsertData(0) |
| CircularBuffers.CircularBuffer.GetWriteableBuffer | FW/src/lp/common/utilities/circular_buffer_template.h:721-779 | In place, for every input: grants exactly when the cells exist, for request 0 as many as lie together, and says which; inside the regime contents stay and the chunk is the next run of cells |
| CircularBuffers.CircularBuffer.WriteCommit | FW/src/lp/common/utilities/circular_buffer_template.h:619-647 | In place: contents grow by the staged prefix; refusal exact |
| CircularBuffers.CircularBuffer.GetReadableBuffer | FW/src/lp/common/utilities/circular_buffer_template.h:680-718 | In place: the chunk shows the next unlent elements, as many as asked for or as lie together, contents unchanged; refused iff they are missing or not contiguous |
| CircularBuffers.CircularBuffer.ReadCommit | FW/src/lp/common/utilities/circular_buffer_template.h:650-677 | In place: contents lose the committed prefix, staged cells unchanged; refusal exact |
| CircularBuffers.CircularBuffer.Push | FW/src/lp/common/utilities/circular_buffer_template.h:220-234 | In place: appends one element, or refuses without change, OutOfResources iff unlent elements fill the ring, Busy iff writes are queued |
| CircularBuffers.CircularBuffer.Pop | FW/src/lp/common/utilities/circular_buffer_template.h:242-264 | In place: returns and removes the oldest element, error cases included |
| CircularBuffers.CircularBuffer.DisplaceReadPosition | FW/src/lp/common/utilities/circular_buffer_template.h:358-391 | In place: drops a prefix and ends at the requested position; success and refusals exact |
| CircularBuffers.CircularBuffer.DisplaceWritePosition | FW/src/lp/common/utilities/circular_buffer_template.h:415-442 | In place: extends the contents and ends at the requested position; success and refusals exact |
| CircularBuffers.CircularBuffer.InsertData | FW/src/lp/common/utilities/circular_buffer_template.h:406-409 | In place: adds `size` elements iff 1 <= size <= array size; success and refusals exact |
| CircularBuffers.CircularBuffer.Unwind | FW/src/lp/common/utilities/circular_buffer_template.h:781-828 | In place: one region equal to a prefix of the contents, contents unchanged; lends whenever the elements lie together or the preceding array can take the first part; all refusals exact |
| CircularBuffers.CircularBuffer.Reset | FW/src/lp/common/utilities/circular_buffer_template.h:446-453 | In place: valid and empty |
| CircularBuffers.CircularBuffer.ReInitialize | FW/src/lp/common/utilities/circular_buffer_template.h:455-474 | In place: valid afterwards iff the position is refused or the amount fits; says from where it reads on and how much it claims |
| ByteArrays.ByteArraySized.FillInCir | FW/src/lp/common/utilities/circular_buffers.h:43-75 | Terminates and conserves the stream local bytes ++ ring contents across wraps and modulus resets; on success fewer than 8 bytes are free locally or fewer than 8 remain in the ring; the ring stays valid iff it was not drained while a head chunk was pending; with reads queued on entry, exactly the bytes copied behind them and those dropped in front instead; the number of bytes moved is exact |
| ByteArrays.MovedInTwoRounds | FW/src/lp/common/utilities/circular_buffers.h:60-73 | The loop needs at most two rounds, and what it moves is: whole units of 8 local bytes, cut at the wrap, then again |
| ByteArrays.ByteArraySized.ShiftLeft | FW/src/lp/common/utilities/circular_buffers.h:81-89 | Drops the consumed prefix, or refuses without change when too much is claimed |
| SharedProofs.LoadsAreCurrent | FW/src/lp/common/utilities/shared.h:85-200 | In every run of any number of cores in which no write access ends with an outdated line in its cache: a reader loads what the last dirty release wrote back; a read-write holder loads that or its own last store; a write holder loads its own stores |
| SharedProofs.ReleasePublishesStores | FW/src/lp/common/utilities/shared.h:121-138 | A dirty release writes back exactly the holder's stores over the previously released object |
| SharedProofs.WritersExclude | FW/src/lp/common/utilities/shared.h:85-200 | In every reachable state of every trace, whatever lines the accesses store to, a write access excludes all readers and other writers, although the wait loop looks at a possibly stale control block |
| SharedProofs.MemoryCountsReaders | FW/src/lp/common/utilities/shared.h:85-148 | In every trace, whenever the spinlock is free, reader_cnt in memory is the number of live read accesses |
| SharedProofs.TraceKeepsControl | FW/src/lp/common/utilities/shared.h:67-200 | Every trace from the constructor, disciplined or not, keeps the invariant of spinlock, control block and its cached copies |
| SharedProofs.NextKeepsInv | FW/src/lp/common/utilities/shared.h:67-200 | Every step keeps the inductive invariant: without an unpublished write, an unflagged core has no copy of the object or a current one |
| SharedProofs.RunKeepsInv | FW/src/lp/common/utilities/shared.h:67-200 | The invariant holds in every state of every run from the constructor |
| SharedProofs.DisciplinedTracesAreRuns | FW/src/lp/common/utilities/shared.h:105-138 | Every trace in which plain write accesses that had something to refresh overwrite the whole object is such a run |
| SharedProgress.ReaderEnters | FW/src/lp/common/utilities/shared.h:85-103 | A reader that finds the spinlock free always enters and gives it back; it drops its copy of the object iff its flag was set |
| SharedProgress.CanEnterToRead | FW/src/lp/common/utilities/shared.h:85-103 | These steps are always possible |
| SharedProgress.WriterEnters | FW/src/lp/common/utilities/shared.h:167-200 | When no reader is left, a writer that finds the spinlock free enters at its first check; a read-write access drops its copy of the object iff its flag was set, any other keeps it |
| SharedProgress.CanEnter | FW/src/lp/common/utilities/shared.h:167-200 | These steps are always possible |
| SharedProgress.FirstCheckDecides | FW/src/lp/common/utilities/shared.h:167-176 | A writer gets past its first check iff no reader is left; otherwise it waits with a control block in its cache that shows a reader |
| SharedProgress.RetryDecides | FW/src/lp/common/utilities/shared.h:171-176 | A later check succeeds iff the control block was evicted in the meantime and no reader is left |
| SharedProgress.StuckUntilEviction | FW/src/lp/common/utilities/shared.h:171-176 | In any trace a writer that once found a reader never gets in until its control block is evicted, even when all readers are gone |
| SharedReleases.RereadIsCurrentIff | FW/src/lp/common/utilities/shared.h:121-148 | From every invariant state inside a write access, when the core releases and acquires for reading without a step of another core or an eviction in between: all its loads return what it released iff it cached no outdated line at the release |
| SharedReleases.CanReread | FW/src/lp/common/utilities/shared.h:85-138 | These steps are always possible |
| SharedReleases.OutdatedLinesAreUnwritten | FW/src/lp/common/utilities/shared.h:105-138 | The lines in question are exactly those the access did not store to |
| SharedReleases.ReleaseKeepsInvIff | FW/src/lp/common/utilities/shared.h:121-138 | And the release keeps the invariant all readers rely on in exactly the same cases |
| SharedReleases.DisciplineIsExact | FW/src/lp/common/utilities/shared.h:105-138 | What a caller can check is exact as well: `Disciplined` holds iff the release is harmless for every content of the cache of the core that the invariant allows |
| SharedReleases.OldValueIsPossible | FW/src/lp/common/utilities/shared.h:105-138 | Any line the access neither refreshed nor stored to may be cached with any old value, and then the release breaks the invariant |
| SharedWitness.PartialWriteLeavesStaleCopy | FW/src/lp/common/utilities/shared.h:105-138 | Why a plain write access must overwrite the whole object: a 17-step run, undisciplined at one step only, after which a reader loads an outdated value |
| SharedRwModel.RunsAreSerial | FW/src/lp/common/utilities/shared_rw.cc:36-108 | Every interleaving of lock, invalidate, load, store, write-back and eviction steps is equivalent to the sections run one after another on one memory; when the lock is free, memory is that memory |
| SharedRwModel.AccessesStayInSection | FW/src/lp/common/utilities/shared_rw.cc:36-108 | In every trace, also when light sections store: each access is recorded in the last section, which belongs to the accessing core, so the serial order does not interleave sections |
| SharedRwModel.TraceKeepsOwner | FW/src/lp/common/utilities/shared_rw.cc:36-108 | In every trace exactly the core inside a section owns the lock, and the last section of the log is its own |
| SharedRwModel.LightReleaseKeepsInvIff | FW/src/lp/common/utilities/shared_rw.cc:99-108 | lightrelease keeps the invariant iff the section left no dirty line |
| SharedRwModel.ReleaseStepOk | FW/src/lp/common/utilities/shared_rw.cc:86-97 | release leaves in memory what the sections so far leave when run one after another, before the lock is free; a caller without the lock changes nothing |
| SharedRwModel.NextKeepsInv | FW/src/lp/common/utilities/shared_rw.cc:36-108 | Every step keeps the invariant when light sections only read |
| SharedRwWitness.LightReleaseLosesUpdate | FW/src/lp/common/utilities/shared_rw.cc:62-108 | From every invariant state in which a light section is about to end with a dirty line: a full section of any other core stores to that line and releases it, and the eviction of the dirty line puts the older value back in memory; all seven steps are disciplined |
| SharedRwWitness.CanLose | FW/src/lp/common/utilities/shared_rw.cc:62-108 | Any other core can take these steps |
| SharedRwWitness.DirtyLightSectionLosesUpdate | FW/src/lp/common/utilities/shared_rw.cc:62-108 | Why light sections must only read: a 10-step run with one store in a light section, after which memory has lost the update of the other core |
| Links.LinkedIn | FW/src/lp/common/utilities/list.h:322-448 | Linking one node in at any place yields a chain whose next and prev links are mutually inverse and whose elements are the old ones with one inserted |
| Links.LinkedOut | FW/src/lp/common/utilities/list.h:464-498 | Cutting one node out does the matching deletion |
| Links.WalkVisitsChain | FW/src/lp/common/utilities/list.h:212-231 | Following next visits the chain in order and ends at its last node: no cycle |
| Links.WalkReturns | FW/src/lp/common/utilities/list.h:212-231 | Following prev leads back to the head in as many steps |
| Links.ChainIsUnique | FW/src/lp/common/utilities/list.h:212-231 | The links determine the represented sequence |
| PreAllocatedLists.BiListPreAlloc.PushBack | FW/src/lp/common/utilities/list.h:322-349 | Appends, or fails without change iff all slots are taken |
| PreAllocatedLists.BiListPreAlloc.PushFront | FW/src/lp/common/utilities/list.h:423-448 | Prepends, or fails without change iff all slots are taken |
| PreAllocatedLists.BiListPreAlloc.PutAfter | FW/src/lp/common/utilities/list.h:351-385 | Inserts behind the given node |
| PreAllocatedLists.BiListPreAlloc.PutBefore | FW/src/lp/common/utilities/list.h:387-421 | Inserts in front of the given node |
| PreAllocatedLists.BiListPreAlloc.Find | FW/src/lp/common/utilities/list.h:450-462 | Finds the lowest taken slot with the element iff the list contains it |
| PreAllocatedLists.BiListPreAlloc.Remove | FW/src/lp/common/utilities/list.h:464-501 | Deletes the occurrence in the lowest such slot, keeps the order of the rest, frees that slot; fails without change iff the element is absent |
| PreAllocatedLists.FullChain | FW/src/lp/common/utilities/list.h:322-349 | A chain through every slot has exactly as many nodes as there are slots, so "no free bit" is "list full" |
| PreAllocatedLists.RemovedMembers | FW/src/lp/common/utilities/list.h:494-495 | After a removal exactly the removed slot left the chain |
| FmtModulesLists.BiList.PushBack | FW/src/lp/common/utilities/list.h:239-256 | Appends the node; no other node outside the list changes; the head itself is not refused, the list then ends at it |
| FmtModulesLists.BiList.Reset | FW/src/lp/common/utilities/list.h:266-285 | Clears exactly the nodes of the list |
| FmtModulesLists.ListsAreDisjoint | FW/src/lp/common/utilities/fast_mode_task_modules_list.h:134-136 | Lists of different pins share no node |
| FmtModulesLists.OccupiedSlots | FW/src/lp/common/utilities/fast_mode_task_modules_list.h:110-136 | A pool slot holds a module iff it is a non-head node of some pin list |
| FmtModulesLists.SlotAppended | FW/src/lp/common/utilities/fast_mode_task_modules_list.h:57-66 | Appending a free slot for a module without one keeps the pool consistent: no module in two slots, no slot in two lists |
| FmtModulesLists.ListCleared | FW/src/lp/common/utilities/fast_mode_task_modules_list.h:75-80 | Clearing a pin keeps the pool consistent and frees exactly the slots it owned |
| FmtModulesLists.FastModeTaskModulesList.AllocFmtModuleListItem | FW/src/lp/common/utilities/fast_mode_task_modules_list.h:110-132 | Refuses a module that has a slot, fails iff the pool is full, otherwise fills the lowest free slot and nothing else |
| FmtModulesLists.FastModeTaskModulesList.PrepareFmtModulesList | FW/src/lp/common/utilities/fast_mode_task_modules_list.h:27-72 | On a cleared pin: lists the module itself and a prefix of the requested modules; says which error stopped it and where; other pins keep their lists; an empty configuration leaves any pin alone |
| FmtModulesLists.RelistingLosesSlots | FW/src/lp/common/utilities/fast_mode_task_modules_list.h:41-46 | On a pin that was not cleared, pushing its head again cuts the list off behind the head: its slots stay taken and no list reaches them |
| FmtModulesLists.FastModeTaskModulesList.ClearFmtModulesList | FW/src/lp/common/utilities/fast_mode_task_modules_list.h:75-80 | Frees exactly the slots of the pin; other pins keep their lists |
| FmtModulesLists.FastModeTaskModulesList.LastListModule | FW/src/lp/common/utilities/fast_mode_task_modules_list.h:89-100 | The last module of the list, NULL iff the list is empty |
| BufferProviders.BufferProvider.GetBuffer | FW/src/lp/common/utilities/buffer_provider.h:40-87 | For every size: the lowest address at which a buffer fits between those of earlier and later slots and has an empty slot there, entered in the first such slot; NULL iff there is none; address order, disjointness and arena survive iff the size is not negative, and no buffer is empty iff it is not 0 |
| BufferProviders.BufferProvider.ReleaseBuffer | FW/src/lp/common/utilities/buffer_provider.h:89-105 | Empties the slot of that pointer and no other, keeps the order |
| BufferProviders.FitsIffRoom | FW/src/lp/common/utilities/buffer_provider.h:44-83 | Comparing a gap with the size decides whether any address has room, and the start of the gap is then the lowest |
| BufferProviders.FirstFitIsLowest | FW/src/lp/common/utilities/buffer_provider.h:44-83 | The first slot whose gap fits gives the lowest address with room anywhere |
| BufferProviders.HireKeepsOrderIff | FW/src/lp/common/utilities/buffer_provider.h:44-83 | Hiring a fitting gap keeps hired buffers disjoint, inside the arena and in address order by slot index iff the size is not negative |
| BufferProviders.StartIsMonotonic | FW/src/lp/common/utilities/buffer_provider.h:46-75 | Later slots stand for later gaps, so first fit by slot is lowest fit by address |
| BufferProviders.SameGap | FW/src/lp/common/utilities/buffer_provider.h:46-75 | All empty slots of a run measure one and the same gap |
| BufferProviders.ReleaseKeepsOrder | FW/src/lp/common/utilities/buffer_provider.h:89-105 | Releasing any address keeps order and all other slots |
| BufferProviders.ReleaseUndoesHireIff | FW/src/lp/common/utilities/buffer_provider.h:40-105 | Releasing what was just hired restores the table iff no earlier slot holds the same address, which only an empty buffer can |
| BufferProviders.PointersDiffer | FW/src/lp/common/utilities/buffer_provider.h:40-87 | Without empty buffers all hired addresses differ |
| BufferProviders.EmptyBufferSharesPointer | FW/src/lp/common/utilities/buffer_provider.h:40-105 | What size 0 loses: the next buffer gets the same address, and releasing it empties the wrong slot |
| BufferProviders.NegativeSizeExample | FW/src/lp/common/utilities/buffer_provider.h:40-87 | A fresh provider grants size -1 and its table is out of order |
| SimpleQueues.SimpleQueue.QueueInit | FW/src/lp/common/utilities/queue.cc:9-15 | Empty queue, all cells NULL |
| SimpleQueues.SimpleQueue.Push | FW/src/lp/common/utilities/queue.cc:17-25 | Appends, or refuses without change iff full |
| SimpleQueues.SimpleQueue.Pop | FW/src/lp/common/utilities/queue.cc:27-37 | Removes and returns the oldest pointer and clears its cell; refuses without change iff empty |
| SimpleQueues.SimpleQueue.Peek | FW/src/lp/common/utilities/queue.cc:39-45 | Returns the oldest pointer; error cases exact |
| SimpleQueues.SimpleQueue.Remove | FW/src/lp/common/utilities/queue.cc:47-77 | Deletes exactly the first occurrence, across the wrap, iff the element is present and the queue is not full or is left with nothing but a NULL at its front; otherwise says what is lost instead |
| SimpleQueues.Finished | FW/src/lp/common/utilities/queue.cc:52-76 | What the shifting loop and the final clearing leave, with both failing families |
| SimpleQueues.RemovableWithoutNulls | FW/src/lp/common/utilities/queue.cc:47-77 | Without NULL pointers the condition is: present, and not full or of one cell |
| SimpleQueues.RemoveAbsentExample | FW/src/lp/common/utilities/queue.cc:47-77 | Removing 9 from 1, 2 leaves 1 |
| SimpleQueues.RemoveFullExample | FW/src/lp/common/utilities/queue.cc:47-77 | Removing 2 from a full 1, 2, 3 leaves NULL, 3 |
| SimpleQueues.Advanced | FW/src/lp/common/utilities/queue.cc:32-34 | Clearing the front cell and moving on drops the front element only, across the wrap |
| CppSimpleQueues.CppSimpleQueue.GetFreeElement | FW/src/lp/common/utilities/cpp_simple_queue.h:27-42 | The storage handed out is no queued element and none handed out before, also after the forced eviction, which drops exactly the oldest, iff the pool is not exhausted; otherwise it is the oldest queued element, or the first handed out; NULL iff full and not forced |
| CppSimpleQueues.CppSimpleQueue.QPush | FW/src/lp/common/utilities/cpp_simple_queue.h:24-24 | Any pointer is appended or refused iff full; cell i stays on pool element i iff the pointer is the element handed out first |
| CppSimpleQueues.PushedInStep | FW/src/lp/common/utilities/cpp_simple_queue.h:24-42 | After a push, queue, elements handed out and next free element agree iff the element was the one handed out first (or the pool has one element) |
| CppSimpleQueues.CppSimpleQueue.QPop | FW/src/lp/common/utilities/cpp_simple_queue.h:25-25 | Pops the oldest element and leaves the elements handed out alone |
| CppSimpleQueues.CppSimpleQueue.QueuedAreDistinct | FW/src/lp/common/utilities/cpp_simple_queue.h:24-48 | No two queued pointers share storage |
| RtCircularBuffers.RtCircularBuffer.PushDataFromCb | FW/src/lp/common/utilities/simple_circular_buffer.cc:76-125 | Appends the whole circularly addressed chunk wherever source and destination wrap, or changes nothing iff it does not fit; no byte outside the buffer changes |
| RtCircularBuffers.RtCircularBuffer.ReadData | FW/src/lp/common/utilities/simple_circular_buffer.cc:127-149 | Removes the oldest bytes and copies the whole words among them out, so sizes that are no word multiple lose up to three bytes; both errors exact; addressing registers restored |
| RtCircularBuffers.RtCircularBuffer.ReadPtr | FW/src/lp/common/utilities/simple_circular_buffer.h:63-73 | The derived pointer is the place of the oldest byte, by its distance to the write pointer |
| RtCircularBuffers.RtCircularBuffer.OldestAtReadPtr | FW/src/lp/common/utilities/simple_circular_buffer.h:63-73 | The byte it addresses is the front of the queue |
| RtCircularBuffers.RtCircularBuffer.Init | FW/src/lp/common/utilities/simple_circular_buffer.h:26-33 | The buffer starts valid and empty iff the amount was already 0 and there is a cell: Init does not reset the amount |
| RtCircularBuffers.InitExample | FW/src/lp/common/utilities/simple_circular_buffer.h:26-33 | A read right after Init is refused for a new object and granted for one that had four bytes in it |
| RtCircularBuffers.Appended | FW/src/lp/common/utilities/simple_circular_buffer.cc:85-117 | Overwriting the free cells behind the queue in ring order appends to the queue |
| RtCircularBuffers.PushedWrapped | FW/src/lp/common/utilities/simple_circular_buffer.cc:90-110 | The two linear copies of a wrapping push append the whole chunk |
| RtCircularBuffers.CircularSplit | FW/src/lp/common/utilities/simple_circular_buffer.cc:95-108 | The second part of a chunk starts where the code says on either side of the source wrap |
| RtCircularBuffers.Extracted | FW/src/lp/common/utilities/simple_circular_buffer.cc:135-146 | The circular read from read_ptr is the queue prefix and leaves the rest |
| Tlvs.TlvIterator.Build | FW/src/lp/common/utilities/tlv.h:135-168 | Laying a list out with InitTlv and ++ writes its layout, touches nothing else and ends at size 0 |
| Tlvs.TlvIterator.ReadAll | FW/src/lp/common/utilities/tlv.h:92-168 | while (IsValid()) ++ visits the structures in order and ends at size 0 with cursor + size constant: reading inverts building |
| Tlvs.TlvIterator.ValidIffMore | FW/src/lp/common/utilities/tlv.h:92-95 | On a layout the iterator is valid iff structures remain |
| Tlvs.TlvIterator.Next | FW/src/lp/common/utilities/tlv.h:162-168 | For all lengths, in 32-bit arithmetic; below the sign bit size strictly decreases, and cursor + size is constant iff the length is a multiple of 4 |
| Tlvs.TlvIterator.InitTlvAndGetValueAsPtr | FW/src/lp/common/utilities/tlv.h:113-140 | Writes the header; the pointer is NULL iff the type is larger than the value |
| Tlvs.AcceptsMeansFits | FW/src/lp/common/utilities/tlv.h:92-95 | The validity check means "non-empty and fits" for lengths below the sign bit; beyond, exactly which misfits it accepts |
| Tlvs.ReducedShrinksIff | FW/src/lp/common/utilities/tlv.h:162-168 | The remaining size shrinks iff the 32-bit size of the structure is not 0 and the difference does not wrap |
| Tlvs.MisfitExample | FW/src/lp/common/utilities/tlv.h:92-95 | A length of 2^32 - 8 is accepted with 12 bytes left |
| Tlvs.EncodeAppend | FW/src/lp/common/utilities/tlv.h:43-51 | The layout of a longer list is the layout of the shorter one followed by the last structure |
| Tlvs.FirstWords | FW/src/lp/common/utilities/tlv.h:43-51 | A layout starts with its first structure and continues with the layout of the rest |
| Crc.CalculateCRC | FW/src/lp/common/utilities/crc.c:29-42 | The byte-wise table loop computes the remainder of bit-serial, most-significant-bit-first division by x^8+x^6+x^3+x^2+1 from initial value 0xFF |
| Crc.LookupDividesByte | FW/src/lp/common/utilities/crc.c:36-40 | One table lookup equals eight division steps |
| Crc.TableDivides | FW/src/lp/common/utilities/crc.c:9-27 | Entry i of the table is i * x^8 modulo the divisor, for all 256 entries |
| Crc.AddByteFirst | FW/src/lp/common/utilities/crc.c:38-39 | Dividing eight bits equals adding them to the remainder first and multiplying by x^8 |
| Crc.RemainderSum | FW/src/lp/common/utilities/crc.c:29-42 | Division is linear over whole messages |
| Crc.SameChecksumIff | FW/src/lp/common/utilities/crc.c:29-42 | Two messages of one length have equal checksums iff the divisor divides their difference |
| Crc.BurstsAreDetected | FW/src/lp/common/utilities/crc.c:29-42 | Messages of one length that differ within 8 consecutive bits, also across a byte boundary, always get different checksums |
| Crc.NineBitsCanHide | FW/src/lp/common/utilities/crc.c:29-42 | 8 is the most: two messages that differ in a 9-bit burst and collide |
| ThreadLocks.RunIsExclusive | FW/src/lp/common/utilities/thread_lock.cc:28-86 | In every run of any number of preempting threads no check fails, at most one thread has live guards, reference_counter_ is their number, and it is 0 iff the marker is stored |
| ThreadLocks.NextKeepsInvIff | FW/src/lp/common/utilities/thread_lock.cc:32-86 | A step keeps the invariant iff it does not overflow the 32-bit counter |
| ThreadLocks.MutualExclusion | FW/src/lp/common/utilities/thread_lock.cc:32-86 | Two threads with live guards are one thread, the recorded owner |
| ThreadLocks.OwnerKeepsLock | FW/src/lp/common/utilities/thread_lock.cc:41-47 | The owner is never refused, re-enters at once, and no other thread's step changes the lock |
| ThreadLocks.TryDecides | FW/src/lp/common/utilities/thread_lock.cc:38-61 | In every reachable world a turn in the loop gets the free lock with one guard, and is refused iff another thread has a guard |
| ThreadLocks.DestroyDropsOne | FW/src/lp/common/utilities/thread_lock.cc:74-86 | A destructor takes exactly one guard of its own thread away and touches no other thread |
| ThreadLocks.WakesIffFree | FW/src/lp/common/utilities/thread_lock.cc:62-70 | A blocked thread may resume iff no thread has a guard |
| ThreadLocks.LastGuardWakes | FW/src/lp/common/utilities/thread_lock.cc:74-86 | A destructor lets blocked threads resume iff it destroys the last guard |
| ThreadLocks.NoDeadlock | FW/src/lp/common/utilities/thread_lock.cc:32-86 | While any thread waits, it or the owner can take a step |
| ThreadLocks.ThreadSafe.TryEnter | FW/src/lp/common/utilities/thread_lock.cc:38-61 | In place: goes round again iff another thread owns the lock, which then is unchanged; otherwise the thread owns it, with one guard more |
| ThreadLocks.ThreadSafe.Leave | FW/src/lp/common/utilities/thread_lock.cc:76-85 | In place: one guard less; the marker returns exactly with the last one |

## Left out

- Interrupt levels and critical-section brackets are taken as atomic regions; that an early return of ReadCommit leaves the interrupt level raised (FW/src/lp/common/utilities/circular_buffer_template.h:652-657) is not modelled.
- `CircularBuffer::ReConstruct`, the constructor that takes a read position and an amount, debug counters and the address getters: field initialisation only.
- Rings of more than half the 32-bit range: the size arithmetic of the code is modelled on 32-bit words and the invariant demands 2 * size < 2^32.
- Commits, Displace and InsertData take 32-bit sizes; the sums in the copying branch of Unwind are taken without overflow, which only concerns requests that break the invariant anyway.
- RingRuns.RunsAreFifo: calls outside the regime are left out of a run rather than followed; RingRegime.RegimeIsExact says that they would break the invariant.
- SharedProofs.LoadsAreCurrent: safety. Progress of a waiting writer is not claimed, because SharedProgress.StuckUntilEviction shows that there need not be any; fairness of the spinlock is left out.
- `Shared` with deferred dirty marking: the overloads with `defer_dirty` are private and only called with false.
- `Shared` and `SharedRW`: the spinlock is atomic and kept apart from the cached control block, one agent runs per core, write-back and invalidation of a region are one step, the mask of two cores is generalised to any number, and release is called with the kind that was acquired. `invalidate()` and `write_back()` as free-standing calls and the constructor's alignment checks are not modelled.
- `SharedRW` deadlock telemetry and the saved stack register.
- Bitmap and Array are not part of the modelled files: Bitmap gets a first-free implementation with the contract "some free slot, none iff all are taken", Array is an address range.
- PreAllocatedLists.BiListPreAlloc.Remove: with duplicates it removes the element in the lowest slot, which need not be the first in list order; that is what is stated.
- PreAllocatedLists.BiListPreAlloc.PutAfter: a NULL position is required to come with an empty list, as the source asserts; the same for PutBefore.
- FmtModulesLists.FastModeTaskModulesList.PrepareFmtModulesList: a non-empty configuration is stated for a cleared pin, otherwise RelistingLosesSlots says what its first step loses; the lookup of module instances is the parameter `config`, NULL for modules that do not exist; that a list is a `BiList` is inferred from its use.
- BufferProviders.BufferProvider.ReleaseBuffer: the source reads one slot past the table before it notices that the index ran out; the model stops in front of it.
- BufferProviders.BufferProvider.GetBuffer: the arena lies below 2^32 and is smaller than 2^31, so that pointer differences fit the signed comparison.
- ByteArrays.ByteArraySized.FillInCir: the local array is not the memory of the ring.
- RtCircularBuffers.RtCircularBuffer.CopyFromCb: the instructions of the HiFi copy primitive are not part of this model; it is taken to copy the whole words among at least four bytes from a circular source to a linear destination apart from it. Below four bytes its counter can run below 0.
- RtCircularBuffers.RtCircularBuffer.PushDataFromCb: positive word-multiple sizes, a buffer of whole words, and separate regions; null checks are left out.
- RtCircularBuffers.RtCircularBuffer.ReadData: at least four bytes, and a destination apart from the buffer, as the copy primitive needs.
- Tlvs.TlvIterator.Build: values are sequences of whole words and at least one word long; InitTlv is modelled for any number of words.
- Crc.CalculateCRC: messages shorter than 256 bytes, as the source asserts; null pointers are left out.
- ThreadLocks.RunIsExclusive: fewer than 2^32 live guards of one thread. BlockCurrentThreadedTask is not part of this model; a blocked thread is taken to resume only while the watched word holds the marker. All contexts without a thread object count as one thread, as in the source. The interrupt-level check before blocking is left out.
- Sliding-window `Queue<T,N>`, `List` of list_template.h, `UniList`, `SlotArray`, `SharedConfig`, `SimpleMemAlloc`, timers, callbacks, `AllocQueue`, converters, the obfuscator and the IMR gate: easy, repetitive, or dependent on code that is not available.
