# A model of the libfabric "dpa" provider

The dpa provider implements the libfabric interface on top of the DPA
library. DPA is a remote-memory interconnect: a node exports memory
segments, and other nodes map those segments and write into them
directly. This project models the provider's core in Dafny and proves
properties of that model:

- **Messaging.** Every message endpoint owns a ring buffer in a segment
  of the receiving node. The sender writes a size header and the payload
  into the ring. The receiver reads a frame, clears it, and publishes its
  read cursor back to the sender.
  - The model covers the send and receive request queues with their free
    entries, progress, and completions.
  - Modules: `Ring`, `RingHazards`, `Msg`, `Circular`, `Bytes`, `Lists`,
    and `SLinks` for the slist pointers.
- **Connection management.** A listener publishes a control segment. The
  two sides exchange buffer metadata through slots in that segment, and
  then link to each other's ring.
  - The model covers the data-segment pool, buffer allocation with its
    cleanup, the slot table, connect, accept, disconnect and the
    event-queue progress function.
  - Modules: `MsgCm`, `Cm`.
- **RMA.** Reads and writes go through a one-entry cache of the remote
  segment last mapped. Immediate data is sent as a remote interrupt
  (module `Rma`).
- **Completion objects.**
  - Completion queues (`Cq`).
  - Event queues (`Eq`).
  - Counters (`Cntr`).
- **Address vector, memory registration and lookup structures.**
  - Address vector (`Av`), with its growable array (`GrowArray`).
  - Memory registration (`Mr`), kept in the provider's hash map (`Hash`).
- **Resource negotiation.**
  - `fi_getinfo` and its validators (`Info`).
  - Domain attribute selection (`Domain`).
  - Endpoint open, bind and getname (`Ep`).
  - The environment overrides of the provider's constants (`Env`).
- **Shared vocabulary.** The libfabric types, flags and errors used
  everywhere are in `Fabric`.

Everything is immutable data and pure functions. Pointers are modelled
as indices or as `Option`. A NULL dereference, or a loop that the
supplied inputs cannot end, is `None`.

**The hardware is a parameter.** The DPA library is not part of this
model. Each library call's answer is an input to the model:

- a `HwError` value (success, segment id in use, timeout, system error,
  or another code);
- or a sequence of such answers, for the events a wait observes.

Several functions exist in two versions:

- **`…AsWritten`** keeps the code's behaviour as written, defect
  included, at the level the defect shows: the event queue's reads on
  the list pointers (`SLinks`), the send on the ring as written, the
  counter's two field pairs.
- **The corrected version** is what the rest of the model uses.

A lemma relates each pair; see "## Findings".

## Model

| member | source | states |
|---|---|---|
| Lists.SInsertHead | src/list.h:196-209 | the item becomes the head, ahead of the old entries in order; into an empty list it is also the tail |
| Lists.SInsertTail | src/list.h:211-222 | the item becomes the tail, after the old entries in order; into an empty list it is also the head |
| Lists.SRemoveHead | src/list.h:224-239 | returns the old head (NULL on an empty list) and leaves the rest of the entries in order |
| Lists.RemoveHeadInsertHead | src/list.h:196-239 | removing the head undoes inserting a head |
| Lists.RemoveFirstMatchSpec | src/list.h:243-267 | remove_first_match unlinks exactly the first matching entry and keeps the others in order, or changes nothing when none matches |
| Lists.RemoveFirstMatchTail | src/list.h:243-267 | the tail pointer after remove_first_match moves only when the last entry was unlinked |
| Lists.InsertTailDrainsLast | src/list.h:211-239 | an entry inserted at the tail is removed only after every entry queued before it (FIFO) |
| Lists.DInsertAfter | src/list.h:93-103 | dlist_insert_after places the item immediately after the given entry |
| Lists.InsertAfterLinks | src/list.h:93-99 | after insert_after, the four pointers link the item between the entry and its old successor |
| Lists.DInsertBefore | src/list.h:105-111 | dlist_insert_before places the item immediately before the given entry |
| Lists.InsertHeadTail | src/list.h:113-114 | dlist_insert_head and dlist_insert_tail put the item first and last |
| Lists.DRemove | src/list.h:116-123 | dlist_remove drops exactly the entry and keeps the order of the rest |
| Lists.RemoveRelinks | src/list.h:116-119 | after a remove, the entry's old neighbours point at each other |
| Lists.RemoveInsertAfter | src/list.h:93-123 | removing what was just inserted restores the list |
| Lists.DRemoveFirstMatch | src/list.h:127-147 | the entry at the least matching index is unlinked and returned and the rest keep their order; with no match the result is NULL and nothing changes |
| Lists.DRemoveFrom | src/list.h:132-139 | the walk from a given entry on unlinks the first match at or after it, or returns NULL and changes nothing |
| Lists.RemoveFirstMatchAgree | src/list.h:127-147 | the doubly linked and singly linked remove_first_match unlink the same entry |
| Lists.DEmptyIff | src/list.h:88-91 | a list is empty exactly when the sentinel links to itself |
| SLinks.InsertTail | src/list.h:211-222 | the item becomes the tail with a NULL next pointer, and every pointer stays in range |
| SLinks.RemoveHead | src/list.h:224-239 | faults exactly when the head is NULL and the tail is not; otherwise returns the head |
| SLinks.RemoveHeadChain | src/list.h:224-239 | on a consistent list, removal returns the first entry and the pointers link the rest |
| SLinks.InsertTailChain | src/list.h:211-222 | on a consistent list, an entry not on it is linked last, and no next pointer changes but the old tail's and the entry's |
| SLinks.CutLinksNothing | src/list.h:211-233 | a head with a NULL next pointer that is not the tail links no sequence of entries |
| Bytes.DecodeEncode | src/dpa_msg.c:363 | an integer stored as bytes reads back as itself |
| Bytes.DecodeZeroIff | src/dpa_msg.c:278-279 | a stored header reads as zero exactly when all its bytes are zero |
| Ring.NewOffset | src/dpa_msg.c:230-234 | the cursor after a frame: the old cursor plus the frame's length, wrapped at 2^64 as a size_t sum, then taken modulo twice the ring size; without wrap-around, simply that sum modulo twice the ring size |
| Ring.NewOffsetStep | src/dpa_msg.c:230-234 | the buffer position after a frame is the frame's length past the old position |
| Ring.RemoteSpaceIsFree | src/dpa_msg.c:370-381 | the sender's credit is exactly the part of the ring not pending, whenever at most the ring size is pending |
| Ring.WriteStores | src/dpa_msg.c:336-368 | write_msg's stores: the payload after the header position, wrapping at the top, then the size header last |
| Ring.TrySend | src/dpa_msg.c:383-407 | try_send as written sends exactly when the frame fits the credit, moving the write cursor past it; otherwise EAGAIN with nothing changed |
| Ring.ReadMsg | src/dpa_msg.c:236-274 | read_msg returns min(buffer, frame) bytes and the frame's size, and advances and publishes the read cursor past the whole frame by new_offset, size_t wrap-around included |
| Ring.TryRecv | src/dpa_msg.c:276-280 | a zero header means nothing has arrived |
| Ring.TrySendFixed | src/dpa_msg.c:383-407 | the corrected send refuses empty payloads and wraps the header as well as the payload |
| Ring.TryRecvFixed | src/dpa_msg.c:236-280 | the corrected receive reads a wrapped header and clears the whole frame |
| Ring.EmptyRingValid | src/dpa_msg_cm.c:151-157 | a freshly reserved ring (zeroed, cursors 0) holds no frames |
| Ring.SendValid | src/dpa_msg.c:336-368 | a send of a frame that fits keeps the ring's invariant, with the frame appended |
| Ring.SendAppendsFrame | src/dpa_msg.c:383-407 | a send appends exactly one frame exactly when it fits in the free space; otherwise nothing changes |
| Ring.RecvValid | src/dpa_msg.c:236-274 | receiving the oldest frame keeps the invariant, with that frame gone |
| Ring.RecvPopsFrame | src/dpa_msg.c:236-307 | a receive takes the oldest frame, returning its first min(len, size) bytes and its full size; with none in flight it reports nothing |
| Ring.WriteAgrees | src/dpa_msg.c:336-368 | wherever the header fits, write_msg as written leaves the area as the corrected send does |
| Ring.RecvAgrees | src/dpa_msg.c:236-274 | wherever the header fits and the buffer takes the whole frame, read_msg as written equals the corrected receive |
| Ring.SendAgrees | src/dpa_msg.c:383-407 | wherever the header fits and the payload is not empty, try_send as written equals the corrected send |
| RingHazards.HugeHeaderWrapsCursor | src/dpa_msg.c:230-274 | a size word of 2^64 - 1 read with a 0-byte buffer moves the read cursor to 7, because the size_t sum wraps; the unwrapped sum would give 4103 |
| RingHazards.HeaderStraddles | src/dpa_msg.c:336-363 | with the default buffer size, a 65516-byte message leaves the next header 4 bytes below the top, and write_msg stores it past the area |
| RingHazards.SendBelowTop | src/dpa_msg.c:336-368 | a send whose payload stays below the top stores the payload after the header, then the header |
| RingHazards.RecvBelowTop | src/dpa_msg.c:236-274 | a receive that stays below the top clears the header and the bytes copied |
| RingHazards.ZeroHeaderStalls | src/dpa_msg.c:276-279 | after an empty send, the header at the receiver's cursor reads 0 |
| RingHazards.EmptySendStalls | src/dpa_msg.c:383-393 | an empty payload passes the space test and writes a zero header, so the receiver never gets past it, even after a real message |
| RingHazards.TruncationLeavesStale | src/dpa_msg.c:255-265 | a receive into a short buffer leaves payload bytes behind while the cursors become equal |
| RingHazards.PhantomHeader | src/dpa_msg.c:276-279 | the stale bytes, once the cursors come round to them, read as a nonzero header |
| RingHazards.StaleBytesReadAsFrame | src/dpa_msg.c:276-307 | the receiver takes stale bytes for a frame nobody sent, although both cursors are equal |
| Msg.CreateEntries | src/dpa_msg.h:78-85 | a batch puts its entries in front of the old free list, the last one created first |
| Msg.AddBatch | src/dpa_msg.c:40-46 | refilling one side's free list adds one batch of fresh entries |
| Msg.AddBatchConserves | src/dpa_msg.c:40-46 | after a refill, every entry is still on exactly one list |
| Msg.Enqueue | src/dpa_msg.c:56-62 | the request takes the head of the free list and is appended at the tail of the queue |
| Msg.EnqueueConserves | src/dpa_msg.c:56-62 | enqueueing keeps every entry on exactly one list |
| Msg.Retire | src/dpa_msg.c:326-329 | a finished request's entry moves from the head of its queue to the head of the free list |
| Msg.RetireConserves | src/dpa_msg.c:425-428 | retiring keeps every entry on exactly one list |
| Msg.SendCompletion | src/dpa_msg.c:394-405 | the send completion carries the context and FI_MSG, FI_SEND, and reports success |
| Msg.RecvCompletion | src/dpa_msg.c:284-305 | the receive completion is ETOOSMALL exactly when the buffer was short, with olen the bytes that did not fit |
| Msg.TrySendReq | src/dpa_msg.c:383-407 | EAGAIN with nothing changed when there is no room; an empty payload is EINVAL with nothing changed, although libfabric allows zero-length sends; otherwise one frame written by the corrected ring, one completion and one count |
| Msg.TrySendReqAsWritten | src/dpa_msg.c:383-407 | as written: EAGAIN with nothing changed exactly when the frame does not fit; otherwise the ring as written takes the frame, an empty one included, and one completion is posted and counted |
| Msg.TryRecvReq | src/dpa_msg.c:276-307 | EAGAIN with nothing changed on a zero header; otherwise the frame is consumed, min(len, size) bytes reach the buffer, and a completion is posted and counted |
| Msg.Send | src/dpa_msg.c:125-148 | an empty payload is EINVAL with nothing changed, although libfabric allows zero-length sends; otherwise the send goes straight to the ring only when no send is pending and the endpoint is connected, and else queues behind the pending ones |
| Msg.SendAsWritten | src/dpa_msg.c:125-148 | as written, the first send attempt is made whenever nothing is pending, connected or not. It faults exactly when remote_status is still NULL, or when an endpoint that is no longer connected passes the stale space test. With only the local status word set, the credit is 0 and the send is queued. Connected and idle, it goes through try_send as written, and a send with no room is queued |
| Msg.SendBeforeConnect | src/dpa_msg.c:139-140 | as written, a send on an endpoint that never started connecting (remote_status NULL) faults; corrected, it is queued |
| Msg.SendAfterFailedConnect | src/dpa_msg_cm.c:153-157 | after a connect that failed once alloc_msg_buffer had pointed remote_status at the local status word, the credit is 0, and the as-written send queues, as the corrected one does |
| Msg.SendAfterShutdown | src/dpa_msg_cm.c:316-340 | after disconnect_msg, which clears neither the cursors nor remote_status, a send that passes the stale space test faults as written; otherwise it is queued, as the corrected send queues it |
| Msg.EmptySendCompletes | src/dpa_msg.c:383-407 | as written, an empty send on a connected idle endpoint writes a zero-header frame, moves the write cursor and completes; the corrected send refuses it with EINVAL and changes nothing |
| Msg.SendAgreesWhenConnected | src/dpa_msg.c:125-148 | wherever the as-written send does not fault, it agrees with the corrected one on non-empty payloads |
| Msg.Recv | src/dpa_msg.c:66-91 | a receive is tried at once only when none is pending and the endpoint is connected; otherwise it queues; it always succeeds |
| Msg.MsgBuffer | src/dpa_msg.c:111-120 | a NULL message, a NULL iovec array with a count, or more than one iovec is EINVAL; no iovec gives the empty buffer |
| Msg.SendMsg | src/dpa_msg.c:168-180 | sendmsg checks the message, then sends its one buffer |
| Msg.RecvMsg | src/dpa_msg.c:111-123 | recvmsg checks the message, then posts its one buffer with the flags given |
| Msg.ProcessSend | src/dpa_msg.c:410-432 | nothing happens before the endpoint is connected |
| Msg.ProcessRecv | src/dpa_msg.c:309-334 | nothing happens before the endpoint is connected |
| Msg.SendLoopSpec | src/dpa_msg.c:410-432 | the first k pending sends go out in order as frames, each with its completion in order; it stops early only at a send that does not fit |
| Msg.RecvLoopSpec | src/dpa_msg.c:309-334 | the i-th pending receive takes the i-th frame in flight, with a completion carrying min(len, size) bytes; untaken frames stay in flight |
| Msg.ProgressStep | src/dpa_msg.c:434-448 | a zero budget polls; a wait ended by an interrupt hands the budget back unchanged, never more; a timed-out wait leaves no budget; a failed wait returns 0 without processing |
| Msg.ProgressBoth | src/dpa_msg.c:434-461 | the send queue is processed unless its wait failed; the receive queue waits only after a send-side interrupt, so a zero timeout or a send-side timeout or failure leaves it polling; the budget comes back whole (infinite for a negative timeout) only when both waits ended with an interrupt, else 0 |
| Msg.ProgressSendRecv | src/dpa_msg.c:450-461 | each queue is processed unless its wait failed |
| Msg.ProgressPollsBoth | src/dpa_msg.c:458-461 | with a zero timeout both queues are processed, the send queue first |
| Msg.ChannelsIndependent | src/dpa_msg.h:66-72 | the two directions of a connection share no state |
| Msg.LinkSend | src/dpa_msg.c:125-148 | a send changes only its own outgoing channel and its own endpoint |
| Msg.LinkProcessRecv | src/dpa_msg.c:309-334 | processing receives changes only the incoming channel and the endpoint's own state |
| Msg.LinkSendDelivers | src/dpa_msg.c:139-140 | a send on an idle, connected endpoint whose frame fits goes straight into the channel |
| Msg.LinkRecvTakes | src/dpa_msg.c:322-330 | with one receive pending and frame f first in flight, the receive completes with f and the other frames stay |
| Msg.RoundTrip | src/dpa_msg.c:125-334 | end to end, the receiver's completion carries the first min(len, size) bytes of the payload sent, olen the rest, and the channel is idle again |
| Cq.FormatSizes | src/dpa_cq.c:74-91 | each completion format shows a longer prefix of the record than the one before; unspecified reads as a message entry |
| Cq.Open | src/dpa_cq.c:95-147 | a missing attribute or an unsupported wait object is ENODATA; a failed allocation of a free record is ENOMEM, which needs size > 0; otherwise size free records and nothing queued |
| Cq.Add | src/dpa_cq.c:192-206 | the completion is appended to the error queue when err is set, else to the event queue, in a free or new record |
| Cq.AddConserves | src/dpa_cq.c:192-206 | every record stays on exactly one list |
| Cq.AddAllRoutes | src/dpa_cq.c:192-206 | completions added in order are queued in order, split by outcome |
| Cq.ReadPriv | src/dpa_cq.c:208-231 | removes up to count records from the head, copying them out oldest first and freeing them; EAGAIN when none was removed |
| Cq.ReadErr | src/dpa_cq.c:241-245 | readerr reads at most one completion, and only from the error queue |
| Cq.SReadFrom | src/dpa_cq.c:251-268 | progress, one drain, and, when that found nothing and the timeout is nonzero, one wait; what arrives then stays queued for the next read |
| Cq.ReadFrom | src/dpa_cq.c:237-239 | a read that does not wait is one drain after immediate progress |
| Cq.WaitData | src/dpa_cq.c:279-308 | EINVAL for a NULL pointer or an id that does not fit; EOTHER for hardware failure; otherwise the queue waits on the created interrupt |
| Cq.InterruptSilencesSignal | src/dpa_cq.c:186-190 | once a queue waits on an interrupt, adding a completion no longer signals the condition |
| Cq.AddThenRead | src/dpa_cq.c:192-231 | completions come back out of reads in the order they were added |
| Cntr.ModeFor | src/dpa_cntr.c:101-109 | the plain operation table exactly from FI_THREAD_COMPLETION up |
| Cntr.AtomicBelowCompletion | src/dpa_cntr.c:101-109 | the levels below FI_THREAD_COMPLETION get the atomic table |
| Cntr.OpenAsWritten | src/dpa_cntr.c:87-110 | EINVAL exactly for an unsupported wait object; otherwise a counter with the table the threading level picks, zero counts and the increment hooks unset is built, but never stored in *cntr, and no value is returned |
| Cntr.Open | src/dpa_cntr.c:87-110 | corrected: EINVAL in the same cases; otherwise the counter is returned, hooked, reading 0 successes and 0 errors in the table the threading level picks |
| Cntr.Read | src/dpa_cntr.c:116-140 | the atomic table returns its 32-bit count as a uint64_t: a non-negative count reads as itself, a negative one as itself plus 2^64 |
| Cntr.ReadErr | src/dpa_cntr.c:121-145 | the error count, sign-extended in the same way by the atomic table |
| Cntr.Add | src/dpa_cntr.c:126-149 | the plain table adds modulo 2^64; the atomic table adds as a 32-bit int and reads back sign-extended; the error counts are untouched |
| Cntr.Set | src/dpa_cntr.c:130-153 | corrected: the success count of the counter's own table takes the value, within that table's width; the error counts are untouched |
| Cntr.SetAsWritten | src/dpa_cntr.c:130-153 | the plain table's set is the corrected one; the atomic table's set stores into the plain field, so neither count the atomic table reads changes |
| Cntr.AddSetRead | src/dpa_cntr.c:116-153 | a read after a set sees the value exactly when the table is plain or the value survives an int; a read after an add that stays inside the field sees the sum; neither changes the error count |
| Cntr.AddAdd | src/dpa_cntr.c:126-149 | adding a then b is adding a + b, in either table |
| Cntr.AtomicCountWraps | src/dpa_cntr.c:136-149 | the atomic table's count one past 2^31 - 1 reads back as 2^64 - 2^31 |
| Cntr.SetLostInAtomicTable | src/dpa_cntr.c:150-153 | with the atomic table, a value set as written is not what the next read returns; the corrected set's is |
| Cntr.Count | src/dpa_cntr.h:60-61 | a success increment is an add of 1; an error increment adds 1 to the error count within the table's width and leaves the success count |
| Cntr.Inc | src/dpa_cntr.h:73-79 | an increment through an unset hook faults; otherwise it counts |
| Cntr.OpenedCounterFaults | src/dpa_cntr.h:73-79 | a counter from the as-written open faults on its first increment; the corrected one counts |
| Cntr.WaitLoopAsWritten | src/dpa_cntr.c:159-164 | the loop as written: a negative timeout returns success at once; it stops without an answer only while the budget is positive, the count is below the threshold and the error count is unchanged; it answers only success or ETIMEDOUT; ETIMEDOUT means the plain field is below the threshold and the last budget seen was exactly 0 |
| Cntr.WaitAsWritten | src/dpa_cntr.c:156-165 | dpa_cntr_wait as written: a negative timeout is success at once; a zero timeout is ETIMEDOUT exactly when the plain field is below the threshold; any ETIMEDOUT has the plain field below the threshold and a last budget of 0 |
| Cntr.LargeErrorCountEndsWait | src/dpa_cntr.c:158-161 | a plain error count from 2^31 to 2^32 - 1 does not survive the int the wait keeps it in, so the as-written wait returns success at once below the threshold; the corrected wait does not |
| Cntr.InfiniteWaitReturnsAtOnce | src/dpa_cntr.c:156-165 | as written, a negative timeout returns success at once, whatever the count |
| Cntr.WaitTestsPlainField | src/dpa_cntr.c:156-165 | with the atomic table, when its count has reached the threshold but the plain field has not, the as-written wait returns ETIMEDOUT and the corrected one success |
| Cntr.Wait | src/dpa_cntr.c:156-165 | corrected: success only when the table's count reached the threshold or its error count moved; otherwise ETIMEDOUT with the count below the threshold |
| Cntr.WaitAgrees | src/dpa_cntr.c:156-165 | for the plain table, a non-negative timeout and an error count below 2^31, the corrected wait equals the as-written one |
| Eq.Open | src/dpa_eq.c:65-108 | a missing attribute or an unsupported wait object is ENODATA; a failed allocation is ENOMEM; otherwise size free entries |
| Eq.Take | src/dpa_eq.c:180-185 | the head of the free list or a fresh entry; only that entry changes |
| Eq.Add | src/dpa_eq.c:193-204 | stores at most the entry's capacity of the buffer and appends to the error list or the event list; signals only without a progress function |
| Eq.AddSlots | src/dpa_eq.c:193-204 | eq_add lists the taken entry once more and the rest as before |
| Eq.AddConserves | src/dpa_eq.c:193-204 | every entry stays on exactly one list |
| Eq.Write | src/dpa_eq.c:206-211 | an application-written event always goes to the event list |
| Eq.OpenRepresented | src/dpa_eq.c:65-108 | the pointers dpa_eq_open leaves link the free list of all entries in order and nothing else |
| Eq.LTake | src/dpa_eq.c:180-185 | as written on the pointers: faults exactly when the free list's head is NULL and its tail is not; otherwise the entry gets the contents and every pointer stays in range |
| Eq.LTakeAgrees | src/dpa_eq.c:180-185 | on a consistent queue, get_empty_event as written takes the entry Take takes, and the other lists and the rest of the free list stay linked without it |
| Eq.LAdd | src/dpa_eq.c:193-204 | as written on the pointers: faults exactly when taking an entry does; an event without an error leaves the error list alone |
| Eq.LAddAgrees | src/dpa_eq.c:180-204 | on a consistent queue, eq_add as written links exactly the lists the list-level Add describes |
| Eq.LDeliverAgrees | src/dpa_eq.c:193-204 | on a consistent queue, the events of a progress run added as written link exactly the lists Deliver describes |
| Eq.ReadPrivAsWritten | src/dpa_eq.c:123-141 | on the list pointers: a consumed read faults exactly when the head is NULL and the tail is not; otherwise EAGAIN exactly on a NULL head, and the other list is untouched |
| Eq.ReadPriv | src/dpa_eq.c:123-141 | the corrected read returns the consumed entry to the free list, and a peek changes nothing |
| Eq.ReadPrivConserves | src/dpa_eq.c:128-141 | the corrected read keeps every entry on exactly one list |
| Eq.ReadLeaksEntry | src/dpa_eq.c:128-141 | as written, a consumed read returns what the corrected read returns, and the pointers then link the rest of the list, with the entry on none of the three lists |
| Eq.PeekAliasesEntry | src/dpa_eq.c:128-141 | as written, a peek returns what the corrected peek returns, but the entry, still the head of its list, also ends the free list, and its one next pointer is cleared |
| Eq.PeekCutsQueue | src/dpa_eq.c:123-141 | with two or more events, after a peek the event list links no sequence; the next read returns the peeked event and leaves a NULL head with a stale tail; the read after that faults |
| Eq.PeekThenAddOverwrites | src/dpa_eq.c:128-204 | with one event and no free entry, a peek then an add store the new event over the peeked one in the same entry; one read returns the new event and the next is EAGAIN |
| Eq.Deliver | src/dpa_eq.c:193-204 | events added in a progress run, in order |
| Eq.ReadErr | src/dpa_eq.c:148-154 | one entry from the error list, at most the error entry's size; the event list is untouched |
| Eq.SReadOnce | src/dpa_eq.c:156-178 | FI_EAVAIL when an error is pending, without touching events; otherwise one read, with a second progress run when it found nothing |
| Eq.Read | src/dpa_eq.c:143-146 | read is sread without a timeout |
| Eq.AddThenRead | src/dpa_eq.c:128-204 | an event added to an idle queue is what the next read returns, cut to the reader's length |
| Eq.SReadAsWritten | src/dpa_eq.c:156-178 | as written, a positive timeout never changes, so the loop leaves only through FI_EAVAIL |
| Eq.SReadNeverReturns | src/dpa_eq.c:166-177 | without an error event, a positive-timeout sread never returns |
| Eq.SRead | src/dpa_eq.c:156-178 | the corrected sread returns FI_EAVAIL, the first event read, or FI_EAGAIN when the rounds run out |
| Eq.SReadReturnsFirstEvent | src/dpa_eq.c:156-178 | where the corrected sread returns the first event of a round, the as-written one reads the same event and bytes, drops its entry and goes on to the next round with the rest of the list |
| Eq.SReadErrorFirst | src/dpa_eq.c:156-178 | an error event makes both versions return FI_EAVAIL before reading any event, with the pointers linking the lists the corrected version holds |
| Rma.Teardown | src/dpa_rma.c:38-63 | each held resource is released once, in reverse order of acquisition (sequence, map, segment, descriptor); target, base and length are zeroed; the remote interrupt stays |
| Rma.Release | src/dpa_rma.c:38-63 | the corrected teardown also disconnects the remote interrupt |
| Rma.ConnectAsWritten | src/dpa_rma.c:65-103 | a hit returns at once; a miss tears down and maps the new segment, keeping the old interrupt |
| Rma.Connect | src/dpa_rma.c:65-103 | the corrected connect also drops the interrupt on a miss |
| Rma.ConnectsAgree | src/dpa_rma.c:65-103 | both connects leave the same handles, target and memory |
| Rma.ConnectSettles | src/dpa_rma.c:65-103 | at most one mapping is ever held, whatever the hardware answers |
| Rma.ConnectTwice | src/dpa_rma.c:67-70 | connecting again to the same target is a hit that changes nothing |
| Rma.ConnectInterrupt | src/dpa_rma.c:105-127 | a held interrupt with the same id is reused; one with another id is disconnected first |
| Rma.SignalInterrupt | src/dpa_rma.c:129-137 | data that does not fit a 32-bit id is dropped; otherwise the interrupt is connected or reused and triggered |
| Rma.SignalReachesTarget | src/dpa_rma.c:65-137 | with the corrected teardown, immediate data after a connect reaches the node just mapped |
| Rma.StaleInterrupt | src/dpa_rma.c:38-137 | as written, immediate data after a switch of node is triggered on the old node |
| Rma.AcquireTargetAsWritten | src/dpa_rma.c:139-151 | as written, a failed address lookup is ignored and an indeterminate node is mapped |
| Rma.AcquireTarget | src/dpa_rma.c:139-151 | the corrected version returns the lookup error and otherwise connects to the resolved node |
| Rma.AcquireIgnoresLookup | src/dpa_rma.c:139-151 | as written, an unresolvable address still maps a segment |
| Rma.CopyLoop | src/dpa_rma.c:194-199 | the bytes copied are the smaller of what is available and what the iovecs hold |
| Rma.AvailAsWritten | src/dpa_rma.c:192-195 | as written, an offset past the segment makes the available count wrap modulo 2^64 |
| Rma.Avail | src/dpa_rma.c:192-195 | the corrected available count is zero past the segment's end |
| Rma.CopyAsWritten | src/dpa_rma.c:192-199 | as written, the copy faults when it runs past the mapping |
| Rma.CopyPastEnd | src/dpa_rma.c:192-199 | an offset past the segment, with any byte to move, copies out of bounds |
| Rma.CopyInBounds | src/dpa_rma.c:192-199 | for offsets inside the segment the as-written copy is in bounds and equals the corrected one |
| Rma.Scatter | src/dpa_rma.c:195-199 | the bytes fill the buffers in order; the rest of each buffer is kept |
| Rma.ScatterGather | src/dpa_rma.c:195-199 | gathering the scattered buffers gives back the data read |
| Rma.ReadCompletion | src/dpa_rma.c:201-211 | a read completion is success, with the buffer only for a single iovec |
| Rma.WriteCompletion | src/dpa_rma.c:295-306 | ETOOSMALL exactly when fewer bytes than the iovecs hold were written |
| Rma.MaybeSignal | src/dpa_rma.c:216-218 | a signal is sent only with FI_REMOTE_CQ_DATA |
| Rma.ReadMsg | src/dpa_rma.c:181-220 | EINVAL for a missing message or a remote iovec count other than one; otherwise copy, complete, count and signal |
| Rma.WriteMsg | src/dpa_rma.c:272-315 | as for a read, with ETOOSMALL and the shortfall when the iovecs did not fit, and a flush unless FI_MORE |
| Rma.ReadCopies | src/dpa_rma.c:181-220 | a read copies exactly min(len - offset, iovec total) bytes, never past the segment, and they are the remote bytes at the offset |
| Rma.WriteStores | src/dpa_rma.c:272-315 | a write stores those bytes at the offset and leaves the rest of the segment alone |
| Rma.WriteFlushOrSignal | src/dpa_rma.c:310-313 | a plain write flushes and triggers nothing; a write with data triggers and does not flush |
| Rma.WriteThenRead | src/dpa_rma.c:181-315 | writing and reading the same range back returns what was written, as far as it fit |
| MsgCm.NumSegments | src/dpa_msg_cm.c:56 | the segment count is the difference of the segment ids, modulo 2^32 |
| MsgCm.Carve | src/dpa_msg_cm.c:83-98 | a new data segment's buffers are free and BUFFER_SIZE apart |
| MsgCm.CarveDisjoint | src/dpa_msg_cm.c:83-98 | carved buffers lie inside the segment and do not overlap |
| MsgCm.CreateDataSegment | src/dpa_msg_cm.c:83-98 | on failure the id resets to 0 and the current id stays; on success the buffers are carved and the id advances |
| MsgCm.EnsureCreated | src/dpa_msg_cm.c:104-106 | the retry loop ends with the segment created, or None when the attempts run out |
| MsgCm.FirstFree | src/dpa_msg_cm.c:107-112 | the first free buffer of a segment, or none |
| MsgCm.GetEmpty | src/dpa_msg_cm.c:100-116 | the first free buffer from the given segment on, creating segments as needed |
| MsgCm.Reserve | src/dpa_msg_cm.c:150-157 | a reserved buffer has BUFFER_SIZE bytes, its read cursor cleared and its first header zero |
| MsgCm.Cleanup | src/dpa_msg_cm.c:166-175 | the corrected cleanup releases what was acquired, most recent first |
| MsgCm.CleanupReleasesAcquired | src/dpa_msg_cm.c:166-175 | the corrected cleanup releases each acquired handle exactly once |
| MsgCm.CleanupAsWrittenLeaks | src/dpa_msg_cm.c:166-175 | as written, the receive descriptor leaks and the send descriptor is closed while unopened, or twice |
| MsgCm.AllocMsgBuffer | src/dpa_msg_cm.c:118-176 | no free buffer gives DPA_ERR_SYSTEM; a failing call gives its error; success publishes the metadata with the size last |
| MsgCm.AllocMsgBufferFixed | src/dpa_msg_cm.c:118-176 | the same allocation with the corrected cleanup |
| MsgCm.SizeStoredLast | src/dpa_msg_cm.c:158-163 | until the final store, the slot's size reads 0 and the other fields are already in place |
| MsgCm.WriteAcceptData | src/dpa_msg_cm.c:177-197 | allocate into slot control_index, then on success store the peer's node id and advance control_index |
| MsgCm.AcceptPublishesNodeLast | src/dpa_msg_cm.c:177-197 | a published slot carries its node id together with the whole segment data |
| MsgCm.AcceptFailureStaysClear | src/dpa_msg_cm.c:177-197 | a failed allocation leaves no size and no node id in the slot |
| MsgCm.RemoveAsWritten | src/dpa_msg_cm.c:200-206 | as written, the slot one past the last is copied over the removed slot |
| MsgCm.Remove | src/dpa_msg_cm.c:200-206 | the corrected removal moves the last slot into the gap and clears its old place |
| MsgCm.RemoveCompacts | src/dpa_msg_cm.c:200-206 | the corrected removal keeps the table compact |
| MsgCm.RemoveDrops | src/dpa_msg_cm.c:200-206 | the corrected removal drops exactly the removed slot |
| MsgCm.ScanFrom | src/dpa_msg_cm.c:246-251 | the connect scan stops at our node's slot, steps over published slots and restarts at an empty one |
| MsgCm.ScanFindsCompact | src/dpa_msg_cm.c:246-251 | in a compact table the scan finds the first slot published for the node |
| MsgCm.RemoveStrandsSlot | src/dpa_msg_cm.c:200-250 | as written, removing the first of two slots strands the second peer's scan |
| MsgCm.ConnectMsg | src/dpa_msg_cm.c:267-314 | connect segment, two interrupts and map in order; the first failure stops; success queues FI_CONNECTED |
| MsgCm.ConnectQueuesOneEvent | src/dpa_msg_cm.c:267-314 | a successful link queues exactly one FI_CONNECTED event after those already queued |
| MsgCm.DisconnectMsgAsWritten | src/dpa_msg_cm.c:316-340 | as written, each set handle is released and the last error kept, but the handles stay set |
| MsgCm.DisconnectMsg | src/dpa_msg_cm.c:316-340 | the corrected disconnect also clears every handle it releases |
| MsgCm.ConnectThenDisconnect | src/dpa_msg_cm.c:267-340 | disconnecting releases exactly the handles connect acquired and leaves none held |
| MsgCm.DisconnectTwice | src/dpa_msg_cm.c:316-340 | as written, a second disconnect releases the same handles again; corrected, nothing |
| MsgCm.AcceptMsg | src/dpa_msg_cm.c:208-220 | publish a slot (ENOSPC on failure), wait for the peer, link, and remove the slot whatever the link did |
| MsgCm.CtrlConnectMsg | src/dpa_msg_cm.c:222-265 | connect to the listener's control segment, find our slot, read the listener's metadata and publish ours |
| MsgCm.HandshakeCrosses | src/dpa_msg_cm.c:208-265 | each side links to the buffer the other published, and the size written ends the accepting side's wait |
| Cm.Listen | src/dpa_cm.c:57-73 | ENOEQ without an event queue; the progress function is installed whether or not creation succeeds; EADDRINUSE for an id in use |
| Cm.ListenHooksProgress | src/dpa_cm.c:57-73 | installing progress keeps the queue well formed and silences its signal |
| Cm.FirstDecisive | src/dpa_cm.c:148-162 | the first event that ends the wait: a connect, or an event with an error |
| Cm.ProgressEq | src/dpa_cm.c:134-162 | a timeout or error gives budget 0 and nothing queued; a connect queues one FI_CONNREQ and returns the budget |
| Cm.ProgressBudgetConvention | src/dpa_cm.c:148-162 | progress either spends the budget and queues nothing, or returns it all and queues exactly one request at the tail |
| Cm.Accept | src/dpa_cm.c:76-80 | success without action for an endpoint without FI_MSG, else accept_msg |
| Cm.Connect | src/dpa_cm.c:82-96 | the handshake, then the link; a failure disconnects and returns ECONNABORTED |
| Cm.ConnectAllOrNothing | src/dpa_cm.c:82-96 | a successful connect holds all four remote handles; an aborted one holds none |
| Cm.Shutdown | src/dpa_cm.c:98-102 | disconnect; a release failure becomes EOTHER |
| Cm.ShutdownReleasesConnection | src/dpa_cm.c:82-102 | a shutdown after a connect releases every handle the connect acquired |
| Cm.CmInit | src/dpa_cm.c:104-116 | the current id starts at the lowest message segment id, with NUM_SEGMENTS segments, none created |
| Cm.FirstBufferAfterInit | src/dpa_cm.c:104-116 | the first buffer handed out is buffer 0 of the first segment, and the current id advances by one |
| GrowArray.Create | src/array.h:56-61 | room for count elements, and the header says so |
| GrowArray.GrowTo | src/array.h:73-81 | the new element count is at least the request and twice the old count |
| GrowArray.RequestSizeAsWritten | src/array.h:73-81 | a covered request returns the array; otherwise it is reallocated for size_t elements with the header unchanged |
| GrowArray.RequestSize | src/array.h:73-81 | the corrected growth holds the new count of the array's own elements, and the header records it |
| GrowArray.RequestSizeIdempotent | src/array.h:73-81 | a request once granted is granted again without reallocating |
| GrowArray.AsWrittenRoomForSmallValues | src/array.h:73-81 | for elements no wider than size_t, the as-written growth still makes room |
| GrowArray.RequestSizeStaleCount | src/array.h:65-81 | as written, the count never moves past the created size, so later requests reallocate again |
| Av.DecodeEncodeAddr | src/dpa_av.c:127-142 | an address copied out in full reads back as itself |
| Av.OpenAsWritten | src/dpa_av.c:64-94 | nonzero flags are ENODATA; a TABLE request gets an array of count addresses; the type stays zero |
| Av.Open | src/dpa_av.c:64-94 | the corrected open records TABLE or the MAP default |
| Av.GetFiAddr | src/dpa_av.h:57-59 | the index for a TABLE vector, the entry's address otherwise |
| Av.Insert | src/dpa_av.c:103-121 | grow to last + count (ENOMEM and no change on failure), copy the addresses in, hand out their fi_addrs and return count |
| Av.Remove | src/dpa_av.c:122-125 | accepted and ignored |
| Av.LookupAsWritten | src/dpa_av.c:127-142 | EINVAL without a buffer; as written, a TABLE vector accepts index last |
| Av.Lookup | src/dpa_av.c:127-142 | the corrected lookup rejects every index from last up |
| Av.LookupAcceptsLast | src/dpa_av.c:127-142 | as written, index last passes the check and reads an unwritten slot |
| Av.TableHandsOutPointers | src/dpa_av.c:64-121 | as written, a TABLE vector hands out addresses instead of indices |
| Av.InsertThenLookup | src/dpa_av.c:110-142 | after an insert, looking up each fi_addr returned gives back the address inserted |
| Av.LookupFiAddr | src/dpa_av.h:61-68 | FI_ADDR_NOTAVAIL for NULL or an unknown address, else the first matching entry's fi_addr |
| Av.ReverseLookupAgrees | src/dpa_av.h:61-68 | the fi_addr found for an address looks up to that address |
| Hash.UintHash | src/hash.h:59-61 | the bucket index is below the map size, and equals the key for small keys |
| Hash.Create | src/hash.h:63-77 | map_size buckets, all empty |
| Hash.Put | src/hash.h:90-97 | the entry is appended to its key's bucket; other buckets are unchanged |
| Hash.Find | src/hash.h:99-108 | None exactly when no entry in the bucket has the key |
| Hash.Remove | src/hash.h:111-129 | the map stays well formed, other buckets are unchanged, and an absent key changes nothing |
| Hash.GetPut | src/hash.h:90-108 | put never replaces: a present key keeps its value and a new key maps to the value put |
| Hash.GetRemoveOther | src/hash.h:99-129 | removing one key leaves every other key's value |
| Hash.RemovePut | src/hash.h:90-129 | put then remove under an absent key gives back the map |
| Mr.Init | src/dpa_mr.c:38-48 | an empty map with the configured number of buckets |
| Mr.Reg | src/dpa_mr.c:66-109 | ENODATA, EBADFLAGS, EKEYREJECTED, ENOKEY, EOTHER in order; success stores the registration; failure changes nothing |
| Mr.Close | src/dpa_mr.c:111-117 | closing always succeeds and leaves other keys unchanged |
| Mr.RegRecords | src/dpa_mr.c:87-105 | a registration under a fresh key is found under that key, and no other key changes |
| Mr.RegThenClose | src/dpa_mr.c:66-117 | closing a fresh registration gives back the registry |
| Domain.SelectDataProgress | src/dpa_domain.c:59-97 | automatic exactly when automatic was requested |
| Domain.SelectThreading | src/dpa_domain.c:59-97 | the requested level when it is set and at most FI_THREAD_COMPLETION, else FI_THREAD_COMPLETION |
| Domain.SelectIdempotent | src/dpa_domain.c:59-97 | selecting again from a selection changes nothing |
| Domain.Open | src/dpa_domain.c:59-97 | ENODATA exactly for a missing info or basic registration; otherwise the requested attributes are honoured |
| Info.AllowedCaps | src/dpa_info.c:312-331 | the caps per endpoint type; none for unsupported types |
| Info.GetEpCaps | src/dpa_info.c:312-331 | MSG caps without hints; otherwise the hinted caps or the type's set; ENODATA for unknown types or caps outside the set |
| Info.VerifyEpAttr | src/dpa_info.c:274-303 | the endpoint attributes are accepted exactly when they fit the provider |
| Info.VerifyCtxAttr | src/dpa_info.c:255-272 | context caps must lie in the MSG endpoint set |
| Info.VerifyRequirements | src/dpa_info.c:189-253 | ENODATA on any failure; success exactly for a supported version and hints that are acceptable |
| Info.OfferDomainAttr | src/dpa_info.c:73-86 | the offered domain attributes are those Domain selects from the hints |
| Info.OfferEpType | src/dpa_info.c:108-125 | the hinted endpoint type when set, MSG otherwise |
| Info.GetInfo | src/dpa_info.c:52-159 | success exactly when the hints pass verification, with the offer built from them |
| Info.OfferedCapsFitType | src/dpa_info.c:137 | the caps offered lie within what the endpoint type allows |
| Info.OfferAccepted | src/dpa_info.c:52-253 | an offer passes verification when given back as hints |
| Info.OfferIsFixedPoint | src/dpa_info.c:52-253 | asking again with the offer gets the same offer |
| Info.DomainAsOffered | src/dpa_domain.c:59-97 | a domain opened with the offer runs with the offered attributes |
| Ep.CheckEpCaps | src/dpa_ep.c:108-120 | 0 for caps outside the MSG set; a bare FI_MSG or FI_RMA is widened to its whole group |
| Ep.CheckEpCapsIdempotent | src/dpa_ep.c:108-120 | checking caps that already passed changes nothing |
| Ep.NewQueues | src/dpa_ep.c:199-207 | a new endpoint's queues are unconnected with the status pointer NULL, empty, and hold one batch of free entries per side |
| Ep.Open | src/dpa_ep.c:123-210 | EINVAL for missing info, a bad destination or refused caps; otherwise an unconnected, unbound endpoint with the ops its caps allow |
| Ep.BareCapsGetWholeGroup | src/dpa_ep.c:108-192 | a bare FI_MSG gets every message operation; a bare FI_RMA every RMA operation |
| Ep.OfferedInfoOpens | src/dpa_ep.c:123-210 | an endpoint opens with the offered caps once a destination is filled in |
| Ep.BindProgressAsWritten | src/dpa_ep.c:279-290 | as written, the hook is pointed at the endpoint even when no function is installed |
| Ep.BindProgress | src/dpa_ep.c:279-290 | the corrected bind leaves the hook alone when it installs nothing |
| Ep.ReadBindRetargetsProgress | src/dpa_ep.c:279-290 | as written, a read-only bind retargets another endpoint's send progress |
| Ep.FillSlots | src/dpa_ep.c:311-324 | FI_SEND fills send, read and write; FI_READ and FI_WRITE add reads or writes; FI_RECV fills receive |
| Ep.Bind | src/dpa_ep.c:292-346 | EINVAL for NULL or a foreign object; ENOSYS for unsupported classes; otherwise the slots are filled |
| Ep.BindTwice | src/dpa_ep.c:292-346 | binding the same object twice with the same flags is binding it once |
| Ep.GetName | src/dpa_ep.c:381-391 | as many address bytes as fit, the full size, and ETOOSMALL when cut short |
| Ep.GetNameReadsBack | src/dpa_ep.c:381-391 | with room for it, the name reads back as the local node and the segment |
| Ep.PassiveOpenAsWritten | src/dpa_ep.c:222-249 | as written, the length test never holds, so a source of any length is accepted |
| Ep.PassiveOpen | src/dpa_ep.c:222-249 | the corrected open also demands a source of the address size |
| Ep.PassiveOpenIgnoresLength | src/dpa_ep.c:225 | a four-byte source is accepted as written and refused when corrected |
| Env.LeadingDigits | src/dpa_env.h:39-56 | the digits the text starts with, stopping at the first non-digit |
| Env.Atoi | src/dpa_env.h:39-56 | the number is below 2^32 |
| Env.OverrideInt | src/dpa_env.h:39-56 | unset or disabled keeps the value; digits give the number; yes/on give 1; no/off give 0; other text keeps the value |
| Env.ValueDecimal | src/dpa_env.h:39-56 | the decimal digits of n read back as n |
| Env.OverrideWithDecimal | src/dpa_env.h:39-56 | setting the variable to a 32-bit number's decimal form overrides the value with that number |
| Env.Switches | src/dpa_env.h:39-56 | the switches are read in any letter case, and other text changes nothing |
| Env.StopsAtNonDigit | src/dpa_env.h:39-56 | "64k" reads as 64 |

## Left out

- Locking, memory ordering, and concurrent callers. Each operation is modelled as one atomic step on immutable state.
- The DPA library itself: segments, interrupts, waits and flushes. Each call's result is a parameter. DPAFlush has no modelled effect.
- Progress threads and interrupt callbacks. Progress runs are parameters: the events they deliver and the budget they return.
- The numeric values of errno and of the libfabric capability bits. Only the error names matter; the cap bits follow the libfabric 1.x layout.
- dpa_cm_fini, dpa_mr_fini, every close path, dpa_pep_bind and dpa_ep_control: teardown and control calls that only release resources.
- dpa_getinfo with a node or service, which resolves names through the library. GetInfo models only calls without either.
- Info.VerifyEpAttr: the maximum message size is a parameter, because ALIGNED_BUFFER_SIZE is not part of this model.
- Info.VerifyEpAttr: the max_order checks compare against SIZE_MAX and cannot fail, so they are omitted.
- Info.GetInfo: FI_VERSION is taken as major << 16 | minor.
- Mr.Reg: the segment id the library returns is taken to be the one requested.
- Mr.Init: a map size of 0 would divide by zero in uint_hash; Hash.Wf demands a positive size.
- Hash: custom hash functions are not modelled; only uint_hash is.
- MsgCm.GetEmpty: the buffer count is never updated in the code, and buffers are never freed.
- MsgCm.EnsureCreated: the endless retry of create_data_segment is a finite sequence of attempts. When the attempts run out, the result is None.
- MsgCm.CtrlConnectMsg: the retry loop of the control connect is assumed to end. A scan that would restart forever gives None.
- MsgCm.AcceptMsg: the spin on the peer's size is one observation. A size of 0 gives None.
- MsgCm.AllocMsgBuffer: a partial failure records only the receive interrupt's id among the stores.
- MsgCm.NumSegments: the MIN_MSG_SEGMID edge cases beyond the unsigned wrap are not modelled.
- Av: a dangling pointer fi_addr is not modelled; pointer fi_addrs are entry indices.
- Av.Insert: a MAP vector with no table gives None.
- Env.Atoi: overflow follows glibc's strtol (saturating at LONG_MAX), not the C standard.
- Ring.TrySend: requires the header and payload to stay inside the data area. Outside it the C code stores past the buffer; RingHazards.HeaderStraddles shows the input, and the store itself is not modelled.
- Ring.ReadMsg: requires the copy to stay inside the data area, for the same reason.
- Ring.TryRecv: requires the header at the read cursor to lie below the top (HeaderFits). try_send leaves the cursor within 8 bytes of the top (RingHazards.HeaderStraddles), try_recv then reads the header in one piece past the data area (src/dpa_msg.c:276-279), and that read is not modelled.
- Msg.TrySendReq and Msg.Send refuse an empty payload with EINVAL, although libfabric allows zero-length sends. The code as written accepts them and writes a frame the receiver cannot pass (Msg.EmptySendCompletes, RingHazards.EmptySendStalls); a zero-length send that works would need a header that is never 0.
- Msg.TrySendReqAsWritten, Msg.SendAsWritten: require a frame written at once to stay inside the data area, as Ring.TrySend does.
- Msg.SendAsWritten: where the status pointer stands is a field of the endpoint, not derived from the connection calls; MsgCm models those calls on its own record. A write through a segment that was unmapped, or never mapped, is a fault (None) and its effect is not modelled.
- Cntr.SetAsWritten: atomic_set on the plain uint64_t field is taken to store a 32-bit int over its low half, as on a little-endian machine with native atomics.
- Cntr.WaitAgrees: requires the error count below 2^31. Above it, wait keeps a truncated copy in an int and the as-written loop ends at its first test.
- Cntr: the progress runs inside read and wait, and the timeout each progress call hands back, are supplied as ticks.
- Eq.LTake, Eq.Take: the calloc in get_empty_event is taken to succeed.
- Cq.Add: the calloc in get_empty_event (src/dpa_cq.c:162-167) is taken to succeed; when it returns NULL, cq_add_src writes through it, and that is not modelled.
- Rma.ReadMsg: the DPAStartSequence spin and a size_t overflow of the iovec total are not modelled.
- Cq, Eq: the error strings (strerror) and the condition variable wait are not modelled.

## Findings

| source | as written | input that shows it | evidently intended | confidence | as-written member | corrected member |
|---|---|---|---|---|---|---|
| src/dpa_msg.c:336-363 | the size header is stored at the cursor in one piece, even within 8 bytes of the top | one 65516-byte message, then any message | the header wraps like the payload | high, not executed | Ring.TrySend, RingHazards.HeaderStraddles | Ring.TrySendFixed |
| src/dpa_msg.c:383-393 | an empty payload writes a zero header | send of 0 bytes, then a real send | no frame the receiver cannot pass; the model refuses empty payloads with EINVAL, which libfabric does not ask for | high, not executed | Ring.TrySend, RingHazards.EmptySendStalls, Msg.EmptySendCompletes | Ring.TrySendFixed |
| src/dpa_msg.c:255-265 | a short receive clears only the bytes copied | a 16-byte message into a 0-byte buffer | the whole frame is cleared | high, not executed | Ring.ReadMsg, RingHazards.StaleBytesReadAsFrame | Ring.TryRecvFixed |
| src/dpa_msg.c:139-140 | the first send is tried whether or not the endpoint is connected | fi_send before any connect; or fi_send after fi_shutdown, when the stale credit admits the frame | queue until connected | high, not executed | Msg.SendAsWritten, Msg.SendBeforeConnect, Msg.SendAfterShutdown | Msg.Send |
| src/dpa_cntr.c:87-110 | the counter is never stored in *cntr, nothing is returned on success, and the inc and err_inc hooks are never set | open, then one completion | the counter returned with the hooks set | high, not executed | Cntr.OpenAsWritten, Cntr.OpenedCounterFaults | Cntr.Open |
| src/dpa_cntr.c:150-153 | the thread-safe set stores into the plain field, which the thread-safe read never reads | set 5 on a counter reading 0 with the atomic table, then read | the atomic count set | high, not executed | Cntr.SetAsWritten, Cntr.SetLostInAtomicTable | Cntr.Set |
| src/dpa_cntr.c:163 | wait's final test reads the plain field whatever the table | atomic table, count at the threshold, timeout 0 | test the table's own count | high, not executed | Cntr.WaitAsWritten, Cntr.WaitTestsPlainField | Cntr.Wait |
| src/dpa_cntr.c:158 | the starting error count is kept in an int | plain table, error count 2^31, count below the threshold, positive timeout | keep the error count in 64 bits | medium, not executed | Cntr.WaitAsWritten, Cntr.LargeErrorCountEndsWait | Cntr.Wait |
| src/dpa_cntr.c:160-164 | a negative timeout skips the loop and returns success | wait with timeout -1, count below threshold | a negative timeout waits without limit | high, not executed | Cntr.WaitAsWritten, Cntr.InfiniteWaitReturnsAtOnce | Cntr.Wait |
| src/dpa_eq.c:128-141 | a read drops the entry; a peek appends it to the free list while it stays on its own list, clearing its next pointer | one read; a peek with two events pending, then two reads; a peek with one event, then one add | a read frees the entry; a peek changes nothing | high, not executed | Eq.ReadPrivAsWritten, Eq.ReadLeaksEntry, Eq.PeekCutsQueue, Eq.PeekThenAddOverwrites | Eq.ReadPriv |
| src/dpa_eq.c:166-177 | the timeout never decreases | sread with a positive timeout and no error | return the first event, or EAGAIN at timeout | high, not executed | Eq.SReadAsWritten, Eq.SReadNeverReturns | Eq.SRead |
| src/dpa_rma.c:38-63 | cache_disconnect keeps the remote interrupt | write with data to node A, then to node B | the interrupt dropped with the mapping | medium, not executed | Rma.ConnectAsWritten, Rma.StaleInterrupt | Rma.Connect |
| src/dpa_rma.c:139-151 | the lookup error is ignored | an unconnected endpoint with an unknown fi_addr | return the lookup error | high, not executed | Rma.AcquireTargetAsWritten, Rma.AcquireIgnoresLookup | Rma.AcquireTarget |
| src/dpa_rma.c:192-199 | top - base wraps for an offset past the segment | offset len + 1 with a 1-byte iovec | nothing available | high, not executed | Rma.CopyAsWritten, Rma.CopyPastEnd | Rma.Avail |
| src/dpa_msg_cm.c:166-175 | cleanup closes the send descriptor instead of the receive one | the receive interrupt fails to be created | close what was opened | high, not executed | MsgCm.AllocMsgBuffer, MsgCm.CleanupAsWrittenLeaks | MsgCm.AllocMsgBufferFixed |
| src/dpa_msg_cm.c:200-206 | the slot one past the last is copied into the gap | two pending peers, the first removed | move the last slot into the gap | high, not executed | MsgCm.RemoveAsWritten, MsgCm.RemoveStrandsSlot | MsgCm.Remove |
| src/dpa_msg_cm.c:316-340 | released handles stay set | disconnect twice | clear each handle released | medium, not executed | MsgCm.DisconnectMsgAsWritten, MsgCm.DisconnectTwice | MsgCm.DisconnectMsg |
| src/array.h:73-81 | growth uses sizeof(size_t) and leaves the count | grow an array twice | the element size and the new count | high, not executed | GrowArray.RequestSizeAsWritten, GrowArray.RequestSizeStaleCount | GrowArray.RequestSize |
| src/dpa_av.c:64-94 | the type field is never set | open with FI_AV_TABLE, insert | the type recorded | high, not executed | Av.OpenAsWritten, Av.TableHandsOutPointers | Av.Open |
| src/dpa_av.c:127-142 | the bound test is fi_addr > last | lookup of index last | fi_addr >= last rejected | high, not executed | Av.LookupAsWritten, Av.LookupAcceptsLast | Av.Lookup |
| src/dpa_ep.c:225 | `!src_addrlen == sizeof(dpa_addr_t)` never holds | a 4-byte source address | reject a length other than 8 | high, not executed | Ep.PassiveOpenAsWritten, Ep.PassiveOpenIgnoresLength | Ep.PassiveOpen |
| src/dpa_ep.c:279-290 | the hook is retargeted even when no function is installed | bind a counter for FI_READ to a second endpoint | leave the hook alone | medium, not executed | Ep.BindProgressAsWritten, Ep.ReadBindRetargetsProgress | Ep.BindProgress |
