/**
 * The message data path of an endpoint (dpa_msg.c, dpa_msg.h): the
 * pending send and receive queues, their pools of queue entries, the
 * immediate-or-enqueue rule, queue processing and progress, and the
 * completions and counts each finished request produces.
 *
 * Each direction of a connection is one ring (module Ring, corrected
 * version). An endpoint sends into its outgoing ring and receives from
 * its incoming ring; a Link wires two endpoints' buffers, cursors and
 * status words into the two rings.
 */
module Msg {
  import opened Bytes
  import opened Fabric
  import opened Ring
  import Lists
  import Cq
  import Cntr

  /** MSG_QUEUE_ENTRIES_BATCH_SIZE: queue entries allocated at a time. */
  const BATCH: nat := 512

  /** Completion flags of receives and sends. */
  const RECV_FLAGS: bv64 := FI_MSG | FI_RECV
  const SEND_FLAGS: bv64 := FI_MSG | FI_SEND

  /**
   * What a queue entry records of a request: the bytes of its buffer
   * (what a send carries), the buffer length (what a receive accepts),
   * flags and the caller's context.
   */
  datatype Request = Request(data: seq<byte>, len: nat, flags: bv64, context: nat)

  /** A msg_queue_entry: the slot it occupies in its batch, and the request copied into it. */
  datatype Entry = Entry(slot: nat, req: Request)

  /** One direction's queues: pending requests oldest first, and the free list of entry slots. */
  datatype Side = Side(queue: seq<Entry>, spare: seq<nat>)

  /**
   * How far the sending side of an endpoint was set up, which decides
   * what try_send reads. Unset: msg_send_info.remote_status is still NULL.
   * Local: alloc_msg_buffer pointed it at the endpoint's own status word,
   * whose read field it zeroed (dpa_msg_cm.c:153-157), but connect_msg
   * never reached the point where it saves the sender's cursor and the
   * ring size, so both are still 0. Saved: connect_msg saved them
   * (dpa_msg_cm.c:300-302); disconnect_msg clears neither, nor the
   * status pointer, so an endpoint stays Saved after a shutdown.
   */
  datatype SendStatus = Unset | Local | Saved

  /**
   * The parts of dpa_fid_ep the data path uses. batches counts the batches
   * recorded in free_entries_ptrs; slots are numbered across batches.
   */
  datatype Endpoint = Endpoint(
    connected: bool, status: SendStatus, tx: Side, rx: Side, batches: nat,
    sendCq: Option<Cq.Cq>, recvCq: Option<Cq.Cq>,
    sendCntr: Option<Cntr.Cntr>, recvCntr: Option<Cntr.Cntr>)

  function SideOf(ep: Endpoint, onTx: bool): Side
  {
    if onTx then ep.tx else ep.rx
  }

  function WithSide(ep: Endpoint, onTx: bool, s: Side): (r: Endpoint)
    ensures SideOf(r, onTx) == s && SideOf(r, !onTx) == SideOf(ep, !onTx)
  {
    if onTx then ep.(tx := s) else ep.(rx := s)
  }

  // ---------------------------------------------------------------------
  // Entry pools (get_free_entry, create_msg_queue_entries, _dpa_msg_enqueue)

  function Slots(q: seq<Entry>): (s: seq<nat>)
    ensures |s| == |q|
  {
    seq(|q|, i requires 0 <= i < |q| => q[i].slot)
  }

  lemma SlotsConcat(a: seq<Entry>, b: seq<Entry>)
    ensures Slots(a + b) == Slots(a) + Slots(b)
  {
  }

  /** Every slot on one side's two lists. */
  function SideSlots(s: Side): seq<nat>
  {
    Slots(s.queue) + s.spare
  }

  /** Every slot on the endpoint's four lists. */
  function AllSlots(ep: Endpoint): seq<nat>
  {
    SideSlots(ep.tx) + SideSlots(ep.rx)
  }

  /** The endpoint's slots, split by side. */
  lemma AllSlotsBySide(ep: Endpoint, onTx: bool)
    ensures multiset(AllSlots(ep)) == multiset(SideSlots(SideOf(ep, onTx))) + multiset(SideSlots(SideOf(ep, !onTx)))
  {
  }

  /** Replacing one side by one holding the same slots keeps the endpoint's slots. */
  lemma SideSwap(ep: Endpoint, onTx: bool, s: Side)
    requires multiset(SideSlots(s)) == multiset(SideSlots(SideOf(ep, onTx)))
    ensures multiset(AllSlots(WithSide(ep, onTx, s))) == multiset(AllSlots(ep))
  {
    AllSlotsBySide(ep, onTx);
    AllSlotsBySide(WithSide(ep, onTx, s), onTx);
  }

  /**
   * Entry conservation: the slots on the two queues and the two free
   * lists are, with multiplicity, exactly the slots of the batches
   * allocated so far. Every entry is on one list, once.
   */
  predicate PoolOk(ep: Endpoint)
  {
    multiset(AllSlots(ep)) == multiset(Lists.Ids(BATCH * ep.batches))
  }

  /** The free list a batch leaves behind: each new entry is inserted at the head in turn. */
  function Batch(base: nat): (s: seq<nat>)
    ensures |s| == BATCH
  {
    Lists.Desc(base, BATCH)
  }

  /**
   * create_msg_queue_entries: insert the BATCH entries of a new batch at
   * the head of the free list, one at a time.
   */
  method CreateEntries(spare: seq<nat>, base: nat) returns (s: seq<nat>)
    ensures s == Batch(base) + spare
    ensures forall i | 0 <= i < BATCH :: s[i] == base + BATCH - 1 - i
  {
    s := spare;
    var i := 0;
    while i < BATCH
      invariant i <= BATCH
      invariant s == Lists.Desc(base, i) + spare
    {
      s := Lists.SInsertHead(s, base + i);
      assert Lists.Desc(base, i + 1) == [base + i] + Lists.Desc(base, i);
      i := i + 1;
    }
  }

  /** get_free_entry's refill: a new batch on one side's free list. */
  function AddBatch(ep: Endpoint, onTx: bool): (r: Endpoint)
    ensures r.batches == ep.batches + 1
    ensures SideOf(r, onTx) == Side(SideOf(ep, onTx).queue, Batch(BATCH * ep.batches) + SideOf(ep, onTx).spare)
    ensures SideOf(r, !onTx) == SideOf(ep, !onTx)
  {
    var s := SideOf(ep, onTx);
    WithSide(ep, onTx, Side(s.queue, Batch(BATCH * ep.batches) + s.spare)).(batches := ep.batches + 1)
  }

  lemma AddBatchConserves(ep: Endpoint, onTx: bool)
    requires PoolOk(ep)
    ensures PoolOk(AddBatch(ep, onTx))
  {
    var base := BATCH * ep.batches;
    var s := SideOf(ep, onTx);
    GrowSide(ep, onTx, base, BATCH);
    assert BATCH * (ep.batches + 1) == base + BATCH;
    assert AllSlots(AddBatch(ep, onTx)) == AllSlots(WithSide(ep, onTx, Side(s.queue, Lists.Desc(base, BATCH) + s.spare)));
  }

  /** k new slots numbered from n, put in front of one side's free list, extend a pool of n slots to n + k. */
  lemma GrowSide(ep: Endpoint, onTx: bool, n: nat, k: nat)
    requires multiset(AllSlots(ep)) == multiset(Lists.Ids(n))
    ensures var s := SideOf(ep, onTx);
      multiset(AllSlots(WithSide(ep, onTx, Side(s.queue, Lists.Desc(n, k) + s.spare)))) == multiset(Lists.Ids(n + k))
  {
    var s := SideOf(ep, onTx);
    var s2 := Side(s.queue, Lists.Desc(n, k) + s.spare);
    var ep2 := WithSide(ep, onTx, s2);
    assert SideSlots(s2) == Slots(s.queue) + Lists.Desc(n, k) + s.spare;
    AllSlotsBySide(ep, onTx);
    AllSlotsBySide(ep2, onTx);
    Lists.IdsGrow(n, k);
  }

  /**
   * _dpa_msg_enqueue: take the head of the side's free list (refilled
   * with a new batch when empty) and append the request at the tail of
   * the side's queue.
   */
  function Enqueue(ep: Endpoint, onTx: bool, req: Request): (r: Endpoint)
    ensures |SideOf(r, onTx).queue| == |SideOf(ep, onTx).queue| + 1
    ensures SideOf(r, onTx).queue[..|SideOf(ep, onTx).queue|] == SideOf(ep, onTx).queue
    ensures SideOf(r, onTx).queue[|SideOf(ep, onTx).queue|].req == req
    ensures SideOf(r, !onTx) == SideOf(ep, !onTx)
    ensures r.batches == if SideOf(ep, onTx).spare == [] then ep.batches + 1 else ep.batches
    ensures r.connected == ep.connected && r.sendCq == ep.sendCq && r.recvCq == ep.recvCq
    ensures r.sendCntr == ep.sendCntr && r.recvCntr == ep.recvCntr
  {
    var ep1 := if SideOf(ep, onTx).spare == [] then AddBatch(ep, onTx) else ep;
    var s := SideOf(ep1, onTx);
    WithSide(ep1, onTx, Side(Lists.SInsertTail(s.queue, Entry(s.spare[0], req)), s.spare[1..]))
  }

  /** Moving the free list's head to the queue's tail keeps a side's slots. */
  lemma TakeSpare(s: Side, req: Request)
    requires s.spare != []
    ensures SideSlots(Side(Lists.SInsertTail(s.queue, Entry(s.spare[0], req)), s.spare[1..])) == SideSlots(s)
  {
    SlotsConcat(s.queue, [Entry(s.spare[0], req)]);
    assert s.spare == [s.spare[0]] + s.spare[1..];
  }

  lemma EnqueueConserves(ep: Endpoint, onTx: bool, req: Request)
    requires PoolOk(ep)
    ensures PoolOk(Enqueue(ep, onTx, req))
  {
    var ep1 := if SideOf(ep, onTx).spare == [] then AddBatch(ep, onTx) else ep;
    if SideOf(ep, onTx).spare == [] {
      AddBatchConserves(ep, onTx);
    }
    assert PoolOk(ep1);
    var s := SideOf(ep1, onTx);
    var s2 := Side(Lists.SInsertTail(s.queue, Entry(s.spare[0], req)), s.spare[1..]);
    TakeSpare(s, req);
    SideSwap(ep1, onTx, s2);
    assert Enqueue(ep, onTx, req) == WithSide(ep1, onTx, s2);
  }

  /** A finished request's entry goes from the head of its queue to the head of the free list. */
  function Retire(ep: Endpoint, onTx: bool): (r: Endpoint)
    requires SideOf(ep, onTx).queue != []
    ensures SideOf(r, onTx).queue == SideOf(ep, onTx).queue[1..]
    ensures SideOf(r, onTx).spare == [SideOf(ep, onTx).queue[0].slot] + SideOf(ep, onTx).spare
    ensures SideOf(r, !onTx) == SideOf(ep, !onTx)
    ensures r == WithSide(ep, onTx, SideOf(r, onTx))
  {
    var s := SideOf(ep, onTx);
    WithSide(ep, onTx, Side(s.queue[1..], Lists.SInsertHead(s.spare, s.queue[0].slot)))
  }

  lemma RetireConserves(ep: Endpoint, onTx: bool)
    requires PoolOk(ep) && SideOf(ep, onTx).queue != []
    ensures PoolOk(Retire(ep, onTx))
  {
    var s := SideOf(ep, onTx);
    var s2 := Side(s.queue[1..], [s.queue[0].slot] + s.spare);
    RetireSide(s);
    SideSwap(ep, onTx, s2);
    assert Retire(ep, onTx) == WithSide(ep, onTx, s2);
  }

  /** Moving the queue's head to the free list's head keeps a side's slots. */
  lemma RetireSide(s: Side)
    requires s.queue != []
    ensures multiset(SideSlots(Side(s.queue[1..], [s.queue[0].slot] + s.spare))) == multiset(SideSlots(s))
  {
    assert s.queue == [s.queue[0]] + s.queue[1..];
    SlotsConcat([s.queue[0]], s.queue[1..]);
  }


  // ---------------------------------------------------------------------
  // Completions (try_send and try_recv)

  /** The send completion: context and flags only. */
  function SendCompletion(req: Request): (e: Cq.CqEntry)
    ensures e.err == Ok && e.flags == SEND_FLAGS && e.context == req.context
  {
    Cq.CqEntry(req.context, SEND_FLAGS, 0, [], 0, Ok, 0)
  }

  /**
   * The receive completion for a frame of size bytes of which data was
   * copied: ETOOSMALL exactly when the buffer was too short, and olen the
   * bytes that did not fit.
   */
  function RecvCompletion(req: Request, data: seq<byte>, size: nat): (e: Cq.CqEntry)
    requires |data| <= size
    ensures e.len == |data| && e.buf == data && e.flags == RECV_FLAGS && e.context == req.context
    ensures e.err == (if |data| < size then Err(ETOOSMALL) else Ok)
    ensures |data| + e.olen == size
  {
    Cq.CqEntry(req.context, RECV_FLAGS, |data|, data, 0, if |data| < size then Err(ETOOSMALL) else Ok, size - |data|)
  }

  /** cq_add on a bound queue; nothing when none is bound. */
  function Post(cq: Option<Cq.Cq>, e: Cq.CqEntry): (r: Option<Cq.Cq>)
    ensures r.None? <==> cq.None?
  {
    if cq.None? then None else Some(Cq.Add(cq.value, e, FI_ADDR_NOTAVAIL).0)
  }

  /** dpa_cntr_inc or dpa_cntr_err_inc on a bound counter; nothing when none is bound. */
  function Tally(c: Option<Cntr.Cntr>, success: bool): (r: Option<Cntr.Cntr>)
    ensures r.None? <==> c.None?
  {
    if c.None? then None else Some(Cntr.Count(c.value, success))
  }

  /** A finished request's completion posted and counted on its direction's queue and counter. */
  function Complete(ep: Endpoint, onTx: bool, e: Cq.CqEntry): (r: Endpoint)
    ensures r.tx == ep.tx && r.rx == ep.rx && r.connected == ep.connected && r.batches == ep.batches
    ensures onTx ==> r == ep.(sendCq := Post(ep.sendCq, e), sendCntr := Tally(ep.sendCntr, e.err.Ok?))
    ensures !onTx ==> r == ep.(recvCq := Post(ep.recvCq, e), recvCntr := Tally(ep.recvCntr, e.err.Ok?))
  {
    if onTx then ep.(sendCq := Post(ep.sendCq, e), sendCntr := Tally(ep.sendCntr, e.err.Ok?))
    else ep.(recvCq := Post(ep.recvCq, e), recvCntr := Tally(ep.recvCntr, e.err.Ok?))
  }

  /** The endpoint and outgoing or incoming ring after one attempt, and its return code. */
  datatype Attempt = Attempt(ep: Endpoint, ring: Ring, status: Status)

  /**
   * try_send: send the request's bytes as one frame. EAGAIN, with nothing
   * changed, when the ring has no room; on success a send completion is
   * posted and counted. An empty payload is refused (EINVAL) instead of
   * being written as a frame the receiver would take for "nothing here".
   */
  function TrySendReq(ep: Endpoint, out: Ring, req: Request): (a: Attempt)
    requires Shaped(out)
    ensures var s := TrySendFixed(out, req.data);
      && a.ring == s.ring
      && (a.status == Ok <==> s.status == Sent)
      && (s.status == NoRoom ==> a.status == Err(EAGAIN))
      && (s.status == EmptyRejected ==> a.status == Err(EINVAL))
      && a.ep == if s.status == Sent then Complete(ep, true, SendCompletion(req)) else ep
  {
    var s := TrySendFixed(out, req.data);
    match s.status
    case Sent => Attempt(Complete(ep, true, SendCompletion(req)), s.ring, Ok)
    case NoRoom => Attempt(ep, out, Err(EAGAIN))
    case EmptyRejected => Attempt(ep, out, Err(EINVAL))
  }

  /** A ring whose next header (if any) describes a frame that fits: what try_recv needs to read it. */
  predicate Readable(inn: Ring)
  {
    Shaped(inn) && HeaderFixed(inn) + HDR <= inn.cap
  }

  /**
   * try_recv: EAGAIN, with nothing changed, on a zero header; otherwise
   * the frame is consumed, min(len, size) bytes reach the buffer, and a
   * receive completion is posted and counted (as an error when the frame
   * was cut short).
   */
  function TryRecvReq(ep: Endpoint, inn: Ring, req: Request): (a: Attempt)
    requires Shaped(inn) && HeaderFixed(inn) + HDR <= inn.cap
    ensures var s := TryRecvFixed(inn, req.len);
      && a.ring == s.ring
      && (s.outcome.RecvAgain? ==> a.status == Err(EAGAIN) && a.ep == ep)
      && (s.outcome.Received? ==>
            && a.status == Ok
            && a.ep == Complete(ep, false, RecvCompletion(req, s.outcome.data, s.outcome.msgSize)))
  {
    var s := TryRecvFixed(inn, req.len);
    match s.outcome
    case RecvAgain => Attempt(ep, inn, Err(EAGAIN))
    case Received(data, size) =>
      Attempt(Complete(ep, false, RecvCompletion(req, data, size)), s.ring, Ok)
  }

  // ---------------------------------------------------------------------
  // Posting requests (_dpa_send, _dpa_recv)

  /** What a posting call leaves: the endpoint, the ring it may have used, and its return code. */
  datatype Posted = Posted(ep: Endpoint, ring: Ring, status: Status)

  /**
   * _dpa_send, corrected. A send goes straight to the ring only when no
   * send is pending and the endpoint is connected; otherwise, or when the
   * ring has no room, it is queued behind the pending ones. Empty
   * payloads are refused with EINVAL. Send flags are not recorded.
   */
  function Send(ep: Endpoint, out: Ring, data: seq<byte>, context: nat): (p: Posted)
    requires Shaped(out)
    ensures |data| == 0 ==> p == Posted(ep, out, Err(EINVAL))
    ensures |data| > 0 ==> p.status == Ok
    ensures |data| > 0 && (ep.tx.queue != [] || !ep.connected) ==>
      p.ring == out && p.ep == Enqueue(ep, true, Request(data, |data|, 0, context))
  {
    var req := Request(data, |data|, 0, context);
    if |data| == 0 then Posted(ep, out, Err(EINVAL))
    else if Lists.SEmpty(ep.tx.queue) && ep.connected then
      var a := TrySendReq(ep, out, req);
      if a.status == Err(EAGAIN) then Posted(Enqueue(ep, true, req), out, Ok) else Posted(a.ep, a.ring, Ok)
    else Posted(Enqueue(ep, true, req), out, Ok)
  }

  /**
   * try_send as written, on the ring as written: EAGAIN with nothing
   * changed when the frame does not fit the credit; otherwise the frame
   * is written, whatever its length, and a send completion is posted and
   * counted. Like Ring.TrySend, it needs the header and payload of a
   * frame that passes the space test to stay inside the data area.
   */
  function TrySendReqAsWritten(ep: Endpoint, out: Ring, req: Request): (a: Attempt)
    requires Shaped(out)
    requires HasRoom(out, |req.data|) ==> HeaderFits(out.cap, out.write) && |req.data| + HDR <= out.cap
    ensures a.status == Ok <==> HasRoom(out, |req.data|)
    ensures a.status != Ok ==> a == Attempt(ep, out, Err(EAGAIN))
    ensures a.status == Ok ==> a.ring == TrySend(out, req.data).ring && a.ep == Complete(ep, true, SendCompletion(req))
  {
    var s := TrySend(out, req.data);
    if s.status == Sent then Attempt(Complete(ep, true, SendCompletion(req)), s.ring, Ok)
    else Attempt(ep, out, Err(EAGAIN))
  }

  /** What _dpa_send as written needs to stay inside the data area: a frame it writes at once fits below the top. */
  predicate SendStaysInside(ep: Endpoint, out: Ring, len: nat)
    requires Shaped(out)
  {
    ep.tx.queue == [] && ep.status == Saved && ep.connected && HasRoom(out, len) ==>
      HeaderFits(out.cap, out.write) && len + HDR <= out.cap
  }

  /**
   * _dpa_send as written: the immediate attempt is made whenever no send
   * is pending, connected or not, and goes through try_send, whose credit
   * remote_space reads through the status pointer. With the pointer
   * still NULL the attempt faults (None). Pointing at the endpoint's own
   * zeroed status word, with cursor and size 0, the credit is 0 and only
   * a length whose size_t sum with the header wraps to 0 passes; the
   * frame would then be written through a ring that was never mapped
   * (None). With the ring saved, try_send runs on it as written; on an
   * endpoint that is no longer connected a frame that passes the space
   * test is written through the unmapped segment (None). When the space
   * test fails the send is queued; otherwise it returns success, an empty
   * payload included.
   */
  function SendAsWritten(ep: Endpoint, out: Ring, data: seq<byte>, context: nat): (p: Option<Posted>)
    requires Shaped(out) && SendStaysInside(ep, out, |data|)
    ensures p.None? <==>
      && ep.tx.queue == []
      && (|| ep.status == Unset
          || (ep.status == Local && (|data| + HDR) % WORD_LIMIT == 0)
          || (ep.status == Saved && !ep.connected && HasRoom(out, |data|)))
    ensures p.Some? ==> p.value.status == Ok
    ensures p.Some? && (ep.tx.queue != [] || ep.status == Local || !HasRoom(out, |data|)) ==>
      p.value.ring == out && p.value.ep == Enqueue(ep, true, Request(data, |data|, 0, context))
    ensures p.Some? && ep.tx.queue == [] && ep.status == Saved && HasRoom(out, |data|) ==>
      && ep.connected
      && p.value.ring == TrySend(out, data).ring
      && p.value.ep == Complete(ep, true, SendCompletion(Request(data, |data|, 0, context)))
  {
    var req := Request(data, |data|, 0, context);
    if Lists.SEmpty(ep.tx.queue) then
      match ep.status
      case Unset => None
      case Local =>
        if Wrap(|data| + HDR) <= RemoteSpace(0, 0, 0) then None
        else Some(Posted(Enqueue(ep, true, req), out, Ok))
      case Saved =>
        if !ep.connected && HasRoom(out, |data|) then None
        else
          var a := TrySendReqAsWritten(ep, out, req);
          if a.status == Err(EAGAIN) then Some(Posted(Enqueue(ep, true, req), out, Ok)) else Some(Posted(a.ep, a.ring, Ok))
    else Some(Posted(Enqueue(ep, true, req), out, Ok))
  }

  /**
   * Sending on an endpoint on which no connection was ever attempted: as
   * written the first send faults; corrected, it is queued, to go out
   * once the connection is up and the queue is processed.
   */
  lemma SendBeforeConnect(ep: Endpoint, out: Ring, data: seq<byte>, context: nat)
    requires Shaped(out) && ep.status == Unset && !ep.connected && ep.tx.queue == [] && |data| > 0
    ensures SendAsWritten(ep, out, data, context).None?
    ensures var p := Send(ep, out, data, context);
      p.status == Ok && p.ring == out && |p.ep.tx.queue| == 1 && p.ep.tx.queue[0].req.data == data
  {
  }

  /**
   * Sending after a connect that failed past alloc_msg_buffer: the credit
   * read from the endpoint's own status word is 0, so as written the send
   * is queued, just as the corrected send queues it.
   */
  lemma SendAfterFailedConnect(ep: Endpoint, out: Ring, data: seq<byte>, context: nat)
    requires Shaped(out) && ep.status == Local && !ep.connected && |data| > 0 && |data| + HDR < WORD_LIMIT
    ensures RemoteSpace(0, 0, 0) == 0
    ensures SendAsWritten(ep, out, data, context) == Some(Send(ep, out, data, context))
    ensures Send(ep, out, data, context) == Posted(Enqueue(ep, true, Request(data, |data|, 0, context)), out, Ok)
  {
  }

  /**
   * Sending after a shutdown: the saved ring is still used. As written a
   * frame the stale credit admits is written through the unmapped segment
   * (None); otherwise the send is queued, as the corrected send queues it.
   */
  lemma SendAfterShutdown(ep: Endpoint, out: Ring, data: seq<byte>, context: nat)
    requires Shaped(out) && ep.status == Saved && !ep.connected && ep.tx.queue == [] && |data| > 0
    ensures SendAsWritten(ep, out, data, context).None? <==> HasRoom(out, |data|)
    ensures !HasRoom(out, |data|) ==> SendAsWritten(ep, out, data, context) == Some(Send(ep, out, data, context))
  {
  }

  /**
   * An empty send on an idle, connected endpoint with room: as written
   * an 8-byte frame with a zero header is written (the frame
   * RingHazards.EmptySendStalls shows the receiver never gets past), the
   * write cursor moves on, and a completion is posted and counted; the corrected send
   * refuses it with EINVAL and changes nothing.
   */
  lemma EmptySendCompletes(ep: Endpoint, out: Ring, context: nat)
    requires Shaped(out) && ep.connected && ep.status == Saved && ep.tx.queue == [] && HasRoom(out, 0) && HeaderFits(out.cap, out.write)
    ensures var p := SendAsWritten(ep, out, [], context);
      && p.Some? && p.value.status == Ok
      && p.value.ring.write == NewOffset(out.write, 0, out.cap)
      && p.value.ring == TrySend(out, []).ring
      && p.value.ep == Complete(ep, true, SendCompletion(Request([], 0, 0, context)))
    ensures Send(ep, out, [], context) == Posted(ep, out, Err(EINVAL))
  {
  }

  /**
   * Wherever the code as written does not fault, it agrees with the
   * corrected send on non-empty payloads.
   */
  lemma SendAgreesWhenConnected(ep: Endpoint, out: Ring, data: seq<byte>, context: nat)
    requires Shaped(out) && SendStaysInside(ep, out, |data|)
    requires (ep.connected || ep.tx.queue != []) && |data| > 0
    requires ep.connected ==> ep.status == Saved
    ensures SendAsWritten(ep, out, data, context) == Some(Send(ep, out, data, context))
  {
    if ep.tx.queue == [] && HasRoom(out, |data|) {
      SendAgrees(out, data);
    }
  }

  /**
   * _dpa_recv: a receive is tried at once only when no receive is
   * pending and the endpoint is connected; otherwise, or when nothing has
   * arrived, it is queued behind the pending ones. It always returns
   * success.
   */
  function Recv(ep: Endpoint, inn: Ring, len: nat, flags: bv64, context: nat): (p: Posted)
    requires ep.connected ==> Readable(inn)
    ensures p.status == Ok
    ensures ep.rx.queue != [] || !ep.connected ==>
      p.ring == inn && p.ep == Enqueue(ep, false, Request([], len, flags, context))
  {
    var req := Request([], len, flags, context);
    if Lists.SEmpty(ep.rx.queue) && ep.connected then
      var a := TryRecvReq(ep, inn, req);
      if a.status == Err(EAGAIN) then Posted(Enqueue(ep, false, req), inn, Ok) else Posted(a.ep, a.ring, Ok)
    else Posted(Enqueue(ep, false, req), inn, Ok)
  }

  // ---------------------------------------------------------------------
  // Scatter-gather entry points (dpa_sendmsg, dpa_recvmsg)

  /** One iovec: the bytes of the buffer it describes (iov_len is their number). */
  datatype Iov = Iov(base: seq<byte>)

  /** struct fi_msg: the first element of msg_iov (None for a NULL array), iov_count, context. */
  datatype FiMsg = FiMsg(iov: Option<Iov>, iovCount: nat, context: nat)

  /**
   * The checks of dpa_sendmsg and dpa_recvmsg: a NULL message, a NULL
   * iovec array with a nonzero count, or more than one iovec is EINVAL.
   * With no iovec the request is the empty buffer.
   */
  function MsgBuffer(msg: Option<FiMsg>): (r: Result<seq<byte>>)
    ensures r.Failure? <==> msg.None? || (msg.value.iovCount > 0 && msg.value.iov.None?) || msg.value.iovCount > 1
    ensures r.Failure? ==> r.error == EINVAL
    ensures r.Success? && msg.value.iovCount == 0 ==> r.value == []
    ensures r.Success? && msg.value.iovCount == 1 ==> r.value == msg.value.iov.value.base
  {
    if msg.None? || (msg.value.iovCount > 0 && msg.value.iov.None?) || msg.value.iovCount > 1 then Failure(EINVAL)
    else if msg.value.iovCount > 0 then Success(msg.value.iov.value.base)
    else Success([])
  }

  /** dpa_sendmsg: checks the message, then sends its one buffer (flags are dropped). */
  function SendMsg(ep: Endpoint, out: Ring, msg: Option<FiMsg>): (p: Posted)
    requires Shaped(out)
    ensures MsgBuffer(msg).Failure? ==> p == Posted(ep, out, Err(EINVAL))
    ensures MsgBuffer(msg).Success? ==> p == Send(ep, out, MsgBuffer(msg).value, msg.value.context)
  {
    match MsgBuffer(msg)
    case Failure(e) => Posted(ep, out, Err(e))
    case Success(buf) => Send(ep, out, buf, msg.value.context)
  }

  /** dpa_recvmsg: checks the message, then posts its one buffer as a receive with the given flags. */
  function RecvMsg(ep: Endpoint, inn: Ring, msg: Option<FiMsg>, flags: bv64): (p: Posted)
    requires ep.connected ==> Readable(inn)
    ensures MsgBuffer(msg).Failure? ==> p == Posted(ep, inn, Err(EINVAL))
    ensures MsgBuffer(msg).Success? ==> p == Recv(ep, inn, |MsgBuffer(msg).value|, flags, msg.value.context)
  {
    match MsgBuffer(msg)
    case Failure(e) => Posted(ep, inn, Err(e))
    case Success(buf) => Recv(ep, inn, |buf|, flags, msg.value.context)
  }

  // ---------------------------------------------------------------------
  // Queue processing (process_send_queue, process_recv_queue)

  /** The pending sends, oldest first, as attempted from the head until one finds no room. */
  function SendLoop(ep: Endpoint, out: Ring): (r: (Endpoint, Ring))
    requires Shaped(out)
    ensures Shaped(r.1) && r.1.cap == out.cap
    ensures r.0.rx == ep.rx && r.0.connected == ep.connected && r.0.batches == ep.batches
    ensures r.0.recvCq == ep.recvCq && r.0.recvCntr == ep.recvCntr
    decreases |ep.tx.queue|
  {
    if Lists.SEmpty(ep.tx.queue) then (ep, out)
    else
      var a := TrySendReq(ep, out, ep.tx.queue[0].req);
      if a.status == Err(EAGAIN) then (ep, out) else SendLoop(Retire(a.ep, true), a.ring)
  }

  /** process_send_queue: nothing before the endpoint is connected. */
  function ProcessSend(ep: Endpoint, out: Ring): (r: (Endpoint, Ring))
    requires Shaped(out)
    ensures Shaped(r.1) && r.1.cap == out.cap
    ensures !ep.connected ==> r == (ep, out)
  {
    if !ep.connected then (ep, out) else SendLoop(ep, out)
  }

  /** The pending receives, oldest first, each tried until nothing more has arrived. */
  function RecvLoop(ep: Endpoint, inn: Ring, ghost fs: seq<seq<byte>>): (r: (Endpoint, Ring))
    requires Valid(inn, fs)
    ensures Shaped(r.1) && r.1.cap == inn.cap
    ensures r.0.tx == ep.tx && r.0.connected == ep.connected && r.0.batches == ep.batches
    ensures r.0.sendCq == ep.sendCq && r.0.sendCntr == ep.sendCntr
    decreases |ep.rx.queue|
  {
    if Lists.SEmpty(ep.rx.queue) then (ep, inn)
    else
      RecvPopsFrame(inn, fs, ep.rx.queue[0].req.len);
      var a := TryRecvReq(ep, inn, ep.rx.queue[0].req);
      if a.status != Ok then (ep, inn) else RecvLoop(Retire(a.ep, false), a.ring, fs[1..])
  }

  /** process_recv_queue: nothing before the endpoint is connected. */
  function ProcessRecv(ep: Endpoint, inn: Ring, ghost fs: seq<seq<byte>>): (r: (Endpoint, Ring))
    requires Valid(inn, fs)
    ensures Shaped(r.1) && r.1.cap == inn.cap
    ensures !ep.connected ==> r == (ep, inn)
  {
    if !ep.connected then (ep, inn) else RecvLoop(ep, inn, fs)
  }

  /** The payloads of a run of queued sends. */
  function Payloads(q: seq<Entry>): (ps: seq<seq<byte>>)
    ensures |ps| == |q|
  {
    if q == [] then [] else [q[0].req.data] + Payloads(q[1..])
  }

  /** The send completions of a run of queued sends, as cq_add stores them. */
  function SendEvents(q: seq<Entry>): (es: seq<Cq.Event>)
    ensures |es| == |q|
  {
    if q == [] then [] else [Cq.Event(SendCompletion(q[0].req), FI_ADDR_NOTAVAIL)] + SendEvents(q[1..])
  }

  /** The receive completions of a run of queued receives matched with the frames they took. */
  function RecvEvents(q: seq<Entry>, fs: seq<seq<byte>>): (es: seq<Cq.Event>)
    requires |q| <= |fs|
    ensures |es| == |q|
    ensures forall i | 0 <= i < |q| ::
      es[i] == Cq.Event(RecvCompletion(q[i].req, fs[i][..Min(q[i].req.len, |fs[i]|)], |fs[i]|), FI_ADDR_NOTAVAIL)
  {
    seq(|q|, i requires 0 <= i < |q| =>
      Cq.Event(RecvCompletion(q[i].req, fs[i][..Min(q[i].req.len, |fs[i]|)], |fs[i]|), FI_ADDR_NOTAVAIL))
  }

  /** A queue after events were added, when one is bound. */
  function PostAll(cq: Option<Cq.Cq>, es: seq<Cq.Event>): Option<Cq.Cq>
  {
    if cq.None? then None else Some(Cq.AddAll(cq.value, es))
  }

  /** Payloads that can be carried as frames. */
  predicate Sendable(q: seq<Entry>)
  {
    forall i | 0 <= i < |q| :: 0 < |q[i].req.data| < WORD_LIMIT
  }

  /**
   * One round of process_send_queue: the head send goes out exactly when
   * its frame fits behind those in flight; then its entry is retired and
   * its completion posted, and processing carries on from there.
   */
  lemma SendLoopStep(ep: Endpoint, out: Ring, fs: seq<seq<byte>>) returns (ep1: Endpoint, out1: Ring)
    requires Valid(out, fs) && ep.tx.queue != [] && Sendable(ep.tx.queue)
    ensures var req := ep.tx.queue[0].req;
      && (|Stream(fs)| + HDR + |req.data| > out.cap ==> SendLoop(ep, out) == (ep, out))
      && (|Stream(fs)| + HDR + |req.data| <= out.cap ==>
            && Valid(out1, fs + [req.data]) && out1.cap == out.cap
            && ep1.tx.queue == ep.tx.queue[1..]
            && ep1.sendCq == PostAll(ep.sendCq, [Cq.Event(SendCompletion(req), FI_ADDR_NOTAVAIL)])
            && SendLoop(ep, out) == SendLoop(ep1, out1))
  {
    var req := ep.tx.queue[0].req;
    assert 0 < |req.data|;
    SendAppendsFrame(out, fs, req.data);
    var a := TrySendReq(ep, out, req);
    ep1 := Retire(a.ep, true);
    out1 := a.ring;
    if |Stream(fs)| + HDR + |req.data| <= out.cap {
      assert a.status == Ok;
      assert a.ep == Complete(ep, true, SendCompletion(req));
      assert ep1.sendCq == a.ep.sendCq;
      PostOne(ep.sendCq, Cq.Event(SendCompletion(req), FI_ADDR_NOTAVAIL));
    } else {
      assert a.status == Err(EAGAIN);
    }
  }

  /** Posting one event through PostAll is cq_add. */
  lemma PostOne(cq: Option<Cq.Cq>, ev: Cq.Event)
    requires ev.src == FI_ADDR_NOTAVAIL
    ensures PostAll(cq, [ev]) == Post(cq, ev.entry)
  {
    if cq.Some? {
      var c1 := Cq.Add(cq.value, ev.entry, ev.src).0;
      assert [ev][1..] == [];
      assert Cq.AddAll(cq.value, [ev]) == Cq.AddAll(c1, []);
    }
  }

  /**
   * What draining the send queue leaves after k sends went out: the rest
   * of the queue pending, the k payloads in flight behind the frames fs
   * that were there, their completions posted in order, and, if any send
   * is still pending, no room for the first of them.
   */
  ghost predicate SendDrained(ep: Endpoint, out: Ring, r: (Endpoint, Ring), fs: seq<seq<byte>>, k: nat)
  {
    var q := ep.tx.queue;
    && k <= |q|
    && r.0.tx.queue == q[k..]
    && Valid(r.1, fs + Payloads(q[..k]))
    && (k < |q| ==> |Stream(fs + Payloads(q[..k]))| + HDR + |q[k].req.data| > out.cap)
    && r.0.sendCq == PostAll(ep.sendCq, SendEvents(q[..k]))
  }

  /**
   * process_send_queue drains the queue in order: the first k pending
   * sends, and only they, go into the ring as frames behind those already
   * in flight, each with its completion in order; k stops short of the
   * whole queue only at a send that does not fit.
   */
  lemma {:induction false} SendLoopSpec(ep: Endpoint, out: Ring, fs: seq<seq<byte>>) returns (k: nat)
    requires Valid(out, fs) && Sendable(ep.tx.queue)
    ensures SendDrained(ep, out, SendLoop(ep, out), fs, k)
    decreases |ep.tx.queue|
  {
    if ep.tx.queue == [] {
      k := 0;
      SendDrainedNone(ep, out, fs);
      return;
    }
    var req := ep.tx.queue[0].req;
    var ep1, out1 := SendLoopStep(ep, out, fs);
    if |Stream(fs)| + HDR + |req.data| > out.cap {
      k := 0;
      SendDrainedNone(ep, out, fs);
      return;
    }
    assert Sendable(ep1.tx.queue);
    var j := SendLoopSpec(ep1, out1, fs + [req.data]);
    SendDrainedCons(ep, out, fs, ep1, out1, SendLoop(ep, out), j);
    k := j + 1;
  }

  /** When the queue is empty or its first send does not fit, nothing goes out. */
  lemma SendDrainedNone(ep: Endpoint, out: Ring, fs: seq<seq<byte>>)
    requires Valid(out, fs)
    requires ep.tx.queue != [] ==> |Stream(fs)| + HDR + |ep.tx.queue[0].req.data| > out.cap
    ensures SendDrained(ep, out, (ep, out), fs, 0)
  {
    assert ep.tx.queue[..0] == [];
    assert fs + [] == fs;
  }

  /** The inductive step of SendLoopSpec: one send out, then j more. */
  lemma SendDrainedCons(ep: Endpoint, out: Ring, fs: seq<seq<byte>>, ep1: Endpoint, out1: Ring, r: (Endpoint, Ring), j: nat)
    requires Valid(out, fs) && ep.tx.queue != []
    requires var req := ep.tx.queue[0].req;
      && Valid(out1, fs + [req.data]) && out1.cap == out.cap
      && ep1.tx.queue == ep.tx.queue[1..]
      && ep1.sendCq == PostAll(ep.sendCq, [Cq.Event(SendCompletion(req), FI_ADDR_NOTAVAIL)])
    requires SendDrained(ep1, out1, r, fs + [ep.tx.queue[0].req.data], j)
    ensures SendDrained(ep, out, r, fs, j + 1)
  {
    var q := ep.tx.queue;
    var ev := Cq.Event(SendCompletion(q[0].req), FI_ADDR_NOTAVAIL);
    RunCons(q, j);
    assert ep1.tx.queue[..j] == q[1..][..j];
    assert ep1.tx.queue[j..] == q[j + 1..];
    assert fs + Payloads(q[..j + 1]) == (fs + [q[0].req.data]) + Payloads(ep1.tx.queue[..j]);
    PostAllConcat(ep.sendCq, [ev], SendEvents(ep1.tx.queue[..j]));
    if j + 1 < |q| {
      assert q[j + 1] == ep1.tx.queue[j];
    }
  }

  /** A run of the queue is its head followed by a run of the rest. */
  lemma RunCons(q: seq<Entry>, j: nat)
    requires j < |q|
    ensures Payloads(q[..j + 1]) == [q[0].req.data] + Payloads(q[1..][..j])
    ensures SendEvents(q[..j + 1]) == [Cq.Event(SendCompletion(q[0].req), FI_ADDR_NOTAVAIL)] + SendEvents(q[1..][..j])
  {
    assert q[..j + 1][1..] == q[1..][..j];
  }

  lemma {:induction false} PostAllConcat(cq: Option<Cq.Cq>, a: seq<Cq.Event>, b: seq<Cq.Event>)
    ensures PostAll(PostAll(cq, a), b) == PostAll(cq, a + b)
  {
    if cq.Some? {
      AddAllConcat(cq.value, a, b);
    }
  }

  lemma {:induction false} AddAllConcat(cq: Cq.Cq, a: seq<Cq.Event>, b: seq<Cq.Event>)
    ensures Cq.AddAll(Cq.AddAll(cq, a), b) == Cq.AddAll(cq, a + b)
    decreases |a|
  {
    if a == [] {
      assert a + b == b;
    } else {
      assert (a + b)[0] == a[0] && (a + b)[1..] == a[1..] + b;
      AddAllConcat(Cq.Add(cq, a[0].entry, a[0].src).0, a[1..], b);
    }
  }

  /** The receive completion of a request that took frame f. */
  function RecvEvent(req: Request, f: seq<byte>): Cq.Event
  {
    Cq.Event(RecvCompletion(req, f[..Min(req.len, |f|)], |f|), FI_ADDR_NOTAVAIL)
  }

  /**
   * One round of process_recv_queue: the head receive completes exactly
   * when a frame is in flight, taking the first of them; its entry is
   * retired, its completion posted, and processing carries on.
   */
  lemma RecvLoopStep(ep: Endpoint, inn: Ring, fs: seq<seq<byte>>) returns (ep1: Endpoint, inn1: Ring)
    requires Valid(inn, fs) && ep.rx.queue != []
    ensures fs == [] ==> RecvLoop(ep, inn, fs) == (ep, inn)
    ensures fs != [] ==>
      && Valid(inn1, fs[1..])
      && ep1.rx.queue == ep.rx.queue[1..]
      && ep1.recvCq == PostAll(ep.recvCq, [RecvEvent(ep.rx.queue[0].req, fs[0])])
      && RecvLoop(ep, inn, fs) == RecvLoop(ep1, inn1, fs[1..])
  {
    var req := ep.rx.queue[0].req;
    RecvPopsFrame(inn, fs, req.len);
    var a := TryRecvReq(ep, inn, req);
    ep1 := Retire(a.ep, false);
    inn1 := a.ring;
    if fs != [] {
      assert a.status == Ok;
      assert ep1.recvCq == a.ep.recvCq;
      PostOne(ep.recvCq, RecvEvent(req, fs[0]));
    }
  }

  /**
   * What draining the receive queue leaves after k receives completed:
   * k is as many as there were both receives pending and frames in
   * flight, the rest of each stays, and the i-th receive's completion
   * carries the i-th frame.
   */
  ghost predicate RecvDrained(ep: Endpoint, r: (Endpoint, Ring), fs: seq<seq<byte>>, k: nat)
  {
    var q := ep.rx.queue;
    && k == Min(|q|, |fs|)
    && r.0.rx.queue == q[k..]
    && Valid(r.1, fs[k..])
    && r.0.recvCq == PostAll(ep.recvCq, RecvEvents(q[..k], fs[..k]))
  }

  /**
   * process_recv_queue drains the queue in order: the i-th pending
   * receive takes the i-th frame in flight, as many as there are of both;
   * each gets a completion carrying the first min(len, size) bytes of its
   * frame, and the frames not taken stay in flight.
   */
  lemma {:induction false} RecvLoopSpec(ep: Endpoint, inn: Ring, fs: seq<seq<byte>>) returns (k: nat)
    requires Valid(inn, fs)
    ensures RecvDrained(ep, RecvLoop(ep, inn, fs), fs, k)
    decreases |ep.rx.queue|
  {
    if ep.rx.queue == [] {
      k := 0;
      assert fs[k..] == fs;
      return;
    }
    var ep1, inn1 := RecvLoopStep(ep, inn, fs);
    if fs == [] {
      k := 0;
      return;
    }
    var j := RecvLoopSpec(ep1, inn1, fs[1..]);
    RecvDrainedCons(ep, fs, ep1, RecvLoop(ep, inn, fs), j);
    k := j + 1;
  }

  /** The inductive step of RecvLoopSpec: one receive completed, then j more. */
  lemma RecvDrainedCons(ep: Endpoint, fs: seq<seq<byte>>, ep1: Endpoint, r: (Endpoint, Ring), j: nat)
    requires ep.rx.queue != [] && fs != []
    requires ep1.rx.queue == ep.rx.queue[1..]
    requires ep1.recvCq == PostAll(ep.recvCq, [RecvEvent(ep.rx.queue[0].req, fs[0])])
    requires RecvDrained(ep1, r, fs[1..], j)
    ensures RecvDrained(ep, r, fs, j + 1)
  {
    var q := ep.rx.queue;
    var head := [RecvEvent(q[0].req, fs[0])];
    var rest := RecvEvents(q[1..][..j], fs[1..][..j]);
    RecvRunCons(q, fs, j);
    assert ep1.rx.queue[..j] == q[1..][..j];
    assert r.0.recvCq == PostAll(PostAll(ep.recvCq, head), rest);
    PostAllConcat(ep.recvCq, head, rest);
    assert ep1.rx.queue[j..] == q[j + 1..];
    assert fs[1..][j..] == fs[j + 1..];
  }

  /** A matched run of receives is the head receive's completion followed by a run of the rest. */
  lemma RecvRunCons(q: seq<Entry>, fs: seq<seq<byte>>, j: nat)
    requires j < |q| && j < |fs|
    ensures RecvEvents(q[..j + 1], fs[..j + 1]) == [RecvEvent(q[0].req, fs[0])] + RecvEvents(q[1..][..j], fs[1..][..j])
  {
    var a := RecvEvents(q[..j + 1], fs[..j + 1]);
    var b := [RecvEvent(q[0].req, fs[0])] + RecvEvents(q[1..][..j], fs[1..][..j]);
    assert |a| == |b|;
    forall i | 0 <= i < |a|
      ensures a[i] == b[i]
    {
      if i > 0 {
        assert q[..j + 1][i] == q[1..][..j][i - 1];
        assert fs[..j + 1][i] == fs[1..][..j][i - 1];
      }
    }
  }

  // ---------------------------------------------------------------------
  // Progress (progress_queue, progress_sendrecv_queues)

  /**
   * progress_queue's timing: a negative timeout waits without limit; a
   * zero one does not wait. A wait that times out leaves no budget; a
   * wait that fails otherwise returns 0 without processing. Returns
   * whether the queue is processed and the budget handed back.
   */
  function ProgressStep(b: Budget, wait: HwError): (r: (bool, Budget))
    ensures b == Finite(0) ==> r == (true, Finite(0))
    ensures b != Finite(0) && wait == HwOk ==> r == (true, b)
    ensures b != Finite(0) && wait == HwTimeout ==> r == (true, Finite(0))
    ensures b != Finite(0) && wait !in {HwOk, HwTimeout} ==> r == (false, Finite(0))
  {
    if b == Finite(0) then (true, b)
    else if wait == HwTimeout then (true, Finite(0))
    else if wait != HwOk then (false, Finite(0))
    else (true, b)
  }

  /**
   * progress_sendrecv_queues: the send queue with the caller's timeout,
   * then the receive queue with what the send side handed back. Returns
   * whether each queue is processed and the final budget. The send side
   * is skipped only when its wait fails; the receive side waits only when
   * the send side's wait ended with an interrupt, so a zero timeout, or a
   * send-side timeout or failure, leaves it polling; the budget comes back
   * whole only when both waits ended with an interrupt.
   */
  function ProgressBoth(timeout: int, sendWait: HwError, recvWait: HwError): (r: (bool, bool, Budget))
    ensures r.0 <==> timeout == 0 || sendWait in {HwOk, HwTimeout}
    ensures r.1 <==> timeout == 0 || sendWait != HwOk || recvWait in {HwOk, HwTimeout}
    ensures r.2 == if timeout != 0 && sendWait == HwOk && recvWait == HwOk then BudgetOf(timeout) else Finite(0)
    ensures timeout < 0 && sendWait == HwOk && recvWait == HwOk ==> r.2 == Infinite
  {
    var s := ProgressStep(BudgetOf(timeout), sendWait);
    var v := ProgressStep(s.1, recvWait);
    (s.0, v.0, v.1)
  }

  /** What a progress run leaves: the endpoint, both rings, and the budget handed back. */
  datatype Progressed = Progressed(ep: Endpoint, out: Ring, inn: Ring, budget: Budget)

  /**
   * progress_sendrecv_queues on one endpoint: each queue is processed
   * unless its wait failed, the receive side with the budget the send
   * side handed back.
   */
  function ProgressSendRecv(ep: Endpoint, out: Ring, inn: Ring, ghost fs: seq<seq<byte>>,
                            timeout: int, sendWait: HwError, recvWait: HwError): (r: Progressed)
    requires Shaped(out) && Valid(inn, fs)
    ensures r.budget == ProgressBoth(timeout, sendWait, recvWait).2
    ensures !ProgressBoth(timeout, sendWait, recvWait).0 ==> r.out == out && r.ep.tx == ep.tx
    ensures !ProgressBoth(timeout, sendWait, recvWait).1 ==> r.inn == inn && r.ep.rx == ep.rx
    ensures !ep.connected ==> r == Progressed(ep, out, inn, r.budget)
  {
    var (doSend, doRecv, budget) := ProgressBoth(timeout, sendWait, recvWait);
    var s := if doSend then ProcessSend(ep, out) else (ep, out);
    assert s.0.rx == ep.rx && s.0.connected == ep.connected;
    var v := if doRecv then ProcessRecv(s.0, inn, fs) else (s.0, inn);
    Progressed(v.0, s.1, v.1, budget)
  }

  /**
   * With a zero timeout nothing waits and both queues are processed, send
   * side first.
   */
  lemma ProgressPollsBoth(ep: Endpoint, out: Ring, inn: Ring, fs: seq<seq<byte>>, sendWait: HwError, recvWait: HwError)
    requires Shaped(out) && Valid(inn, fs)
    ensures var r := ProgressSendRecv(ep, out, inn, fs, 0, sendWait, recvWait);
      var s := ProcessSend(ep, out);
      && r.out == s.1
      && (r.ep, r.inn) == ProcessRecv(s.0, inn, fs)
      && r.budget == Finite(0)
  {
  }

  // ---------------------------------------------------------------------
  // Two connected endpoints

  /**
   * What one endpoint contributes to its connection: its local buffer
   * (the status word the peer publishes its read cursor into, and the
   * data area the peer writes frames into), its send cursor, its receive
   * cursor.
   */
  datatype Wire = Wire(status: nat, data: seq<byte>, write: nat, read: nat)

  /** Two connected endpoints a and b whose data areas hold cap bytes each. */
  datatype Link = Link(cap: nat, a: Endpoint, b: Endpoint, wa: Wire, wb: Wire)

  /**
   * The ring of one direction. The writer's credit comes from its own
   * buffer's status word (the remote status the reader writes into); the
   * frames go into the reader's data area.
   */
  function Channel(l: Link, fromA: bool): (r: Ring)
    ensures r.cap == l.cap
  {
    if fromA then Ring(l.cap, l.wb.data, l.wa.write, l.wb.read, l.wa.status)
    else Ring(l.cap, l.wa.data, l.wb.write, l.wa.read, l.wb.status)
  }

  /** The link after one direction's ring changed. */
  function WithChannel(l: Link, fromA: bool, r: Ring): Link
  {
    if fromA then l.(wb := l.wb.(data := r.mem, read := r.read), wa := l.wa.(write := r.write, status := r.published))
    else l.(wa := l.wa.(data := r.mem, read := r.read), wb := l.wb.(write := r.write, status := r.published))
  }

  /** The two directions share no state: updating one leaves the other as it was. */
  lemma ChannelsIndependent(l: Link, fromA: bool, r: Ring)
    requires r.cap == l.cap
    ensures Channel(WithChannel(l, fromA, r), fromA) == r
    ensures Channel(WithChannel(l, fromA, r), !fromA) == Channel(l, !fromA)
  {
  }

  /** The endpoint on either side. */
  function EndOf(l: Link, isA: bool): Endpoint
  {
    if isA then l.a else l.b
  }

  function WithEnd(l: Link, isA: bool, ep: Endpoint): Link
  {
    if isA then l.(a := ep) else l.(b := ep)
  }

  /** fi_send on one endpoint of the link: only its outgoing channel and its own state can change. */
  function LinkSend(l: Link, fromA: bool, data: seq<byte>, context: nat): (r: Link)
    requires Shaped(Channel(l, fromA))
    ensures Channel(r, !fromA) == Channel(l, !fromA) && EndOf(r, !fromA) == EndOf(l, !fromA)
  {
    var p := Send(EndOf(l, fromA), Channel(l, fromA), data, context);
    ChannelsIndependent(l, fromA, p.ring);
    WithEnd(WithChannel(l, fromA, p.ring), fromA, p.ep)
  }

  /** Processing the receive queue of one endpoint: only its incoming channel and its own state can change. */
  function LinkProcessRecv(l: Link, atA: bool, ghost fs: seq<seq<byte>>): (r: Link)
    requires Valid(Channel(l, !atA), fs)
    ensures Channel(r, atA) == Channel(l, atA) && EndOf(r, !atA) == EndOf(l, !atA)
  {
    var p := ProcessRecv(EndOf(l, atA), Channel(l, !atA), fs);
    ChannelsIndependent(l, !atA, p.1);
    WithEnd(WithChannel(l, !atA, p.1), atA, p.0)
  }

  /**
   * A send on an idle, connected endpoint whose frame fits goes straight
   * into its outgoing channel.
   */
  lemma LinkSendDelivers(l: Link, fromA: bool, fs: seq<seq<byte>>, p: seq<byte>, context: nat)
    requires Valid(Channel(l, fromA), fs) && EndOf(l, fromA).connected && EndOf(l, fromA).tx.queue == []
    requires 0 < |p| && |Stream(fs)| + HDR + |p| <= l.cap
    ensures Valid(Channel(LinkSend(l, fromA, p, context), fromA), fs + [p])
    ensures EndOf(LinkSend(l, fromA, p, context), fromA).tx.queue == []
  {
    var out := Channel(l, fromA);
    SendAppendsFrame(out, fs, p);
    var sp := Send(EndOf(l, fromA), out, p, context);
    assert sp.ring == TrySendFixed(out, p).ring;
    ChannelsIndependent(l, fromA, sp.ring);
  }

  /**
   * Processing the receive queue on a connected endpoint with one receive
   * pending and frame f first in flight: the receive completes with f's
   * completion and the rest of the frames stay in flight.
   */
  lemma LinkRecvTakes(l: Link, atA: bool, f: seq<byte>, fs: seq<seq<byte>>, e: Entry, cq: Cq.Cq)
    requires Valid(Channel(l, !atA), [f] + fs) && EndOf(l, atA).connected
    requires EndOf(l, atA).rx.queue == [e] && EndOf(l, atA).recvCq == Some(cq)
    ensures var l2 := LinkProcessRecv(l, atA, [f] + fs);
      && Valid(Channel(l2, !atA), fs)
      && EndOf(l2, atA).rx.queue == []
      && EndOf(l2, atA).recvCq == Some(Cq.Add(cq, RecvEvent(e.req, f).entry, FI_ADDR_NOTAVAIL).0)
  {
    var ep := EndOf(l, atA);
    var inn := Channel(l, !atA);
    var k := RecvLoopSpec(ep, inn, [f] + fs);
    var pr := ProcessRecv(ep, inn, [f] + fs);
    assert k == 1;
    assert ([f] + fs)[1..] == fs;
    assert RecvEvents(ep.rx.queue[..1], ([f] + fs)[..1]) == [RecvEvent(e.req, f)];
    PostOne(Some(cq), RecvEvent(e.req, f));
    ChannelsIndependent(l, !atA, pr.1);
  }

  /**
   * A message end to end: on an idle connection, a sends p; b, with one
   * receive of len bytes pending, processes its queue. b's receive queue
   * empties and its completion carries the first min(len, |p|) bytes of
   * p, with olen the rest; the channel is idle again.
   */
  lemma RoundTrip(l: Link, p: seq<byte>, e: Entry, cq: Cq.Cq)
    requires Valid(Channel(l, true), []) && l.a.connected && l.a.tx.queue == [] && l.b.connected
    requires 0 < |p| && HDR + |p| <= l.cap
    requires l.b.rx.queue == [e] && l.b.recvCq == Some(cq)
    ensures var l1 := LinkSend(l, true, p, e.req.context);
      && Valid(Channel(l1, true), [p])
      && var l2 := LinkProcessRecv(l1, false, [p]);
      && Valid(Channel(l2, true), [])
      && l2.b.rx.queue == []
      && l2.b.recvCq == Some(Cq.Add(cq, RecvCompletion(e.req, p[..Min(e.req.len, |p|)], |p|), FI_ADDR_NOTAVAIL).0)
  {
    assert |Stream([])| == 0;
    LinkSendDelivers(l, true, [], p, e.req.context);
    var l1 := LinkSend(l, true, p, e.req.context);
    assert [] + [p] == [p] + [] == [p];
    assert l1.b == l.b;
    LinkRecvTakes(l1, false, p, [], e, cq);
  }
}
