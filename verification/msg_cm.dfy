/**
 * Connection bookkeeping for messaging (dpa_msg_cm.c, dpa_msg_cm.h).
 *
 * Receive buffers are carved out of local data segments, created on
 * demand with consecutive segment ids. A listening endpoint publishes, for
 * each connection it accepts, a control slot holding the location and
 * interrupt ids of the receive buffer it reserved; the connecting side
 * scans the listener's control segment for the slot carrying its own node
 * id, reserves a buffer of its own and writes its metadata back into the
 * slot. Each side then connects to the other's buffer and interrupts.
 *
 * Shared-memory publication is modelled as a sequence of field stores
 * applied in program order; the hardware library is an oracle whose
 * answers are parameters. Spin-waits on remote memory are not loops here:
 * a scan that would spin is reported as such.
 */
module MsgCm {
  import opened Bytes
  import opened Fabric
  import Eq

  /** The tunables dpa_cm_init may override from the environment. */
  datatype Config = Config(bufferSize: nat, perSegment: nat, minSegmId: nat, maxSegmId: nat)

  /** BUFFER_SIZE 64 KiB, 16 buffers per segment, message segment ids from 2^31 up to 2^31 + 1024. */
  const DEFAULT := Config(64 * 1024, 16, 0x8000_0000, 0x8000_0000 + 1024)

  /** NUM_SEGMENTS: a difference of two unsigned 32-bit segment ids. */
  function NumSegments(cfg: Config): (n: nat)
    ensures n < U32_LIMIT
    ensures cfg.minSegmId <= cfg.maxSegmId < U32_LIMIT ==> n == cfg.maxSegmId - cfg.minSegmId
  {
    (cfg.maxSegmId - cfg.minSegmId) % U32_LIMIT
  }

  /** MAX_PEERS: one control slot per receive buffer. */
  function MaxPeers(cfg: Config): nat
  {
    NumSegments(cfg) * cfg.perSegment
  }

  function DataSegmentSize(cfg: Config): nat
  {
    cfg.bufferSize * cfg.perSegment
  }

  /** offsetof(buffer_status, data): the read-cursor word in front of each receive buffer. */
  const STATUS_HDR: nat := 8

  // Local data segments and their buffers

  /**
   * local_buffer_info with the two words of its buffer that allocation
   * clears: offset from the segment base, reserved size (0 when free),
   * the published read cursor and the first frame header.
   */
  datatype Buffer = Buffer(offset: nat, size: nat, statusRead: nat, firstHeader: nat)

  /** msg_local_segment_info: segment id 0 means the segment is not created. */
  datatype LocalSegment = LocalSegment(segmentId: nat, buffers: seq<Buffer>)

  /** assign_data.currentSegmentId and local_segments_info. */
  datatype Pool = Pool(current: nat, segments: seq<LocalSegment>)

  predicate InUse(b: Buffer)
  {
    b.size != 0
  }

  predicate Full(s: LocalSegment)
  {
    forall k | 0 <= k < |s.buffers| :: InUse(s.buffers[k])
  }

  /** The buffers of a new data segment: free, BUFFER_SIZE apart from the segment base. */
  function Carve(cfg: Config): (bs: seq<Buffer>)
    ensures |bs| == cfg.perSegment
    ensures forall j | 0 <= j < |bs| :: bs[j] == Buffer(j * cfg.bufferSize, 0, 0, 0)
  {
    seq(cfg.perSegment, j requires 0 <= j < cfg.perSegment => Buffer(j * cfg.bufferSize, 0, 0, 0))
  }

  /** Carved buffers lie inside the data segment and do not overlap. */
  lemma CarveDisjoint(cfg: Config, j: nat, k: nat)
    requires j < k < cfg.perSegment
    ensures Carve(cfg)[j].offset + cfg.bufferSize <= Carve(cfg)[k].offset
    ensures Carve(cfg)[k].offset + cfg.bufferSize <= DataSegmentSize(cfg)
  {
    var b := cfg.bufferSize;
    assert (j + 1) * b <= k * b by { MulMono(j + 1, k, b); }
    assert (k + 1) * b <= cfg.perSegment * b by { MulMono(k + 1, cfg.perSegment, b); }
  }

  lemma MulMono(x: nat, y: nat, b: nat)
    requires x <= y
    ensures x * b <= y * b
  {
  }

  /** Segments already created are left exactly as they were; the table keeps its length. */
  predicate Grows(p: Pool, q: Pool)
  {
    |q.segments| == |p.segments|
    && forall t | 0 <= t < |p.segments| && p.segments[t].segmentId != 0 :: q.segments[t] == p.segments[t]
  }

  /**
   * create_data_segment: allocate a data segment with the current id.
   * On failure the slot's id is reset to 0 and the current id kept; on
   * success the buffers are carved and the current id advances.
   */
  function CreateDataSegment(cfg: Config, p: Pool, i: nat, hw: HwError): (r: Pool)
    requires i < |p.segments| && p.segments[i].segmentId == 0
    ensures Grows(p, r)
    ensures hw != HwOk ==> r.current == p.current && r.segments[i].segmentId == 0
    ensures hw == HwOk ==> r.current == (p.current + 1) % U32_LIMIT && r.segments[i] == LocalSegment(p.current, Carve(cfg))
  {
    if hw != HwOk then p.(segments := p.segments[i := p.segments[i].(segmentId := 0)])
    else Pool((p.current + 1) % U32_LIMIT, p.segments[i := LocalSegment(p.current, Carve(cfg))])
  }

  /**
   * The retry loop in get_empty_buffer: create segment i until it exists,
   * taking each attempt's outcome in turn. None when the attempts run out
   * first (the loop would keep spinning).
   */
  function EnsureCreated(cfg: Config, p: Pool, i: nat, attempts: seq<HwError>): (r: Option<(Pool, seq<HwError>)>)
    requires i < |p.segments|
    ensures r.Some? ==> Grows(p, r.value.0) && r.value.0.segments[i].segmentId != 0
    ensures r.Some? && p.segments[i].segmentId != 0 ==> r.value == (p, attempts)
    decreases |attempts|
  {
    if p.segments[i].segmentId != 0 then Some((p, attempts))
    else if attempts == [] then None
    else EnsureCreated(cfg, CreateDataSegment(cfg, p, i, attempts[0]), i, attempts[1..])
  }

  /** The first free buffer of a segment. */
  function FirstFree(bs: seq<Buffer>): (r: Option<nat>)
    ensures r.Some? ==> r.value < |bs| && !InUse(bs[r.value]) && forall k | 0 <= k < r.value :: InUse(bs[k])
    ensures r.None? ==> forall k | 0 <= k < |bs| :: InUse(bs[k])
  {
    if bs == [] then None
    else if !InUse(bs[0]) then Some(0)
    else match FirstFree(bs[1..])
      case None => None
      case Some(j) => Some(j + 1)
  }

  /** Outcome of get_empty_buffer. */
  datatype Search = Found(pool: Pool, seg: nat, buf: nat, rest: seq<HwError>) | NoFree(pool: Pool, rest: seq<HwError>) | Spins

  /**
   * get_empty_buffer from segment i on: make sure each segment exists,
   * then take its first free buffer; move to the next segment when it is
   * full. NoFree after the last segment.
   */
  function GetEmpty(cfg: Config, p: Pool, i: nat, attempts: seq<HwError>): (r: Search)
    ensures r.Found? ==>
      && Grows(p, r.pool) && i <= r.seg < |r.pool.segments|
      && r.buf < |r.pool.segments[r.seg].buffers| && !InUse(r.pool.segments[r.seg].buffers[r.buf])
      && (forall k | 0 <= k < r.buf :: InUse(r.pool.segments[r.seg].buffers[k]))
      && (forall t | i <= t < r.seg :: Full(r.pool.segments[t]) && r.pool.segments[t].segmentId != 0)
      && r.pool.segments[r.seg].segmentId != 0
    ensures r.NoFree? ==>
      Grows(p, r.pool) && forall t | i <= t < |r.pool.segments| :: Full(r.pool.segments[t]) && r.pool.segments[t].segmentId != 0
    decreases |p.segments| - i
  {
    if i >= |p.segments| then NoFree(p, attempts)
    else match EnsureCreated(cfg, p, i, attempts)
      case None => Spins
      case Some((p1, rest)) =>
        match FirstFree(p1.segments[i].buffers)
        case Some(j) => Found(p1, i, j, rest)
        case None => GetEmpty(cfg, p1, i + 1, rest)
  }

  /** Reserving a buffer: BUFFER_SIZE bytes, read cursor and first header cleared. */
  function Reserve(cfg: Config, p: Pool, s: nat, b: nat): (r: Pool)
    requires s < |p.segments| && b < |p.segments[s].buffers|
    ensures |r.segments| == |p.segments| && r.current == p.current
    ensures |r.segments[s].buffers| == |p.segments[s].buffers|
      && r.segments[s].buffers[b] == Buffer(p.segments[s].buffers[b].offset, cfg.bufferSize, 0, 0)
  {
    var seg := p.segments[s];
    var buf := seg.buffers[b].(size := cfg.bufferSize, statusRead := 0, firstHeader := 0);
    p.(segments := p.segments[s := seg.(buffers := seg.buffers[b := buf])])
  }

  // Control slots and publication

  /** segment_data: where a receive buffer lives and its interrupt ids. */
  datatype SegmentData = SegmentData(segmentId: nat, offset: nat, size: nat, recvIrq: nat, sendIrq: nat)

  const NO_DATA := SegmentData(0, 0, 0, 0, 0)

  /** control_data: one accepted peer's node and both sides' buffer metadata. */
  datatype Slot = Slot(nodeId: nat, local: SegmentData, remote: SegmentData)

  const FREE_SLOT := Slot(0, NO_DATA, NO_DATA)

  /** Fields of a control slot's local segment data, and its node id. */
  datatype Field = SegmentIdField | OffsetField | SizeField | RecvIrqField | SendIrqField | NodeIdField

  /** One store to a shared field, in program order. */
  datatype Put = Put(field: Field, value: nat)

  function PutSlot(s: Slot, w: Put): Slot
  {
    match w.field
    case NodeIdField => s.(nodeId := w.value)
    case SegmentIdField => s.(local := s.local.(segmentId := w.value))
    case OffsetField => s.(local := s.local.(offset := w.value))
    case SizeField => s.(local := s.local.(size := w.value))
    case RecvIrqField => s.(local := s.local.(recvIrq := w.value))
    case SendIrqField => s.(local := s.local.(sendIrq := w.value))
  }

  /** A slot after the stores ws, in order. */
  function Apply(s: Slot, ws: seq<Put>): Slot
    decreases |ws|
  {
    if ws == [] then s else PutSlot(Apply(s, ws[..|ws| - 1]), ws[|ws| - 1])
  }

  // Allocating a receive buffer (alloc_msg_buffer)

  /** Hardware handles an endpoint holds for messaging. */
  datatype Handle = RecvSd | RecvIrq | SendSd | SendIrq | RemoteSegment | RemoteMap | SendRemoteIrq | RecvRemoteIrq

  /** The handles alloc_msg_buffer acquires, in order: descriptor and interrupt for receive, then for send. */
  const ALLOC_STEPS: seq<Handle> := [RecvSd, RecvIrq, SendSd, SendIrq]

  /** The library's answers to alloc_msg_buffer's four calls, and the interrupt ids it hands out. */
  datatype HwAlloc = HwAlloc(recvOpen: HwError, recvIrq: HwError, sendOpen: HwError, sendIrq: HwError, recvIrqId: nat, sendIrqId: nat)

  function StepError(hw: HwAlloc, k: nat): HwError
  {
    if k == 0 then hw.recvOpen else if k == 1 then hw.recvIrq else if k == 2 then hw.sendOpen else hw.sendIrq
  }

  /** The index of the first call that fails, 4 when none does. */
  function FailsAt(hw: HwAlloc): (k: nat)
    ensures k <= 4
    ensures forall s | 0 <= s < k :: StepError(hw, s) == HwOk
    ensures k < 4 ==> StepError(hw, k) != HwOk
  {
    if hw.recvOpen != HwOk then 0
    else if hw.recvIrq != HwOk then 1
    else if hw.sendOpen != HwOk then 2
    else if hw.sendIrq != HwOk then 3
    else 4
  }

  /**
   * The release calls alloc_msg_buffer's error labels make when call k
   * fails: the send descriptor where the receive descriptor is meant, and
   * twice when the send interrupt fails.
   */
  function CleanupAsWritten(k: nat): seq<Handle>
  {
    if k == 1 then [SendSd]
    else if k == 2 then [RecvIrq, SendSd]
    else if k == 3 then [SendSd, RecvIrq, SendSd]
    else []
  }

  function Reverse<T>(s: seq<T>): (r: seq<T>)
    ensures |r| == |s|
  {
    if s == [] then [] else Reverse(s[1..]) + [s[0]]
  }

  lemma {:induction false} ReverseMultiset<T>(s: seq<T>)
    ensures multiset(Reverse(s)) == multiset(s)
  {
    if s != [] {
      ReverseMultiset(s[1..]);
      assert s == [s[0]] + s[1..];
    }
  }

  /** Corrected cleanup: release what was acquired, most recent first. */
  function Cleanup(k: nat): (r: seq<Handle>)
    requires k <= 4
    ensures |r| == k
  {
    Reverse(ALLOC_STEPS[..k])
  }

  /** The corrected cleanup releases each acquired handle exactly once. */
  lemma CleanupReleasesAcquired(k: nat)
    requires k <= 4
    ensures multiset(Cleanup(k)) == multiset(ALLOC_STEPS[..k])
  {
    ReverseMultiset(ALLOC_STEPS[..k]);
  }

  /**
   * As written, every failure after the receive descriptor is open leaks
   * it, and releases a send descriptor that is not open (calls 1 and 2)
   * or releases it twice (call 3).
   */
  lemma CleanupAsWrittenLeaks(k: nat)
    requires 1 <= k <= 3
    ensures RecvSd in ALLOC_STEPS[..k] && RecvSd !in CleanupAsWritten(k)
    ensures k < 3 ==> SendSd !in ALLOC_STEPS[..k] && SendSd in CleanupAsWritten(k)
    ensures k == 3 ==> multiset(CleanupAsWritten(k))[SendSd] == 2 && multiset(ALLOC_STEPS[..k])[SendSd] == 1
    ensures multiset(CleanupAsWritten(k)) != multiset(Cleanup(k))
  {
    CleanupReleasesAcquired(k);
    if k == 1 {
      assert ALLOC_STEPS[..1] == [RecvSd];
    } else if k == 2 {
      assert ALLOC_STEPS[..2] == [RecvSd, RecvIrq];
    } else {
      assert ALLOC_STEPS[..3] == [RecvSd, RecvIrq, SendSd];
    }
    assert multiset(ALLOC_STEPS[..k])[RecvSd] == 1;
  }

  /**
   * What alloc_msg_buffer leaves: the pool, the buffer reserved (segment
   * and index), the handles acquired and released, the stores made to the
   * slot's local segment data, and the error.
   */
  datatype Alloc = Alloc(pool: Pool, reserved: Option<(nat, nat)>, acquired: seq<Handle>, released: seq<Handle>,
                         stores: seq<Put>, error: HwError)

  /** The stores alloc_msg_buffer makes on success: interrupt ids, then segment id, offset, and size last. */
  function Publish(hw: HwAlloc, segmentId: nat, offset: nat, size: nat): seq<Put>
  {
    [Put(RecvIrqField, hw.recvIrqId), Put(SendIrqField, hw.sendIrqId),
     Put(SegmentIdField, segmentId), Put(OffsetField, offset), Put(SizeField, size)]
  }

  /**
   * alloc_msg_buffer: find a free buffer (DPA_ERR_SYSTEM when none), open
   * the receive descriptor and create its interrupt, open the send
   * descriptor and create its interrupt (each interrupt id lands in the
   * slot as it is created), then reserve the buffer and publish segment
   * id, offset and size. None when segment creation keeps failing. The
   * failure paths release what CleanupAsWritten lists.
   */
  function AllocMsgBuffer(cfg: Config, p: Pool, attempts: seq<HwError>, hw: HwAlloc): (r: Option<Alloc>)
    ensures r.Some? && r.value.error == HwOk ==>
      && r.value.reserved.Some? && r.value.acquired == ALLOC_STEPS && r.value.released == []
      && var (s, b) := r.value.reserved.value;
      && s < |r.value.pool.segments| && b < |r.value.pool.segments[s].buffers|
      && r.value.stores == Publish(hw, r.value.pool.segments[s].segmentId, r.value.pool.segments[s].buffers[b].offset, cfg.bufferSize)
    ensures r.Some? && r.value.error != HwOk ==>
      r.value.reserved.None? && forall i | 0 <= i < |r.value.stores| :: r.value.stores[i].field == RecvIrqField
  {
    match GetEmpty(cfg, p, 0, attempts)
    case Spins => None
    case NoFree(q, _) => Some(Alloc(q, None, [], [], [], HwSystem))
    case Found(q, s, b, _) =>
      var k := FailsAt(hw);
      if k < 4 then
        var ids := if k >= 2 then [Put(RecvIrqField, hw.recvIrqId)] else [];
        Some(Alloc(q, None, ALLOC_STEPS[..k], CleanupAsWritten(k), ids, StepError(hw, k)))
      else
        var q1 := Reserve(cfg, q, s, b);
        Some(Alloc(q1, Some((s, b)), ALLOC_STEPS, [], Publish(hw, q.segments[s].segmentId, q.segments[s].buffers[b].offset, cfg.bufferSize), HwOk))
  }

  /** alloc_msg_buffer with the corrected cleanup. */
  function AllocMsgBufferFixed(cfg: Config, p: Pool, attempts: seq<HwError>, hw: HwAlloc): (r: Option<Alloc>)
    ensures r.Some? ==> multiset(r.value.released) <= multiset(r.value.acquired)
    ensures r.Some? && r.value.error != HwOk ==> multiset(r.value.released) == multiset(r.value.acquired)
    ensures r.Some? <==> AllocMsgBuffer(cfg, p, attempts, hw).Some?
    ensures r.Some? ==> r.value == AllocMsgBuffer(cfg, p, attempts, hw).value.(released := r.value.released)
  {
    match AllocMsgBuffer(cfg, p, attempts, hw)
    case None => None
    case Some(a) =>
      if a.error == HwOk then Some(a)
      else
        var k := |a.acquired|;
        assert k < 4 && a.acquired == ALLOC_STEPS[..k] by {
          if GetEmpty(cfg, p, 0, attempts).NoFree? { assert a.acquired == ALLOC_STEPS[..0]; }
        }
        CleanupReleasesAcquired(k);
        Some(a.(released := Cleanup(k)))
  }

  /**
   * The allocation's metadata appears last-field-last: until the final
   * store the slot's size still reads 0, so a reader that waits for a
   * nonzero size sees the other four fields already in place.
   */
  lemma SizeStoredLast(s: Slot, hw: HwAlloc, segmentId: nat, offset: nat, size: nat, n: nat)
    requires s.local.size == 0 && n < 5
    ensures Apply(s, Publish(hw, segmentId, offset, size)[..n]).local.size == 0
    ensures Apply(s, Publish(hw, segmentId, offset, size)).local
      == SegmentData(segmentId, offset, size, hw.recvIrqId, hw.sendIrqId)
    ensures Apply(s, Publish(hw, segmentId, offset, size)).nodeId == s.nodeId
  {
    var ws := Publish(hw, segmentId, offset, size);
    StoresKeep(s, ws, n, SizeField);
    StoresKeep(s, ws, 5, NodeIdField);
    assert ws[..5] == ws;
    assert ws[..5][..4] == ws[..4];
    assert ws[..4][..3] == ws[..3];
    assert ws[..3][..2] == ws[..2];
    assert ws[..2][..1] == ws[..1];
    assert ws[..1][..0] == [];
    var a1 := Apply(s, ws[..1]);
    var a2 := Apply(s, ws[..2]);
    var a3 := Apply(s, ws[..3]);
    var a4 := Apply(s, ws[..4]);
    assert a1.local.recvIrq == hw.recvIrqId;
    assert a2.local.recvIrq == hw.recvIrqId && a2.local.sendIrq == hw.sendIrqId;
    assert a3.local.segmentId == segmentId;
    assert a4.local.offset == offset && a4.local.segmentId == segmentId;
  }

  /** The value a slot holds in one field. */
  function Get(s: Slot, f: Field): nat
  {
    match f
    case NodeIdField => s.nodeId
    case SegmentIdField => s.local.segmentId
    case OffsetField => s.local.offset
    case SizeField => s.local.size
    case RecvIrqField => s.local.recvIrq
    case SendIrqField => s.local.sendIrq
  }

  /** Stores to other fields leave a field as it was. */
  lemma {:induction false} StoresKeep(s: Slot, ws: seq<Put>, n: nat, f: Field)
    requires n <= |ws| && forall i | 0 <= i < n :: ws[i].field != f
    ensures Get(Apply(s, ws[..n]), f) == Get(s, f)
  {
    if n > 0 {
      assert ws[..n][..n - 1] == ws[..n - 1];
      StoresKeep(s, ws, n - 1, f);
    }
  }

  /** The control segment: its slots and control_index, the next slot to fill. */
  datatype Control = Control(slots: seq<Slot>, index: nat)

  predicate Live(s: Slot)
  {
    s.nodeId != 0 && s.local.size > 0
  }

  /** A slot no scan stops at or steps over: no node id and no published size. */
  predicate Clear(s: Slot)
  {
    s.nodeId == 0 && s.local.size == 0
  }

  /** Slots below control_index are published, the rest are clear. */
  predicate Compact(c: Control)
  {
    && c.index <= |c.slots|
    && (forall k | 0 <= k < c.index :: Live(c.slots[k]))
    && (forall k | c.index <= k < |c.slots| :: Clear(c.slots[k]))
  }

  /** What write_msg_accept_data leaves: the table, the allocation, and the slot used when it succeeded. */
  datatype Accepted = Accepted(control: Control, alloc: Alloc, slot: Option<nat>)

  /**
   * write_msg_accept_data: allocate a buffer whose metadata goes into
   * slot control_index, then, only on success, store the peer's node id
   * and advance control_index. None when allocation spins, or when the
   * slot would lie past the control segment.
   */
  function WriteAcceptData(cfg: Config, c: Control, p: Pool, attempts: seq<HwError>, hw: HwAlloc, peerNode: nat): (r: Option<Accepted>)
    ensures r.Some? ==> c.index < |c.slots| && |r.value.control.slots| == |c.slots|
    ensures r.Some? && r.value.alloc.error == HwOk ==>
      r.value.slot == Some(c.index) && r.value.control.index == c.index + 1
      && r.value.control.slots == c.slots[c.index := Apply(c.slots[c.index], r.value.alloc.stores + [Put(NodeIdField, peerNode)])]
    ensures r.Some? && r.value.alloc.error != HwOk ==>
      r.value.slot.None? && r.value.control.index == c.index
      && r.value.control.slots == c.slots[c.index := Apply(c.slots[c.index], r.value.alloc.stores)]
  {
    if c.index >= |c.slots| then None
    else match AllocMsgBufferFixed(cfg, p, attempts, hw)
    case None => None
    case Some(a) =>
      var s := c.slots[c.index];
      if a.error == HwOk then
        Some(Accepted(Control(c.slots[c.index := Apply(s, a.stores + [Put(NodeIdField, peerNode)])], c.index + 1), a, Some(c.index)))
      else
        Some(Accepted(Control(c.slots[c.index := Apply(s, a.stores)], c.index), a, None))
  }

  /** Filling the slot at control_index with a published entry keeps the table compact one slot further. */
  lemma FillKeepsCompact(c: Control, s: Slot)
    requires Compact(c) && c.index < |c.slots| && Live(s)
    ensures Compact(Control(c.slots[c.index := s], c.index + 1))
  {
  }

  /** Overwriting the slot at control_index with a clear one keeps the table compact. */
  lemma ClearKeepsCompact(c: Control, s: Slot)
    requires Compact(c) && c.index < |c.slots| && Clear(s)
    ensures Compact(Control(c.slots[c.index := s], c.index))
  {
  }

  /**
   * The stores of a successful allocation followed by the node id: the
   * node id reads 0 until the final store, which completes a live slot.
   */
  lemma NodeStoredLast(s0: Slot, hw: HwAlloc, segmentId: nat, offset: nat, size: nat, peerNode: nat)
    requires s0.nodeId == 0 && s0.local.size == 0 && size > 0 && peerNode != 0
    ensures var ws := Publish(hw, segmentId, offset, size) + [Put(NodeIdField, peerNode)];
      && (forall n | 0 <= n < |ws| :: Apply(s0, ws[..n]).nodeId == 0)
      && Apply(s0, ws).nodeId == peerNode && Apply(s0, ws).local.size == size && Live(Apply(s0, ws))
  {
    var stores := Publish(hw, segmentId, offset, size);
    var ws := stores + [Put(NodeIdField, peerNode)];
    assert ws[..|ws| - 1] == stores;
    forall n | 0 <= n < |ws|
      ensures Apply(s0, ws[..n]).nodeId == 0
    {
      assert ws[..n] == stores[..n];
      StoresKeep(s0, stores, n, NodeIdField);
    }
    SizeStoredLast(s0, hw, segmentId, offset, size, 0);
  }

  /**
   * A published slot is complete: the node id, written after every other
   * field, appears together with the whole segment data.
   */
  lemma AcceptPublishesNodeLast(cfg: Config, c: Control, p: Pool, attempts: seq<HwError>, hw: HwAlloc, peerNode: nat)
    requires Compact(c) && cfg.bufferSize > 0 && peerNode != 0
    requires var r := WriteAcceptData(cfg, c, p, attempts, hw, peerNode); r.Some? && r.value.alloc.error == HwOk
    ensures var r := WriteAcceptData(cfg, c, p, attempts, hw, peerNode).value;
      var ws := r.alloc.stores + [Put(NodeIdField, peerNode)];
      var s0 := c.slots[c.index];
      && (forall n | 0 <= n < |ws| :: Apply(s0, ws[..n]).nodeId == 0)
      && Apply(s0, ws).nodeId == peerNode && Apply(s0, ws).local.size == cfg.bufferSize
      && Compact(r.control)
  {
    var r := WriteAcceptData(cfg, c, p, attempts, hw, peerNode).value;
    var s0 := c.slots[c.index];
    var (s, b) := r.alloc.reserved.value;
    NodeStoredLast(s0, hw, r.alloc.pool.segments[s].segmentId, r.alloc.pool.segments[s].buffers[b].offset, cfg.bufferSize, peerNode);
    FillKeepsCompact(c, Apply(s0, r.alloc.stores + [Put(NodeIdField, peerNode)]));
  }

  /** A failed allocation leaves the table compact: the slot may hold interrupt ids, but no size and no node id. */
  lemma AcceptFailureStaysClear(cfg: Config, c: Control, p: Pool, attempts: seq<HwError>, hw: HwAlloc, peerNode: nat)
    requires Compact(c)
    requires var r := WriteAcceptData(cfg, c, p, attempts, hw, peerNode); r.Some? && r.value.alloc.error != HwOk
    ensures Compact(WriteAcceptData(cfg, c, p, attempts, hw, peerNode).value.control)
  {
    var r := WriteAcceptData(cfg, c, p, attempts, hw, peerNode).value;
    var ws := r.alloc.stores;
    assert ws[..|ws|] == ws;
    StoresKeep(c.slots[c.index], ws, |ws|, SizeField);
    StoresKeep(c.slots[c.index], ws, |ws|, NodeIdField);
    ClearKeepsCompact(c, Apply(c.slots[c.index], ws));
  }

  /**
   * remove_msg_accept_data as written: copy slot control_index (one past
   * the last published slot) over the slot being removed, then decrement
   * control_index. None when that slot lies past the control segment.
   */
  function RemoveAsWritten(c: Control, pos: nat): (r: Option<Control>)
    requires pos < c.index
    ensures r.Some? ==> r.value.index == c.index - 1 && |r.value.slots| == |c.slots|
  {
    if c.index >= |c.slots| then None
    else Some(Control(c.slots[pos := c.slots[c.index]], c.index - 1))
  }

  /** remove_msg_accept_data, corrected: move the last published slot into the gap and clear its old place. */
  function Remove(c: Control, pos: nat): (r: Control)
    requires pos < c.index <= |c.slots|
    ensures r.index == c.index - 1 && |r.slots| == |c.slots|
    ensures pos < r.index ==> r.slots[pos] == c.slots[r.index]
    ensures r.slots[r.index] == FREE_SLOT
    ensures forall k | 0 <= k < |c.slots| && k != pos && k != r.index :: r.slots[k] == c.slots[k]
  {
    var last := c.index - 1;
    Control(c.slots[pos := c.slots[last]][last := FREE_SLOT], last)
  }

  /** The corrected removal keeps the table compact. */
  lemma RemoveCompacts(c: Control, pos: nat)
    requires Compact(c) && pos < c.index
    ensures Compact(Remove(c, pos))
  {
    var r := Remove(c, pos);
    forall k | 0 <= k < r.index
      ensures Live(r.slots[k])
    {
      if k == pos { assert r.slots[k] == c.slots[r.index]; }
      else { assert r.slots[k] == c.slots[k]; }
    }
    forall k | r.index <= k < |r.slots|
      ensures Clear(r.slots[k])
    {
      if k != r.index { assert k != pos && r.slots[k] == c.slots[k]; }
    }
  }

  /**
   * Removing the slot just published at control_index, whatever was
   * written into it meanwhile, gives back a table compact as before.
   */
  lemma RemoveOwnSlot(c: Control, s: Slot)
    requires Compact(c) && c.index < |c.slots|
    ensures Compact(Remove(Control(c.slots[c.index := s], c.index + 1), c.index))
  {
    var r := Remove(Control(c.slots[c.index := s], c.index + 1), c.index);
    forall k | c.index <= k < |c.slots|
      ensures Clear(r.slots[k])
    {
      if k != c.index { assert r.slots[k] == c.slots[k]; }
    }
    forall k | 0 <= k < c.index
      ensures Live(r.slots[k])
    {
      assert r.slots[k] == c.slots[k];
    }
  }

  /** The corrected removal drops exactly the removed slot from the published ones. */
  lemma RemoveDrops(c: Control, pos: nat)
    requires pos < c.index <= |c.slots|
    ensures multiset(Remove(c, pos).slots[..c.index - 1]) == multiset(c.slots[..c.index]) - multiset([c.slots[pos]])
  {
    var r := Remove(c, pos);
    var last := c.index - 1;
    var a := c.slots[..c.index];
    assert a == a[..last] + [c.slots[last]];
    if pos == last {
      assert r.slots[..last] == a[..last];
    } else {
      assert a[..last] == a[..pos] + [c.slots[pos]] + a[pos + 1..last];
      assert r.slots[..last] == a[..pos] + [c.slots[last]] + a[pos + 1..last];
    }
  }

  // Finding the own slot on the listener (ctrl_connect_msg's scan)

  /** One pass of the scan: the slot with our node id, a restart at a clear slot, or a read past the segment. */
  datatype Scan = At(index: nat) | Restart | Overrun

  /**
   * ctrl_connect_msg's loop from slot i: stop at the slot with our node
   * id; step over published slots (nonzero size); start over at a slot
   * whose size is 0.
   */
  function ScanFrom(slots: seq<Slot>, node: nat, i: nat): (r: Scan)
    ensures r.At? ==>
      && i <= r.index < |slots| && slots[r.index].nodeId == node
      && forall k | i <= k < r.index :: slots[k].nodeId != node && slots[k].local.size > 0
    ensures r.Restart? ==> exists k | i <= k < |slots| :: slots[k].local.size == 0 && slots[k].nodeId != node
    decreases |slots| - i
  {
    if i >= |slots| then Overrun
    else if slots[i].nodeId == node then At(i)
    else if slots[i].local.size > 0 then ScanFrom(slots, node, i + 1)
    else Restart
  }

  /** In a compact table the scan finds the first slot published for the node. */
  lemma {:induction false} ScanFindsCompact(c: Control, node: nat, j: nat, i: nat)
    requires Compact(c) && node != 0 && c.index < |c.slots|
    requires j < c.index && c.slots[j].nodeId == node && i <= j
    requires forall k | i <= k < j :: c.slots[k].nodeId != node
    ensures ScanFrom(c.slots, node, i) == At(j)
    decreases j - i
  {
    if i < j {
      ScanFindsCompact(c, node, j, i + 1);
    }
  }

  /**
   * As written, removing the first of two pending slots clears it instead
   * of filling it: the second peer's scan now restarts at slot 0 forever,
   * and the next accepted peer is written over the second slot. The
   * corrected removal moves the second slot to the front, where the scan
   * finds it.
   */
  lemma RemoveStrandsSlot(c: Control)
    requires Compact(c) && c.index == 2 && |c.slots| > 2
    requires c.slots[1].nodeId != c.slots[0].nodeId
    ensures var node := c.slots[1].nodeId;
      && ScanFrom(c.slots, node, 0) == At(1)
      && RemoveAsWritten(c, 0).Some?
      && ScanFrom(RemoveAsWritten(c, 0).value.slots, node, 0) == Restart
      && RemoveAsWritten(c, 0).value.index == 1 && RemoveAsWritten(c, 0).value.slots[1] == c.slots[1]
      && ScanFrom(Remove(c, 0).slots, node, 0) == At(0)
      && Compact(Remove(c, 0))
  {
    RemoveCompacts(c, 0);
    assert Clear(c.slots[2]);
  }

  // Linking to the peer's buffer (connect_msg, disconnect_msg)

  /** The handles connect_msg acquires, in order: remote segment, both remote interrupts, then the map. */
  const LINK_STEPS: seq<Handle> := [RemoteSegment, SendRemoteIrq, RecvRemoteIrq, RemoteMap]

  /** The order disconnect_msg releases them in: the map after the segment it belongs to. */
  const UNLINK_ORDER: seq<Handle> := [RemoteSegment, RemoteMap, SendRemoteIrq, RecvRemoteIrq]

  /** The library's answers to connect_msg's four calls. */
  datatype HwLink = HwLink(segment: HwError, sendIrq: HwError, recvIrq: HwError, mapping: HwError)

  function LinkError(hw: HwLink, k: nat): HwError
  {
    if k == 0 then hw.segment else if k == 1 then hw.sendIrq else if k == 2 then hw.recvIrq else hw.mapping
  }

  /** The index of the first link call that fails, 4 when none does. */
  function LinkFailsAt(hw: HwLink): (k: nat)
    ensures k <= 4
    ensures forall j | 0 <= j < k :: LinkError(hw, j) == HwOk
    ensures k < 4 ==> LinkError(hw, k) != HwOk
  {
    if hw.segment != HwOk then 0
    else if hw.sendIrq != HwOk then 1
    else if hw.recvIrq != HwOk then 2
    else if hw.mapping != HwOk then 3
    else 4
  }

  /**
   * The messaging side of an endpoint: the connected flag, the remote
   * handles it holds, the send cursor and capacity toward the peer, and
   * its event queue (NULL when none is bound).
   */
  datatype MsgEp = MsgEp(connected: bool, held: set<Handle>, sendWrite: nat, sendSize: nat, eq: Option<Eq.Eq>)

  predicate EpWf(ep: MsgEp)
  {
    ep.eq.Some? ==> Eq.Wf(ep.eq.value)
  }

  /** FI_CONNECTED, the event number of a completed connection. */
  const FI_CONNECTED: nat := 2

  /** An endpoint after a hardware sequence and the library error it ends with. */
  datatype Linked = Linked(ep: MsgEp, error: HwError)

  /**
   * connect_msg: connect the peer's receive segment, its receive
   * interrupt (for signalling sends) and its send interrupt (for
   * signalling reads), then map the buffer. A failing call ends the
   * sequence and the handles already obtained stay held. On success the
   * send cursor restarts at 0, the send capacity is the remote size less
   * the status word (a size_t subtraction), one FI_CONNECTED event
   * carrying cmEntry is queued and the endpoint is connected.
   */
  function ConnectMsg(ep: MsgEp, remote: SegmentData, hw: HwLink, cmEntry: seq<byte>): (r: Linked)
    requires EpWf(ep)
    ensures EpWf(r.ep)
    ensures var k := LinkFailsAt(hw); r.ep.held == ep.held + set j | 0 <= j < k :: LINK_STEPS[j]
    ensures r.error == HwOk <==> LinkFailsAt(hw) == 4
    ensures r.error != HwOk ==> r.error == LinkError(hw, LinkFailsAt(hw)) && r.ep == ep.(held := r.ep.held)
    ensures r.error == HwOk ==>
      && r.ep.connected && r.ep.sendWrite == 0
      && (STATUS_HDR <= remote.size < WORD_LIMIT ==> r.ep.sendSize == remote.size - STATUS_HDR)
      && (remote.size < STATUS_HDR ==> r.ep.sendSize == WORD_LIMIT - (STATUS_HDR - remote.size))
      && r.ep.eq == Eq.Add(ep.eq, FI_CONNECTED, cmEntry, 0).eq
  {
    var k := LinkFailsAt(hw);
    var held := ep.held + set j | 0 <= j < k :: LINK_STEPS[j];
    if k < 4 then Linked(ep.(held := held), LinkError(hw, k))
    else
      var size := (remote.size - STATUS_HDR) % WORD_LIMIT;
      Linked(MsgEp(true, held, 0, size, Eq.Add(ep.eq, FI_CONNECTED, cmEntry, 0).eq), HwOk)
  }

  /** A successful link queues exactly one event, FI_CONNECTED, behind those already queued. */
  lemma ConnectQueuesOneEvent(ep: MsgEp, remote: SegmentData, hw: HwLink, cmEntry: seq<byte>)
    requires EpWf(ep) && ep.eq.Some? && LinkFailsAt(hw) == 4
    ensures var e := ep.eq.value; var r := ConnectMsg(ep, remote, hw, cmEntry);
      && r.ep.eq.Some? && var e2 := r.ep.eq.value;
      && |e2.events| == |e.events| + 1 && e2.events[..|e.events|] == e.events && e2.errors == e.errors
      && e2.store[e2.events[|e.events|]].event == FI_CONNECTED
  {
    var e := ep.eq.value;
    var e2 := ConnectMsg(ep, remote, hw, cmEntry).ep.eq.value;
    assert e2.events == e.events + [e2.events[|e.events|]];
  }

  /** The library's answers to disconnect_msg's release calls. */
  datatype HwUnlink = HwUnlink(segment: HwError, mapping: HwError, sendIrq: HwError, recvIrq: HwError)

  function UnlinkError(hw: HwUnlink, h: Handle): HwError
  {
    match h
    case RemoteSegment => hw.segment
    case RemoteMap => hw.mapping
    case SendRemoteIrq => hw.sendIrq
    case RecvRemoteIrq => hw.recvIrq
    case _ => HwOk
  }

  /** The handles of order that are held, in order. */
  function Held(held: set<Handle>, order: seq<Handle>): (r: seq<Handle>)
    ensures forall h :: h in r <==> h in held && h in order
    ensures |r| <= |order|
  {
    if order == [] then []
    else (if order[0] in held then [order[0]] else []) + Held(held, order[1..])
  }

  /** The error of the last release that failed, HwOk when none did. */
  function LastError(hw: HwUnlink, released: seq<Handle>): (e: HwError)
    ensures e == HwOk <==> forall i | 0 <= i < |released| :: UnlinkError(hw, released[i]) == HwOk
    ensures e != HwOk ==> exists i | 0 <= i < |released| ::
      (e == UnlinkError(hw, released[i]) && forall j | i < j < |released| :: UnlinkError(hw, released[j]) == HwOk)
    decreases |released|
  {
    if released == [] then HwOk
    else
      var n := |released| - 1;
      if UnlinkError(hw, released[n]) != HwOk then UnlinkError(hw, released[n])
      else
        var init := released[..n];
        var e := LastError(hw, init);
        assert forall i | 0 <= i < n :: init[i] == released[i];
        assert e != HwOk ==> exists i | 0 <= i < |released| ::
          (e == UnlinkError(hw, released[i]) && forall j | i < j < |released| :: UnlinkError(hw, released[j]) == HwOk) by {
          if e != HwOk {
            var i :| 0 <= i < n && e == UnlinkError(hw, init[i]) && forall j | i < j < n :: UnlinkError(hw, init[j]) == HwOk;
            assert forall j | i < j < |released| :: UnlinkError(hw, released[j]) == HwOk;
          }
        }
        e
  }

  /** What disconnect_msg leaves: the endpoint, the handles released in order, and the result. */
  datatype Unlinked = Unlinked(ep: MsgEp, released: seq<Handle>, result: HwError)

  /**
   * disconnect_msg as written: release each remote handle that is set,
   * keep the last error, clear the connected flag. The handles are not
   * reset, so the endpoint still holds them.
   */
  function DisconnectMsgAsWritten(ep: MsgEp, hw: HwUnlink): (r: Unlinked)
    ensures !r.ep.connected && r.ep.held == ep.held
    ensures forall h :: h in r.released <==> h in ep.held && h in UNLINK_ORDER
    ensures r.result == HwOk <==> forall i | 0 <= i < |r.released| :: UnlinkError(hw, r.released[i]) == HwOk
  {
    var released := Held(ep.held, UNLINK_ORDER);
    Unlinked(ep.(connected := false), released, LastError(hw, released))
  }

  /** disconnect_msg, corrected: as written, and every handle released is cleared. */
  function DisconnectMsg(ep: MsgEp, hw: HwUnlink): (r: Unlinked)
    ensures !r.ep.connected && r.ep.held == ep.held - set h | h in UNLINK_ORDER
    ensures r.released == DisconnectMsgAsWritten(ep, hw).released && r.result == DisconnectMsgAsWritten(ep, hw).result
    ensures r.ep.eq == ep.eq && r.ep.sendWrite == ep.sendWrite && r.ep.sendSize == ep.sendSize
  {
    var w := DisconnectMsgAsWritten(ep, hw);
    w.(ep := w.ep.(held := ep.held - set h | h in UNLINK_ORDER))
  }

  /**
   * Whatever connect_msg got to, disconnecting afterwards releases
   * exactly the remote handles it acquired and leaves none held.
   */
  lemma ConnectThenDisconnect(ep: MsgEp, remote: SegmentData, hw: HwLink, cmEntry: seq<byte>, un: HwUnlink)
    requires EpWf(ep) && ep.held == {}
    ensures var c := ConnectMsg(ep, remote, hw, cmEntry); var d := DisconnectMsg(c.ep, un);
      && d.ep.held == {} && !d.ep.connected
      && (forall h :: h in d.released <==> h in LINK_STEPS[..LinkFailsAt(hw)])
  {
    ConnectHolds(ep, remote, hw, cmEntry);
  }

  /**
   * From nothing held, a link that succeeds holds all four remote handles
   * and is connected; one that fails, once disconnected, holds none.
   */
  lemma LinkAllOrNothing(ep: MsgEp, remote: SegmentData, hw: HwLink, cmEntry: seq<byte>, un: HwUnlink)
    requires EpWf(ep) && ep.held == {} && !ep.connected
    ensures var l := ConnectMsg(ep, remote, hw, cmEntry);
      && (l.error == HwOk ==> l.ep.connected && l.ep.held == set h | h in LINK_STEPS)
      && (l.error != HwOk ==> !DisconnectMsg(l.ep, un).ep.connected && DisconnectMsg(l.ep, un).ep.held == {})
  {
    var l := ConnectMsg(ep, remote, hw, cmEntry);
    if l.error == HwOk {
      ConnectHolds(ep, remote, hw, cmEntry);
      assert LINK_STEPS[..4] == LINK_STEPS;
      assert l.ep.held == set h | h in LINK_STEPS;
    } else {
      ConnectThenDisconnect(ep, remote, hw, cmEntry, un);
    }
  }

  /** From nothing held, a link holds exactly the handles of the steps before the first failure. */
  lemma ConnectHolds(ep: MsgEp, remote: SegmentData, hw: HwLink, cmEntry: seq<byte>)
    requires EpWf(ep) && ep.held == {}
    ensures forall h :: h in ConnectMsg(ep, remote, hw, cmEntry).ep.held <==> h in LINK_STEPS[..LinkFailsAt(hw)]
  {
    var k := LinkFailsAt(hw);
    var c := ConnectMsg(ep, remote, hw, cmEntry);
    forall h
      ensures h in c.ep.held <==> h in LINK_STEPS[..k]
    {
      if h in LINK_STEPS[..k] {
        var j :| 0 <= j < k && LINK_STEPS[j] == h;
      }
    }
  }

  /**
   * As written, a second disconnect releases the same handles again,
   * because the first left them set; the corrected disconnect releases
   * nothing the second time.
   */
  lemma DisconnectTwice(ep: MsgEp, hw: HwUnlink, hw2: HwUnlink)
    requires RemoteSegment in ep.held
    ensures var once := DisconnectMsgAsWritten(ep, hw);
      && RemoteSegment in once.released
      && DisconnectMsgAsWritten(once.ep, hw2).released == once.released
    ensures DisconnectMsg(DisconnectMsg(ep, hw).ep, hw2).released == []
  {
    HeldNone(DisconnectMsg(ep, hw).ep.held, UNLINK_ORDER);
  }

  lemma HeldNone(held: set<Handle>, order: seq<Handle>)
    requires forall h | h in order :: h !in held
    ensures Held(held, order) == []
  {
  }

  // The accepting and the connecting side

  /** What accept_msg leaves: the listener's table and pool, the endpoint, and the return code. */
  datatype AcceptOutcome = AcceptOutcome(control: Control, pool: Pool, ep: MsgEp, ret: Status)

  /**
   * The second half of accept_msg, once the slot at control_index holds
   * s: the peer's buffer metadata lands in the slot's remote part, the
   * endpoint links to that buffer, and the slot is removed again whatever
   * the link did.
   */
  function LinkAndRemove(c: Control, s: Slot, pool: Pool, ep: MsgEp, peerData: SegmentData, link: HwLink, cmEntry: seq<byte>): (r: AcceptOutcome)
    requires EpWf(ep) && c.index < |c.slots|
    ensures EpWf(r.ep) && r.pool == pool && r.control.index == c.index
    ensures r.ep == ConnectMsg(ep, peerData, link, cmEntry).ep
    ensures r.ret == Ok <==> ConnectMsg(ep, peerData, link, cmEntry).error == HwOk
    ensures r.ret != Ok ==> r.ret == Err(ECONNABORTED)
    ensures Compact(c) ==> Compact(r.control)
  {
    var pos := c.index;
    var filled := Control(c.slots[pos := s], pos + 1);
    var written := filled.(slots := filled.slots[pos := filled.slots[pos].(remote := peerData)]);
    var linked := ConnectMsg(ep, peerData, link, cmEntry);
    var removed := Remove(written, pos);
    assert Compact(c) ==> Compact(removed) by {
      if Compact(c) {
        assert written == Control(c.slots[pos := s.(remote := peerData)], pos + 1);
        RemoveOwnSlot(c, s.(remote := peerData));
      }
    }
    AcceptOutcome(removed, pool, linked.ep, if linked.error == HwOk then Ok else Err(ECONNABORTED))
  }

  /**
   * accept_msg: publish a slot for the peer (-FI_ENOSPC when that
   * fails), wait until the peer has written its buffer metadata into the
   * slot, link to that buffer, and remove the slot again whatever the
   * link did. peerData is what the peer writes; a size of 0 means the
   * wait never ends (None), as does an allocation that spins.
   */
  function AcceptMsg(cfg: Config, c: Control, p: Pool, attempts: seq<HwError>, hw: HwAlloc, peerNode: nat,
                     ep: MsgEp, peerData: SegmentData, link: HwLink, cmEntry: seq<byte>): (r: Option<AcceptOutcome>)
    requires EpWf(ep)
    ensures r.Some? ==> EpWf(r.value.ep)
    ensures r.Some? && r.value.ret == Err(ENOSPC) ==> r.value.ep == ep
    ensures r.Some? && r.value.ret != Err(ENOSPC) ==>
      && peerData.size > 0
      && r.value.ep == ConnectMsg(ep, peerData, link, cmEntry).ep
      && (r.value.ret == Ok <==> ConnectMsg(ep, peerData, link, cmEntry).error == HwOk)
      && (r.value.ret != Ok ==> r.value.ret == Err(ECONNABORTED))
    ensures r.Some? ==> r.value.control.index == c.index
    ensures r.Some? && Compact(c) ==> Compact(r.value.control)
  {
    match WriteAcceptData(cfg, c, p, attempts, hw, peerNode)
    case None => None
    case Some(acc) =>
      if acc.slot.None? then
        assert Compact(c) ==> Compact(acc.control) by {
          if Compact(c) { AcceptFailureStaysClear(cfg, c, p, attempts, hw, peerNode); }
        }
        Some(AcceptOutcome(acc.control, acc.alloc.pool, ep, Err(ENOSPC)))
      else if peerData.size == 0 then None
      else
        var s := Apply(c.slots[c.index], acc.alloc.stores + [Put(NodeIdField, peerNode)]);
        Some(LinkAndRemove(c, s, acc.alloc.pool, ep, peerData, link, cmEntry))
  }

  /** A slot's remote segment data after the stores ws, which name only segment data fields. */
  function ApplyData(d: SegmentData, ws: seq<Put>): SegmentData
  {
    Apply(Slot(0, d, NO_DATA), ws).local
  }

  /** The library's answers to ctrl_connect_msg's open and map calls. */
  datatype HwCtrl = HwCtrl(open: HwError, mapping: HwError)

  /** What ctrl_connect_msg leaves: the listener's table, the pool, the listener's buffer metadata for us, and the error. */
  datatype CtrlOutcome = CtrlOutcome(control: Control, pool: Pool, peerData: SegmentData, error: HwError)

  /**
   * ctrl_connect_msg: open a descriptor, connect to the listener's
   * control segment (retried until it succeeds), map it, scan for the
   * slot carrying our node id, take the listener's buffer metadata from
   * it and allocate our own buffer, whose metadata goes into the slot's
   * remote part. The result is the first failing call's error, or the
   * allocation's. None when the scan would restart or read past the
   * control segment, or the allocation spins.
   */
  function CtrlConnectMsg(cfg: Config, listener: Control, node: nat, p: Pool, attempts: seq<HwError>,
                          ctrl: HwCtrl, hw: HwAlloc): (r: Option<CtrlOutcome>)
    ensures r.Some? && (ctrl.open != HwOk || ctrl.mapping != HwOk) ==>
      r.value.control == listener && r.value.pool == p && r.value.error != HwOk
    ensures r.Some? && ctrl.open == HwOk && ctrl.mapping == HwOk ==>
      && ScanFrom(listener.slots, node, 0).At?
      && var i := ScanFrom(listener.slots, node, 0).index;
      && r.value.peerData == listener.slots[i].local
      && r.value.control.index == listener.index && |r.value.control.slots| == |listener.slots|
      && (forall k | 0 <= k < |listener.slots| && k != i :: r.value.control.slots[k] == listener.slots[k])
      && r.value.control.slots[i].nodeId == node && r.value.control.slots[i].local == listener.slots[i].local
  {
    if ctrl.open != HwOk then Some(CtrlOutcome(listener, p, NO_DATA, ctrl.open))
    else if ctrl.mapping != HwOk then Some(CtrlOutcome(listener, p, NO_DATA, ctrl.mapping))
    else match ScanFrom(listener.slots, node, 0)
      case Restart => None
      case Overrun => None
      case At(i) =>
        match AllocMsgBufferFixed(cfg, p, attempts, hw)
        case None => None
        case Some(a) =>
          var slot := listener.slots[i];
          var slots := listener.slots[i := slot.(remote := ApplyData(slot.remote, a.stores))];
          Some(CtrlOutcome(listener.(slots := slots), a.pool, slot.local, a.error))
  }

  /**
   * The handshake crosses over: when the connecting side's allocation
   * succeeds, the slot it found carries its own buffer's metadata in the
   * remote part, with a nonzero size, which is what ends the accepting
   * side's wait; each side links to the buffer the other published.
   */
  lemma HandshakeCrosses(cfg: Config, listener: Control, node: nat, p: Pool, attempts: seq<HwError>,
                         ctrl: HwCtrl, hw: HwAlloc)
    requires cfg.bufferSize > 0
    requires var r := CtrlConnectMsg(cfg, listener, node, p, attempts, ctrl, hw); r.Some? && r.value.error == HwOk
    requires listener.slots[ScanFrom(listener.slots, node, 0).index].remote.size == 0
    ensures var r := CtrlConnectMsg(cfg, listener, node, p, attempts, ctrl, hw).value;
      var i := ScanFrom(listener.slots, node, 0).index;
      var a := AllocMsgBufferFixed(cfg, p, attempts, hw).value;
      var (s, b) := a.reserved.value;
      && r.control.slots[i].remote
        == SegmentData(a.pool.segments[s].segmentId, a.pool.segments[s].buffers[b].offset, cfg.bufferSize, hw.recvIrqId, hw.sendIrqId)
      && r.control.slots[i].remote.size > 0
      && r.peerData == listener.slots[i].local
  {
    var i := ScanFrom(listener.slots, node, 0).index;
    var a := AllocMsgBufferFixed(cfg, p, attempts, hw).value;
    var (s, b) := a.reserved.value;
    SizeStoredLast(Slot(0, listener.slots[i].remote, NO_DATA), hw, a.pool.segments[s].segmentId,
                   a.pool.segments[s].buffers[b].offset, cfg.bufferSize, 0);
  }
}
