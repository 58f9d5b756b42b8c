/**
 * Completion queues (dpa_cq.c).
 *
 * A queue keeps three pools of event records: the free list, the event
 * queue and the error queue. Adding a completion takes a record from the
 * free list (allocating a fresh one only when the list is empty) and
 * queues it by its error code; reading moves records back to the free
 * list, oldest first. Records are identified by position only: the
 * completions they carry are values.
 *
 * The progress function and interrupt waits of a queue live in code that
 * is not part of this model; what they add to the queue while a read
 * runs is a parameter of the read.
 */
module Cq {
  import opened Bytes
  import opened Fabric
  import Lists

  /**
   * fi_cq_err_entry, the record every completion is stored as. buf holds
   * the bytes the operation left in the user's buffer; err is Ok for a
   * successful completion; olen is the number of bytes that did not fit.
   */
  datatype CqEntry = CqEntry(context: nat, flags: bv64, len: nat, buf: seq<byte>, data: nat, err: Status, olen: nat)

  /** A queued completion and the source address stored with it. */
  datatype Event = Event(entry: CqEntry, src: nat)

  /** The interrupt a queue waits on once fi_dpa wait_data has created it. */
  datatype Interrupt = Interrupt(id: nat, eventFlags: bv64)

  /**
   * dpa_fid_cq. spare counts the records on the free list; total
   * counts every record the queue ever allocated.
   */
  datatype Cq = Cq(
    entrySize: nat, waitObj: WaitObj,
    events: seq<Event>, errors: seq<Event>, spare: nat, total: nat,
    hasProgress: bool, interrupt: Option<Interrupt>)

  /** Every record is on exactly one of the three lists. */
  predicate Conserved(cq: Cq)
  {
    cq.spare + |cq.events| + |cq.errors| == cq.total
  }

  /** fi_cq_attr, the fields the provider reads. */
  datatype CqAttr = CqAttr(size: nat, format: CqFormat, waitObj: WaitObj)

  /** sizeof the libfabric entry structures on a 64-bit host (each field is 8 bytes). */
  const CONTEXT_ENTRY_SIZE: nat := 8
  const MSG_ENTRY_SIZE: nat := 24
  const DATA_ENTRY_SIZE: nat := 40
  const TAGGED_ENTRY_SIZE: nat := 48

  /** format_size: bytes copied out per completion for a queue format. */
  function FormatSize(format: CqFormat): (n: nat)
  {
    match format
    case CqFormatContext => CONTEXT_ENTRY_SIZE
    case CqFormatData => DATA_ENTRY_SIZE
    case CqFormatTagged => TAGGED_ENTRY_SIZE
    case _ => MSG_ENTRY_SIZE
  }

  /**
   * Each format shows a longer prefix of the stored record than the one
   * before it, and the formats without a size of their own (unspecified)
   * read as message entries.
   */
  lemma FormatSizes()
    ensures FormatSize(CqFormatContext) < FormatSize(CqFormatMsg) < FormatSize(CqFormatData) < FormatSize(CqFormatTagged)
    ensures FormatSize(CqFormatUnspec) == FormatSize(CqFormatMsg)
    ensures forall f: CqFormat :: FormatSize(f) % 8 == 0 && 8 <= FormatSize(f) <= TAGGED_ENTRY_SIZE
  {
  }

  /**
   * dpa_cq_open: a missing attribute or a wait object other than none or
   * unspecified fails with ENODATA; an allocation failure while filling
   * the free list (memOk false) fails with ENOMEM, which needs at least
   * one record to allocate. A new queue holds size free records and
   * nothing queued.
   */
  function Open(attr: Option<CqAttr>, memOk: bool): (res: Result<Cq>)
    ensures attr.None? ==> res == Failure(ENODATA)
    ensures attr.Some? && attr.value.waitObj !in {WaitNone, WaitUnspec} ==> res == Failure(ENODATA)
    ensures res.Success? <==> attr.Some? && attr.value.waitObj in {WaitNone, WaitUnspec} && (attr.value.size == 0 || memOk)
    ensures res.Failure? ==> res.error in {ENODATA, ENOMEM}
    ensures res.Success? ==>
      && Conserved(res.value) && res.value.spare == attr.value.size
      && res.value.events == [] && res.value.errors == []
      && res.value.entrySize == FormatSize(attr.value.format)
      && !res.value.hasProgress && res.value.interrupt.None?
  {
    if attr.None? then Failure(ENODATA)
    else if attr.value.waitObj != WaitNone && attr.value.waitObj != WaitUnspec then Failure(ENODATA)
    else if attr.value.size > 0 && !memOk then Failure(ENOMEM)
    else Success(Cq(FormatSize(attr.value.format), attr.value.waitObj, [], [], attr.value.size, attr.value.size, false, None))
  }

  /** cq_signal: wakes condition waiters only when neither a progress function nor an interrupt drives the queue. */
  function Signal(cq: Cq): (woken: bool)
  {
    !(cq.hasProgress || cq.interrupt.Some?)
  }

  /**
   * cq_add_src: the completion goes to the tail of the error queue when
   * its err is set and of the event queue otherwise, in a record from the
   * free list or, when that is empty, a new one. Returns whether
   * condition waiters were signalled.
   */
  function Add(cq: Cq, e: CqEntry, src: nat): (res: (Cq, bool))
    ensures var (c, woken) := res;
      && (e.err.Err? ==> c.errors == cq.errors + [Event(e, src)] && c.events == cq.events)
      && (e.err.Ok? ==> c.events == cq.events + [Event(e, src)] && c.errors == cq.errors)
      && (cq.spare > 0 ==> c.spare == cq.spare - 1 && c.total == cq.total)
      && (cq.spare == 0 ==> c.spare == 0 && c.total == cq.total + 1)
      && c.entrySize == cq.entrySize && c.hasProgress == cq.hasProgress && c.interrupt == cq.interrupt
      && woken == Signal(cq)
  {
    var (spare, total) := if cq.spare > 0 then (cq.spare - 1, cq.total) else (0, cq.total + 1);
    var ev := Event(e, src);
    var c := if e.err.Err? then cq.(errors := cq.errors + [ev], spare := spare, total := total)
             else cq.(events := cq.events + [ev], spare := spare, total := total);
    (c, Signal(c))
  }

  /** Adding a completion keeps every record on exactly one list. */
  lemma AddConserves(cq: Cq, e: CqEntry, src: nat)
    requires Conserved(cq)
    ensures Conserved(Add(cq, e, src).0)
  {
  }

  /** Several completions added in order. */
  function AddAll(cq: Cq, es: seq<Event>): (c: Cq)
    decreases |es|
  {
    if es == [] then cq else AddAll(Add(cq, es[0].entry, es[0].src).0, es[1..])
  }

  /** The successful completions among es, in order. */
  function Successes(es: seq<Event>): seq<Event>
  {
    if es == [] then [] else (if es[0].entry.err.Ok? then [es[0]] else []) + Successes(es[1..])
  }

  /** The failed completions among es, in order. */
  function Failures(es: seq<Event>): seq<Event>
  {
    if es == [] then [] else (if es[0].entry.err.Err? then [es[0]] else []) + Failures(es[1..])
  }

  /** Adding the first of several completions queues it where the split of all of them says. */
  lemma AddRoutes(cq: Cq, es: seq<Event>)
    requires Conserved(cq) && es != []
    ensures var c1 := Add(cq, es[0].entry, es[0].src).0;
      && cq.events + Successes(es) == c1.events + Successes(es[1..])
      && cq.errors + Failures(es) == c1.errors + Failures(es[1..])
      && Conserved(c1) && c1.total >= cq.total
      && c1.entrySize == cq.entrySize && c1.hasProgress == cq.hasProgress && c1.interrupt == cq.interrupt
  {
    AddConserves(cq, es[0].entry, es[0].src);
    var ev := es[0];
    assert ev == Event(ev.entry, ev.src);
    if ev.entry.err.Ok? {
      assert Successes(es) == [ev] + Successes(es[1..]);
      assert Failures(es) == [] + Failures(es[1..]) == Failures(es[1..]);
      Lists.ConcatAssoc(cq.events, [ev], Successes(es[1..]));
    } else {
      assert Failures(es) == [ev] + Failures(es[1..]);
      assert Successes(es) == [] + Successes(es[1..]) == Successes(es[1..]);
      Lists.ConcatAssoc(cq.errors, [ev], Failures(es[1..]));
    }
  }

  /**
   * Completions added in order are queued in order, split by outcome,
   * and every record stays on exactly one list.
   */
  lemma {:induction false} AddAllRoutes(cq: Cq, es: seq<Event>)
    requires Conserved(cq)
    ensures var c := AddAll(cq, es);
      && c.events == cq.events + Successes(es) && c.errors == cq.errors + Failures(es)
      && Conserved(c) && c.total >= cq.total
      && c.entrySize == cq.entrySize && c.hasProgress == cq.hasProgress && c.interrupt == cq.interrupt
    decreases |es|
  {
    if es != [] {
      AddRoutes(cq, es);
      AddAllRoutes(Add(cq, es[0].entry, es[0].src).0, es[1..]);
    }
  }

  /** The queue a read drains. */
  function Queue(cq: Cq, fromErrors: bool): seq<Event>
  {
    if fromErrors then cq.errors else cq.events
  }

  /**
   * cq_read_priv: removes up to count records from the head of one queue,
   * copying their completions out oldest first and returning the records
   * to the free list. Returns how many it removed, or EAGAIN when it
   * removed none.
   */
  method ReadPriv(cq: Cq, fromErrors: bool, count: nat) returns (c: Cq, out: seq<Event>, ret: Result<nat>)
    ensures var q := Queue(cq, fromErrors);
      && out == q[..Min(count, |q|)] && Queue(c, fromErrors) == q[Min(count, |q|)..]
      && c.spare == cq.spare + |out| && c.total == cq.total
    ensures Queue(c, !fromErrors) == Queue(cq, !fromErrors)
    ensures ret.Success? <==> out != []
    ensures ret.Success? ==> ret.value == |out|
    ensures ret.Failure? ==> ret.error == EAGAIN
    ensures c.entrySize == cq.entrySize && c.hasProgress == cq.hasProgress && c.interrupt == cq.interrupt
    ensures out == [] ==> c == cq
    ensures Conserved(cq) ==> Conserved(c)
  {
    var q := Queue(cq, fromErrors);
    out := [];
    var i := 0;
    while i < count && i < |q|
      invariant i <= count && i <= |q|
      invariant out == q[..i]
      decreases count - i
    {
      out := out + [q[i]];
      i := i + 1;
    }
    assert i == Min(count, |q|);
    c := if fromErrors then cq.(errors := q[i..], spare := cq.spare + i) else cq.(events := q[i..], spare := cq.spare + i);
    ret := if i > 0 then Success(i) else Failure(EAGAIN);
  }

  /** dpa_cq_readerr: reads at most one completion, and only from the error queue. */
  method ReadErr(cq: Cq) returns (c: Cq, out: seq<Event>, ret: Result<nat>)
    ensures cq.errors == [] ==> out == [] && ret == Failure(EAGAIN) && c == cq
    ensures cq.errors != [] ==> out == [cq.errors[0]] && c.errors == cq.errors[1..] && ret == Success(1)
    ensures c.events == cq.events
  {
    c, out, ret := ReadPriv(cq, true, 1);
  }

  /**
   * dpa_cq_sreadfrom: immediate progress (which queues the completions
   * soon), one drain of the event queue, and, when that found nothing and
   * timeout is nonzero, one wait: a progress function or interrupt runs
   * (queueing the completions later) or the caller waits on the condition.
   * The result is that of the one drain; what arrives during the wait
   * stays queued for the next read.
   */
  method SReadFrom(cq: Cq, count: nat, timeout: int, soon: seq<Event>, later: seq<Event>)
    returns (c: Cq, out: seq<Event>, ret: Result<nat>)
    requires Conserved(cq)
    ensures var q := cq.events + Successes(soon);
      var waited := ret.Failure? && timeout != 0 && (cq.hasProgress || cq.interrupt.Some?);
      && out == q[..Min(count, |q|)]
      && (ret.Success? <==> out != []) && (ret.Failure? ==> ret.error == EAGAIN)
      && c.events == q[|out|..] + (if waited then Successes(later) else [])
      && c.errors == cq.errors + Failures(soon) + (if waited then Failures(later) else [])
    ensures Conserved(c)
  {
    AddAllRoutes(cq, soon);
    var c0 := AddAll(cq, soon);
    c, out, ret := ReadPriv(c0, false, count);
    if ret.Failure? && timeout != 0 && (c.hasProgress || c.interrupt.Some?) {
      AddAllRoutes(c, later);
      c := AddAll(c, later);
    }
  }

  /** dpa_cq_readfrom: a read that never waits is a single drain after immediate progress. */
  method ReadFrom(cq: Cq, count: nat, soon: seq<Event>) returns (c: Cq, out: seq<Event>, ret: Result<nat>)
    requires Conserved(cq)
    ensures var q := cq.events + Successes(soon);
      out == q[..Min(count, |q|)] && c.events == q[|out|..] && c.errors == cq.errors + Failures(soon)
  {
    c, out, ret := SReadFrom(cq, count, 0, soon, []);
  }

  /** What fi_dpa wait_data returns, and the interrupt id it reports back in *data. */
  datatype WaitDataResult = WaitDataResult(cq: Cq, status: Status, data: Option<nat>)

  /**
   * dpa_cq_wait_data: a NULL data pointer or a value that does not fit an
   * interrupt id fails with EINVAL; a hardware failure while opening the
   * device or creating the interrupt fails with EOTHER. Otherwise the queue
   * gets an interrupt with the requested id (or, for 0, the id the
   * hardware hwId) and reports the id back.
   */
  function WaitData(cq: Cq, data: Option<nat>, flags: bv64, openOk: bool, createOk: bool, hwId: nat): (res: WaitDataResult)
    requires hwId < U32_LIMIT
    ensures (data.None? || data.value >= U32_LIMIT) ==> res.status == Err(EINVAL) && res.cq == cq
    ensures res.status.Ok? <==> data.Some? && data.value < U32_LIMIT && openOk && createOk
    ensures res.status.Err? ==> res.cq == cq && res.data == data && res.status.code in {EINVAL, EOTHER}
    ensures res.status.Ok? ==>
      var id := if data.value != 0 then data.value else hwId;
      && res.cq == cq.(interrupt := Some(Interrupt(id, flags)))
      && res.data == Some(id) && id < U32_LIMIT
  {
    if data.None? || data.value >= U32_LIMIT then WaitDataResult(cq, Err(EINVAL), data)
    else if !openOk || !createOk then WaitDataResult(cq, Err(EOTHER), data)
    else
      var id := if data.value != 0 then data.value else hwId;
      WaitDataResult(cq.(interrupt := Some(Interrupt(id, flags))), Ok, Some(id))
  }

  /** Once a queue waits on an interrupt, adding a completion no longer signals the condition. */
  lemma InterruptSilencesSignal(cq: Cq, data: Option<nat>, flags: bv64, hwId: nat, e: CqEntry, src: nat)
    requires hwId < U32_LIMIT
    requires WaitData(cq, data, flags, true, true, hwId).status.Ok?
    ensures !Add(WaitData(cq, data, flags, true, true, hwId).cq, e, src).1
  {
  }

  /** Completions added to a queue come back out of reads in the order they were added. */
  method AddThenRead(cq: Cq, es: seq<Event>) returns (out: seq<Event>)
    requires Conserved(cq) && cq.events == []
    requires forall i | 0 <= i < |es| :: es[i].entry.err.Ok?
    ensures out == es
  {
    SuccessesOfOk(es);
    AddAllRoutes(cq, es);
    var c, ret;
    c, out, ret := ReadPriv(AddAll(cq, es), false, |es|);
  }

  lemma {:induction false} SuccessesOfOk(es: seq<Event>)
    requires forall i | 0 <= i < |es| :: es[i].entry.err.Ok?
    ensures Successes(es) == es
  {
    if es != [] {
      SuccessesOfOk(es[1..]);
    }
  }
}
