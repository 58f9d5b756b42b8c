/**
 * Endpoints (dpa_ep.c): capability checking and expansion, opening an
 * active endpoint (which operations it gets, whether it locks, its
 * message queues), opening a passive one, binding queues, counters and
 * other objects to an endpoint, and reporting its own address.
 *
 * Objects bound to an endpoint are identified by numbers; a completion
 * queue's or counter's progress hook is the function it runs and the
 * endpoint it runs it for.
 */
module Ep {
  import opened Fabric
  import opened Bytes
  import Info
  import Domain
  import Msg
  import Cm
  import Av

  // ---------------------------------------------------------------------
  // Capabilities

  /**
   * check_ep_caps: 0 for caps outside the MSG endpoint set; otherwise the
   * caps with a bare FI_MSG widened to the whole message group and a bare
   * FI_RMA to the whole RMA group.
   */
  function CheckEpCaps(caps: bv64): (r: bv64)
    ensures r == 0 <==> !Info.SubsetOf(caps, Info.DPA_EP_MSG_CAP) || caps == 0
    ensures r != 0 ==> Info.SubsetOf(caps, r) && Info.SubsetOf(r, Info.DPA_EP_MSG_CAP)
    ensures r != 0 ==> (r & Info.DPA_MSG_CAP ==
      if caps & Info.DPA_MSG_CAP == FI_MSG then Info.DPA_MSG_CAP else caps & Info.DPA_MSG_CAP)
    ensures r != 0 ==> (r & Info.DPA_RMA_CAP ==
      if caps & Info.DPA_RMA_CAP == FI_RMA then Info.DPA_RMA_CAP else caps & Info.DPA_RMA_CAP)
  {
    if caps & Info.DPA_EP_MSG_CAP != caps then 0
    else
      var m := if caps & Info.DPA_MSG_CAP == FI_MSG then caps | Info.DPA_MSG_CAP else caps;
      if m & Info.DPA_RMA_CAP == FI_RMA then m | Info.DPA_RMA_CAP else m
  }

  /** Checking caps that already passed the check changes nothing. */
  lemma CheckEpCapsIdempotent(caps: bv64)
    requires CheckEpCaps(caps) != 0
    ensures CheckEpCaps(CheckEpCaps(caps)) == CheckEpCaps(caps)
  {
  }

  // ---------------------------------------------------------------------
  // Active endpoints

  /** The message operations installed: true for the real one, false for the not-supported stub. */
  datatype MsgOps = MsgOps(recv: bool, send: bool)

  /** The RMA operations installed, in the same way. */
  datatype RmaOps = RmaOps(read: bool, write: bool)

  /** The completion queues (or counters) serving sends, reads, writes and receives, by id. */
  datatype Slots = Slots(send: Option<nat>, read: Option<nat>, write: Option<nat>, recv: Option<nat>)

  const NO_SLOTS := Slots(None, None, None, None)

  /** What is bound to an endpoint, by id. */
  datatype Bindings = Bindings(cq: Slots, cntr: Slots, eq: Option<nat>, av: Option<nat>, mr: Option<nat>)

  const UNBOUND := Bindings(NO_SLOTS, NO_SLOTS, None, None, None)

  /**
   * dpa_fid_ep: its domain (by id, with the fabric and data progress it
   * has), the peer address, whether operations take the lock, the caps,
   * the operation tables, the passive endpoint it came from (by its
   * control segment id), the message queues and the bindings.
   */
  datatype Ep = Ep(
    domain: nat, fabric: nat, dataProgress: Progress, peer: AddrBuf, lockNeeded: bool, caps: bv64,
    msgOps: Option<MsgOps>, rmaOps: Option<RmaOps>, pep: Option<nat>,
    queues: Option<Msg.Endpoint>, bound: Bindings)

  /** The queues of a new message endpoint: unconnected with the status pointer NULL, nothing pending, one batch of free entries per side. */
  function NewQueues(): (q: Msg.Endpoint)
    ensures Msg.PoolOk(q) && !q.connected && q.status == Msg.Unset
    ensures q.tx.queue == [] && q.rx.queue == [] && |q.tx.spare| == Msg.BATCH && |q.rx.spare| == Msg.BATCH
  {
    var e := Msg.Endpoint(false, Msg.Unset, Msg.Side([], []), Msg.Side([], []), 0, None, None, None, None);
    assert Msg.PoolOk(e);
    Msg.AddBatchConserves(e, true);
    var t := Msg.AddBatch(e, true);
    Msg.AddBatchConserves(t, false);
    Msg.AddBatch(t, false)
  }

  /** A new, unbound endpoint with the operation tables and queues its caps call for. */
  function NewEp(domainId: nat, domain: Domain.Domain, peer: AddrBuf, pep: Option<nat>, caps: bv64): (ep: Ep)
    ensures ep.caps == caps && ep.domain == domainId && ep.fabric == domain.fabric && ep.dataProgress == domain.dataProgress
    ensures ep.peer == peer && ep.pep == pep && ep.bound == UNBOUND
    ensures ep.lockNeeded <==> domain.threading.Level() < ThreadFid.Level()
    ensures ep.msgOps.Some? <==> caps & FI_MSG != 0
    ensures ep.msgOps.Some? ==> (ep.msgOps.value.recv <==> caps & FI_RECV != 0) && (ep.msgOps.value.send <==> caps & FI_SEND != 0)
    ensures ep.rmaOps.Some? <==> caps & FI_RMA != 0
    ensures ep.rmaOps.Some? ==> (ep.rmaOps.value.read <==> caps & FI_READ != 0) && (ep.rmaOps.value.write <==> caps & FI_WRITE != 0)
    ensures ep.queues.Some? <==> caps & FI_MSG != 0
    ensures ep.queues.Some? ==> ep.queues.value == NewQueues()
  {
    var canMsg := caps & FI_MSG != 0;
    var canRma := caps & FI_RMA != 0;
    Ep(domainId, domain.fabric, domain.dataProgress, peer,
       domain.threading.Level() < ThreadFid.Level(), caps,
       if canMsg then Some(MsgOps(caps & FI_RECV != 0, caps & FI_SEND != 0)) else None,
       if canRma then Some(RmaOps(caps & FI_READ != 0, caps & FI_WRITE != 0)) else None,
       pep,
       if canMsg then Some(NewQueues()) else None,
       UNBOUND)
  }

  /**
   * dpa_ep_open: EINVAL without info, without a destination address of
   * the size of a dpa_addr_t, or with caps CheckEpCaps refuses. Otherwise
   * an unconnected endpoint with nothing bound, locking when the domain's
   * threading is below FI_THREAD_FID, with the message table when it has
   * FI_MSG and the RMA table when it has FI_RMA, each operation group
   * present only with its own cap, and message queues when it has FI_MSG.
   */
  function Open(domainId: nat, domain: Domain.Domain, info: Option<FiInfo>): (r: Result<Ep>)
    ensures r.Failure? ==> r.error == EINVAL
    ensures r.Success? <==>
      && info.Some? && info.value.destAddr.Some? && info.value.destAddr.value.len == Av.ADDR_SIZE
      && Info.SubsetOf(info.value.caps, Info.DPA_EP_MSG_CAP) && info.value.caps != 0
    ensures r.Success? ==>
      var ep := r.value;
      && ep.caps == CheckEpCaps(info.value.caps) && Info.SubsetOf(info.value.caps, ep.caps)
      && ep.domain == domainId && ep.fabric == domain.fabric && ep.dataProgress == domain.dataProgress
      && ep.peer == info.value.destAddr.value && ep.pep == info.value.handle && ep.bound == UNBOUND
      && (ep.lockNeeded <==> domain.threading.Level() < ThreadFid.Level())
      && (ep.msgOps.Some? <==> ep.caps & FI_MSG != 0)
      && (ep.msgOps.Some? ==> (ep.msgOps.value.recv <==> ep.caps & FI_RECV != 0) && (ep.msgOps.value.send <==> ep.caps & FI_SEND != 0))
      && (ep.rmaOps.Some? <==> ep.caps & FI_RMA != 0)
      && (ep.rmaOps.Some? ==> (ep.rmaOps.value.read <==> ep.caps & FI_READ != 0) && (ep.rmaOps.value.write <==> ep.caps & FI_WRITE != 0))
      && (ep.queues.Some? <==> ep.caps & FI_MSG != 0)
      && (ep.queues.Some? ==> ep.queues.value == NewQueues())
  {
    if info.None? then Failure(EINVAL)
    else if info.value.destAddr.None? || info.value.destAddr.value.len != Av.ADDR_SIZE then Failure(EINVAL)
    else
      var caps := CheckEpCaps(info.value.caps);
      if caps == 0 then Failure(EINVAL)
      else Success(NewEp(domainId, domain, info.value.destAddr.value, info.value.handle, caps))
  }

  /** A bare FI_MSG endpoint gets every message operation and no RMA table; a bare FI_RMA one every RMA operation and no queues. */
  lemma BareCapsGetWholeGroup(domainId: nat, domain: Domain.Domain, info: FiInfo)
    requires info.destAddr.Some? && info.destAddr.value.len == Av.ADDR_SIZE
    ensures info.caps == FI_MSG ==>
      var r := Open(domainId, domain, Some(info));
      r.Success? && r.value.msgOps == Some(MsgOps(true, true)) && r.value.rmaOps.None?
    ensures info.caps == FI_RMA ==>
      var r := Open(domainId, domain, Some(info));
      r.Success? && r.value.rmaOps == Some(RmaOps(true, true)) && r.value.queues.None? && r.value.msgOps.None?
  {
  }

  /** An endpoint opens with the caps fi_getinfo offered, once a destination address is filled in. */
  lemma OfferedInfoOpens(version: nat, flags: bv64, hints: Option<FiInfo>, localNodeId: nat, maxMsgSize: nat,
                         dest: AddrBuf, domainId: nat, domain: Domain.Domain)
    requires Info.GetInfo(version, flags, hints, localNodeId, maxMsgSize).Success? && dest.len == Av.ADDR_SIZE
    ensures var i := Info.GetInfo(version, flags, hints, localNodeId, maxMsgSize).value;
      var r := Open(domainId, domain, Some(i.(destAddr := Some(dest))));
      r.Success? && r.value.caps == CheckEpCaps(i.caps)
  {
  }

  // ---------------------------------------------------------------------
  // Binding

  /** The progress functions a completion queue or counter can run. */
  datatype ProgressFn = NoProgress | ProgressSendRecv | ProgressRecv | ProgressSend | ProgressOther

  /** A queue_progress: the function and the endpoint it is run for. */
  datatype Progressor = Progressor(func: ProgressFn, arg: Option<nat>)

  /** A fid being bound: its class, its id, and the domain, fabric and progress hook it has. */
  datatype Target = Target(fclass: FidClass, id: nat, domain: nat, fabric: nat, progress: Progressor)

  /** The endpoint after a bind, the target's progress hook when the bind sets it, and the return code. */
  datatype Bound = Bound(ep: Ep, progress: Option<Progressor>, status: Status)

  /**
   * bind_progress as written: under manual data progress, install the
   * send-and-receive, receive or send progress function by the flags,
   * and in every case point the hook at this endpoint, even when no
   * function was installed.
   */
  function BindProgressAsWritten(dataProgress: Progress, p: Progressor, flags: bv64, epId: nat): (r: Progressor)
    ensures dataProgress != ProgressManual ==> r == p
    ensures dataProgress == ProgressManual ==> r.arg == Some(epId)
    ensures dataProgress == ProgressManual && flags & (FI_RECV | FI_SEND) == 0 ==> r.func == p.func
  {
    if dataProgress != ProgressManual then p
    else if flags | FI_RECV | FI_SEND == flags then Progressor(ProgressSendRecv, Some(epId))
    else if flags & FI_RECV != 0 then Progressor(ProgressRecv, Some(epId))
    else if flags & FI_SEND != 0 then Progressor(ProgressSend, Some(epId))
    else p.(arg := Some(epId))
  }

  /**
   * bind_progress, corrected: a bind that installs no function leaves the
   * hook as it was. Under manual progress the function follows the
   * directions bound: both, receive or send.
   */
  function BindProgress(dataProgress: Progress, p: Progressor, flags: bv64, epId: nat): (r: Progressor)
    ensures dataProgress != ProgressManual || flags & (FI_RECV | FI_SEND) == 0 ==> r == p
    ensures dataProgress == ProgressManual && flags & (FI_RECV | FI_SEND) != 0 ==>
      && r.arg == Some(epId)
      && (r.func == ProgressSendRecv <==> flags & FI_RECV != 0 && flags & FI_SEND != 0)
      && (r.func == ProgressRecv <==> flags & FI_RECV != 0 && flags & FI_SEND == 0)
      && (r.func == ProgressSend <==> flags & FI_RECV == 0 && flags & FI_SEND != 0)
  {
    if flags & (FI_RECV | FI_SEND) == 0 then p
    else BindProgressAsWritten(dataProgress, p, flags, epId)
  }

  /**
   * A counter whose hook runs one endpoint's send queue, bound to a
   * second endpoint for reads only, ends up running the second
   * endpoint's send queue: the first endpoint's sends are no longer
   * progressed by it. The corrected hook is left alone.
   */
  lemma ReadBindRetargetsProgress()
    ensures BindProgressAsWritten(ProgressManual, Progressor(ProgressSend, Some(1)), FI_READ, 2) == Progressor(ProgressSend, Some(2))
    ensures BindProgress(ProgressManual, Progressor(ProgressSend, Some(1)), FI_READ, 2) == Progressor(ProgressSend, Some(1))
  {
  }

  /**
   * The slots a completion queue or counter bound with these flags
   * fills: FI_SEND serves sends, reads and writes; FI_READ and FI_WRITE
   * add reads or writes; FI_RECV serves receives. Other slots are kept.
   */
  function FillSlots(s: Slots, flags: bv64, id: nat): (r: Slots)
    ensures flags & FI_SEND != 0 ==> r.send == r.read == r.write == Some(id)
    ensures flags & FI_SEND == 0 ==> r.send == s.send
    ensures flags & FI_READ != 0 ==> r.read == Some(id)
    ensures flags & FI_WRITE != 0 ==> r.write == Some(id)
    ensures flags & (FI_SEND | FI_READ) == 0 ==> r.read == s.read
    ensures flags & (FI_SEND | FI_WRITE) == 0 ==> r.write == s.write
    ensures r.recv == if flags & FI_RECV != 0 then Some(id) else s.recv
  {
    Slots(
      if flags & FI_SEND != 0 then Some(id) else s.send,
      if flags & (FI_SEND | FI_READ) != 0 then Some(id) else s.read,
      if flags & (FI_SEND | FI_WRITE) != 0 then Some(id) else s.write,
      if flags & FI_RECV != 0 then Some(id) else s.recv)
  }

  /**
   * dpa_ep_bind: EINVAL for a NULL fid and for an object of another
   * fabric (an event queue) or domain (the others); ENOSYS for a shared
   * transmit context or a class that cannot be bound. A completion queue
   * or counter fills the slots FillSlots says, and its progress hook is
   * set as BindProgress does; nothing else of the endpoint changes.
   */
  function Bind(ep: Ep, epId: nat, bfid: Option<Target>, flags: bv64): (r: Bound)
    ensures r.status.Err? ==> r.ep == ep && r.progress.None?
    ensures r.status.Err? ==> r.status in {Err(EINVAL), Err(ENOSYS)}
    ensures bfid.None? ==> r.status == Err(EINVAL)
    ensures r.status == Ok ==> r.ep == ep.(bound := r.ep.bound)
    ensures bfid.Some? && bfid.value.fclass !in {ClassEq, ClassCq, ClassCntr, ClassAv, ClassMr} ==> r.status == Err(ENOSYS)
    ensures bfid.Some? && bfid.value.fclass == ClassEq ==> (r.status == Ok <==> bfid.value.fabric == ep.fabric)
    ensures bfid.Some? && bfid.value.fclass in {ClassCq, ClassCntr, ClassAv, ClassMr} ==> (r.status == Ok <==> bfid.value.domain == ep.domain)
    ensures r.progress.Some? <==> r.status == Ok && bfid.value.fclass in {ClassCq, ClassCntr}
    ensures r.progress.Some? ==> r.progress.value == BindProgress(ep.dataProgress, bfid.value.progress, flags, epId)
    ensures r.status == Ok ==>
      var b := ep.bound; var id := bfid.value.id;
      r.ep.bound == match bfid.value.fclass
        case ClassCq => b.(cq := FillSlots(b.cq, flags, id))
        case ClassCntr => b.(cntr := FillSlots(b.cntr, flags, id))
        case ClassEq => b.(eq := Some(id))
        case ClassAv => b.(av := Some(id))
        case _ => b.(mr := Some(id))
  {
    if bfid.None? then Bound(ep, None, Err(EINVAL))
    else
      var t := bfid.value;
      var b := ep.bound;
      match t.fclass
      case ClassEq =>
        if ep.fabric != t.fabric then Bound(ep, None, Err(EINVAL))
        else Bound(ep.(bound := b.(eq := Some(t.id))), None, Ok)
      case ClassCq =>
        if ep.domain != t.domain then Bound(ep, None, Err(EINVAL))
        else Bound(ep.(bound := b.(cq := FillSlots(b.cq, flags, t.id))), Some(BindProgress(ep.dataProgress, t.progress, flags, epId)), Ok)
      case ClassCntr =>
        if ep.domain != t.domain then Bound(ep, None, Err(EINVAL))
        else Bound(ep.(bound := b.(cntr := FillSlots(b.cntr, flags, t.id))), Some(BindProgress(ep.dataProgress, t.progress, flags, epId)), Ok)
      case ClassAv =>
        if ep.domain != t.domain then Bound(ep, None, Err(EINVAL))
        else Bound(ep.(bound := b.(av := Some(t.id))), None, Ok)
      case ClassMr =>
        if ep.domain != t.domain then Bound(ep, None, Err(EINVAL))
        else Bound(ep.(bound := b.(mr := Some(t.id))), None, Ok)
      case ClassStxCtx => Bound(ep, None, Err(ENOSYS))
      case _ => Bound(ep, None, Err(ENOSYS))
  }

  /** Binding the same queue twice with the same flags is the same as binding it once. */
  lemma BindTwice(ep: Ep, epId: nat, t: Target, flags: bv64)
    requires Bind(ep, epId, Some(t), flags).status == Ok
    ensures var once := Bind(ep, epId, Some(t), flags);
      Bind(once.ep, epId, Some(t), flags).ep == once.ep
  {
  }

  // ---------------------------------------------------------------------
  // Own address

  /** The bytes copied out, the address length reported back, and the return code. */
  datatype Named = Named(addr: seq<byte>, addrlen: nat, status: Status)

  /**
   * dpa_getname: the endpoint's address is the local node and the control
   * segment of the passive endpoint it came from (0 when none). As many
   * bytes as fit are copied, the full size is reported, and ETOOSMALL
   * says the copy was cut short.
   */
  function GetName(ep: Ep, addrlen: nat, localNodeId: nat): (r: Named)
    ensures r.addrlen == Av.ADDR_SIZE
    ensures |r.addr| == Min(addrlen, Av.ADDR_SIZE)
    ensures r.status == (if addrlen < Av.ADDR_SIZE then Err(ETOOSMALL) else Ok)
    ensures r.addr == Av.Encode(Av.Addr(localNodeId, if ep.pep.Some? then ep.pep.value else 0))[..|r.addr|]
  {
    var local := Av.Addr(localNodeId, if ep.pep.Some? then ep.pep.value else 0);
    var n := Min(addrlen, Av.ADDR_SIZE);
    Named(Av.Encode(local)[..n], Av.ADDR_SIZE, if n < Av.ADDR_SIZE then Err(ETOOSMALL) else Ok)
  }

  /** With room for the whole address, the bytes read back as the local node and the passive endpoint's segment. */
  lemma GetNameReadsBack(ep: Ep, addrlen: nat, localNodeId: nat)
    requires addrlen >= Av.ADDR_SIZE && localNodeId < U32_LIMIT && (ep.pep.Some? ==> ep.pep.value < U32_LIMIT)
    ensures var r := GetName(ep, addrlen, localNodeId);
      |r.addr| == Av.ADDR_SIZE && Av.Decode(r.addr) == Av.Addr(localNodeId, if ep.pep.Some? then ep.pep.value else 0)
  {
    var local := Av.Addr(localNodeId, if ep.pep.Some? then ep.pep.value else 0);
    assert Av.Encode(local)[..Av.ADDR_SIZE] == Av.Encode(local);
    Av.DecodeEncodeAddr(local);
  }

  // ---------------------------------------------------------------------
  // Passive endpoints

  /**
   * dpa_passive_ep_open as written: EINVAL without info, without a source
   * address, or with caps CheckEpCaps refuses. The length test is
   * written `!src_addrlen == sizeof(dpa_addr_t)`, which compares 0 or 1
   * with 8 and never holds, so a source address of any length is read as
   * a dpa_addr_t.
   */
  function PassiveOpenAsWritten(info: Option<FiInfo>): (r: Result<Cm.Pep>)
    ensures r.Failure? ==> r.error == EINVAL
    ensures r.Success? <==> info.Some? && info.value.srcAddr.Some? && CheckEpCaps(info.value.caps) != 0
    ensures r.Success? ==> r.value == Cm.Pep(None, info.value.srcAddr.value.segmentId, false)
  {
    if info.None? then Failure(EINVAL)
    else if info.value.srcAddr.None? || ((if info.value.srcAddr.value.len == 0 then 1 else 0) == Av.ADDR_SIZE) then Failure(EINVAL)
    else if CheckEpCaps(info.value.caps) == 0 then Failure(EINVAL)
    else Success(Cm.Pep(None, info.value.srcAddr.value.segmentId, false))
  }

  /** dpa_passive_ep_open, corrected: a source address must also have the size of a dpa_addr_t. */
  function PassiveOpen(info: Option<FiInfo>): (r: Result<Cm.Pep>)
    ensures r.Failure? ==> r.error == EINVAL
    ensures r.Success? <==>
      info.Some? && info.value.srcAddr.Some? && info.value.srcAddr.value.len == Av.ADDR_SIZE && CheckEpCaps(info.value.caps) != 0
    ensures r.Success? ==> r.value == Cm.Pep(None, info.value.srcAddr.value.segmentId, false) && Cm.PepWf(r.value)
  {
    if info.Some? && info.value.srcAddr.Some? && info.value.srcAddr.value.len != Av.ADDR_SIZE then Failure(EINVAL)
    else PassiveOpenAsWritten(info)
  }

  /** A four-byte source address is accepted as written (and eight bytes read from it), and refused when corrected. */
  lemma PassiveOpenIgnoresLength(nodeId: nat, segmentId: nat)
    ensures var info := FiInfo(FI_MSG, FI_FORMAT_UNSPEC, Some(AddrBuf(4, nodeId, segmentId)), None, None,
                               None, None, None, None, None);
      && PassiveOpenAsWritten(Some(info)) == Success(Cm.Pep(None, segmentId, false))
      && PassiveOpen(Some(info)) == Failure(EINVAL)
  {
  }
}
