/**
 * Connection management entry points (dpa_cm.c): listen, accept, connect
 * and shutdown on top of the messaging bookkeeping, the progress function
 * a listening endpoint installs on its event queue, and the start-up of
 * the receive-buffer pool.
 *
 * The hardware library is an oracle: each call's answer is a parameter,
 * and the segment events a listener waits for arrive as a sequence.
 */
module Cm {
  import opened Bytes
  import opened Fabric
  import Eq
  import MsgCm

  /** FI_CONNREQ, the event number of a connection request. */
  const FI_CONNREQ: nat := 1

  /**
   * dpa_fid_pep: its event queue (NULL when none is bound), the id of its
   * control segment, and whether that segment has been created.
   */
  datatype Pep = Pep(eq: Option<Eq.Eq>, segmentId: nat, listening: bool)

  predicate PepWf(pep: Pep)
  {
    pep.eq.Some? ==> Eq.Wf(pep.eq.value)
  }

  /**
   * dpa_listen: without an event queue -FI_ENOEQ and nothing changes.
   * Otherwise create the control segment and install progress_eq as the
   * queue's progress function, whether or not creation succeeded; a
   * segment id already in use is -FI_EADDRINUSE, any other failure
   * -FI_EOTHER.
   */
  function Listen(pep: Pep, hw: HwError): (r: (Pep, Status))
    ensures pep.eq.None? ==> r == (pep, Err(ENOEQ))
    ensures pep.eq.Some? ==>
      && r.0.eq == Some(pep.eq.value.(hasProgress := true))
      && r.0.segmentId == pep.segmentId
      && (r.1 == Ok <==> hw == HwOk) && (r.0.listening <==> hw == HwOk || pep.listening)
      && (hw == SegmentIdUsed ==> r.1 == Err(EADDRINUSE))
      && (hw != HwOk && hw != SegmentIdUsed ==> r.1 == Err(EOTHER))
  {
    if pep.eq.None? then (pep, Err(ENOEQ))
    else
      var hooked := pep.(eq := Some(pep.eq.value.(hasProgress := true)));
      if hw == SegmentIdUsed then (hooked, Err(EADDRINUSE))
      else if hw != HwOk then (hooked, Err(EOTHER))
      else (hooked.(listening := true), Ok)
  }

  /** Installing the progress function keeps the queue well formed and silences its condition signal. */
  lemma ListenHooksProgress(pep: Pep, hw: HwError)
    requires PepWf(pep) && pep.eq.Some?
    ensures PepWf(Listen(pep, hw).0)
    ensures !Eq.Add(Listen(pep, hw).0.eq, FI_CONNREQ, [], 0).woken
  {
  }

  /** One return of DPAWaitForLocalSegmentEvent: whether it was a connect event, the node, and the error. */
  datatype SegEvent = SegEvent(connect: bool, nodeId: nat, error: HwError)

  /** The connection request queued: dest_addr {nodeId, segment 0}, handle the passive endpoint. */
  datatype ConnReq = ConnReq(nodeId: nat, segmentId: nat, handle: nat)

  /** What progress_eq leaves: the queue, the budget it returns, and the request it queued. */
  datatype Progressed = Progressed(eq: Option<Eq.Eq>, budget: Budget, request: Option<ConnReq>)

  /**
   * The index of the first segment event that ends the wait: a connect
   * event, or any other event that comes with an error. None when every
   * event supplied is a harmless non-connect one (the wait goes on).
   */
  function FirstDecisive(events: seq<SegEvent>): (r: Option<nat>)
    ensures r.Some? ==> r.value < |events| && (events[r.value].connect || events[r.value].error != HwOk)
    ensures forall k | 0 <= k < |events| && (r.None? || k < r.value) :: !events[k].connect && events[k].error == HwOk
  {
    if events == [] then None
    else if events[0].connect || events[0].error != HwOk then Some(0)
    else match FirstDecisive(events[1..])
      case None => None
      case Some(j) => Some(j + 1)
  }

  /**
   * progress_eq: wait for segment events on the control segment (a
   * negative timeout waits forever). A timeout or an error ends the wait
   * with budget 0 and nothing queued. A connect event queues one
   * FI_CONNREQ carrying entry (the fi_eq_cm_entry for the node) and hands
   * back the whole budget. Non-connect events without an error keep
   * waiting. None when the events supplied run out first.
   */
  function ProgressEq(pep: Pep, handle: nat, timeout: int, events: seq<SegEvent>, entry: seq<byte>): (r: Option<Progressed>)
    requires PepWf(pep)
    ensures r.Some? <==> FirstDecisive(events).Some?
    ensures r.Some? ==> var e := events[FirstDecisive(events).value];
      && (r.value.request.Some? <==> e.connect)
      && (e.connect ==>
            && r.value.request == Some(ConnReq(e.nodeId, 0, handle))
            && r.value.budget == BudgetOf(timeout)
            && r.value.eq == Eq.Add(pep.eq, FI_CONNREQ, entry, 0).eq)
      && (!e.connect ==> r.value.budget == Finite(0) && r.value.eq == pep.eq)
  {
    match FirstDecisive(events)
    case None => None
    case Some(i) =>
      var e := events[i];
      if e.connect then Some(Progressed(Eq.Add(pep.eq, FI_CONNREQ, entry, 0).eq, BudgetOf(timeout), Some(ConnReq(e.nodeId, 0, handle))))
      else Some(Progressed(pep.eq, Finite(0), None))
  }

  /**
   * The return-remaining-budget convention: progress either spends the
   * whole budget (0) and queues nothing, or hands it all back and queues
   * exactly one connection request at the tail of the event list.
   */
  lemma ProgressBudgetConvention(pep: Pep, handle: nat, timeout: int, events: seq<SegEvent>, entry: seq<byte>)
    requires PepWf(pep) && pep.eq.Some?
    requires ProgressEq(pep, handle, timeout, events, entry).Some?
    ensures var r := ProgressEq(pep, handle, timeout, events, entry).value;
      var e := pep.eq.value;
      && r.eq.Some? && Eq.Wf(r.eq.value)
      && (r.request.None? ==> r.eq.value == e && r.budget == Finite(0))
      && (r.request.Some? ==>
            && r.budget == BudgetOf(timeout)
            && |r.eq.value.events| == |e.events| + 1 && r.eq.value.events[..|e.events|] == e.events
            && r.eq.value.errors == e.errors
            && r.eq.value.store[r.eq.value.events[|e.events|]].event == FI_CONNREQ)
  {
    var r := ProgressEq(pep, handle, timeout, events, entry).value;
    var e := pep.eq.value;
    if r.request.Some? {
      var e2 := r.eq.value;
      assert e2.events == e.events + [e2.events[|e.events|]];
    }
  }

  /** The caps and messaging state of an active endpoint. */
  datatype CmEp = CmEp(caps: bv64, msg: MsgCm.MsgEp)

  predicate HasMsg(ep: CmEp)
  {
    ep.caps & FI_MSG != 0
  }

  /** The process-wide receive-buffer pool and this listener's control table. */
  datatype Shared = Shared(control: MsgCm.Control, pool: MsgCm.Pool)

  /**
   * dpa_accept: success without doing anything when the endpoint lacks
   * FI_MSG, otherwise accept_msg. None when accept_msg waits forever.
   */
  function Accept(cfg: MsgCm.Config, ep: CmEp, sh: Shared, attempts: seq<HwError>, hw: MsgCm.HwAlloc, peerNode: nat,
                  peerData: MsgCm.SegmentData, link: MsgCm.HwLink, cmEntry: seq<byte>): (r: Option<(CmEp, Shared, Status)>)
    requires MsgCm.EpWf(ep.msg)
    ensures !HasMsg(ep) ==> r == Some((ep, sh, Ok))
    ensures r.Some? ==> r.value.2 in {Ok, Err(ENOSPC), Err(ECONNABORTED)} && r.value.0.caps == ep.caps
    ensures r.Some? && r.value.2 == Err(ENOSPC) ==> r.value.0 == ep
    ensures r.Some? && HasMsg(ep) && r.value.2 == Ok ==> r.value.0.msg.connected && r.value.0.msg.sendWrite == 0
    ensures r.Some? && r.value.2 == Err(ECONNABORTED) ==> r.value.0.msg.connected == ep.msg.connected
    ensures r.Some? && MsgCm.Compact(sh.control) ==>
      MsgCm.Compact(r.value.1.control) && r.value.1.control.index == sh.control.index
  {
    if !HasMsg(ep) then Some((ep, sh, Ok))
    else match MsgCm.AcceptMsg(cfg, sh.control, sh.pool, attempts, hw, peerNode, ep.msg, peerData, link, cmEntry)
      case None => None
      case Some(o) => Some((ep.(msg := o.ep), Shared(o.control, o.pool), o.ret))
  }

  /** What dpa_connect leaves: the endpoint, the pool, the listener's control table, and the return code. */
  datatype Connected = Connected(ep: CmEp, pool: MsgCm.Pool, listener: MsgCm.Control, ret: Status)

  /**
   * dpa_connect: success without doing anything when the endpoint lacks
   * FI_MSG. Otherwise run the control handshake on the listener's table
   * (-FI_ECONNABORTED when it fails), then link to the buffer the
   * listener published; when linking fails, disconnect and return
   * -FI_ECONNABORTED. None when the handshake waits forever.
   */
  function Connect(cfg: MsgCm.Config, ep: CmEp, listener: MsgCm.Control, node: nat, pool: MsgCm.Pool,
                   attempts: seq<HwError>, ctrl: MsgCm.HwCtrl, hw: MsgCm.HwAlloc,
                   link: MsgCm.HwLink, un: MsgCm.HwUnlink, cmEntry: seq<byte>): (r: Option<Connected>)
    requires MsgCm.EpWf(ep.msg)
    ensures !HasMsg(ep) ==> r == Some(Connected(ep, pool, listener, Ok))
    ensures r.Some? ==> MsgCm.EpWf(r.value.ep.msg) && r.value.ret in {Ok, Err(ECONNABORTED)}
    ensures r.Some? && HasMsg(ep) ==>
      && MsgCm.CtrlConnectMsg(cfg, listener, node, pool, attempts, ctrl, hw).Some?
      && var c := MsgCm.CtrlConnectMsg(cfg, listener, node, pool, attempts, ctrl, hw).value;
      && r.value.pool == c.pool && r.value.listener == c.control
      && (c.error != HwOk ==> r.value.ret == Err(ECONNABORTED) && r.value.ep == ep)
      && (c.error == HwOk ==>
            var l := MsgCm.ConnectMsg(ep.msg, c.peerData, link, cmEntry);
            && (r.value.ret == Ok <==> l.error == HwOk)
            && (l.error == HwOk ==> r.value.ep.msg == l.ep)
            && (l.error != HwOk ==> r.value.ep.msg == MsgCm.DisconnectMsg(l.ep, un).ep))
  {
    if !HasMsg(ep) then Some(Connected(ep, pool, listener, Ok))
    else match MsgCm.CtrlConnectMsg(cfg, listener, node, pool, attempts, ctrl, hw)
      case None => None
      case Some(c) =>
        if c.error != HwOk then Some(Connected(ep, c.pool, c.control, Err(ECONNABORTED)))
        else
          var l := MsgCm.ConnectMsg(ep.msg, c.peerData, link, cmEntry);
          if l.error == HwOk then Some(Connected(ep.(msg := l.ep), c.pool, c.control, Ok))
          else Some(Connected(ep.(msg := MsgCm.DisconnectMsg(l.ep, un).ep), c.pool, c.control, Err(ECONNABORTED)))
  }

  /**
   * A connect that returns success leaves the endpoint connected and
   * holding all four remote handles; one that aborts leaves it
   * disconnected and holding none.
   */
  lemma ConnectAllOrNothing(cfg: MsgCm.Config, ep: CmEp, listener: MsgCm.Control, node: nat, pool: MsgCm.Pool,
                            attempts: seq<HwError>, ctrl: MsgCm.HwCtrl, hw: MsgCm.HwAlloc,
                            link: MsgCm.HwLink, un: MsgCm.HwUnlink, cmEntry: seq<byte>)
    requires MsgCm.EpWf(ep.msg) && HasMsg(ep) && ep.msg.held == {} && !ep.msg.connected
    requires Connect(cfg, ep, listener, node, pool, attempts, ctrl, hw, link, un, cmEntry).Some?
    ensures var r := Connect(cfg, ep, listener, node, pool, attempts, ctrl, hw, link, un, cmEntry).value;
      && (r.ret == Ok ==> r.ep.msg.connected && r.ep.msg.held == set h | h in MsgCm.LINK_STEPS)
      && (r.ret != Ok ==> !r.ep.msg.connected && r.ep.msg.held == {})
  {
    var c := MsgCm.CtrlConnectMsg(cfg, listener, node, pool, attempts, ctrl, hw).value;
    MsgCm.LinkAllOrNothing(ep.msg, c.peerData, link, cmEntry, un);
  }

  /**
   * dpa_shutdown: success without doing anything when the endpoint lacks
   * FI_MSG, otherwise disconnect, mapping any release failure to
   * -FI_EOTHER.
   */
  function Shutdown(ep: CmEp, un: MsgCm.HwUnlink): (r: (CmEp, Status))
    ensures !HasMsg(ep) ==> r == (ep, Ok)
    ensures HasMsg(ep) ==>
      && !r.0.msg.connected && r.0.caps == ep.caps
      && (forall h | h in r.0.msg.held :: h !in MsgCm.UNLINK_ORDER)
      && (r.1 == Ok <==> MsgCm.DisconnectMsg(ep.msg, un).result == HwOk)
      && (r.1 != Ok ==> r.1 == Err(EOTHER))
  {
    if !HasMsg(ep) then (ep, Ok)
    else
      var d := MsgCm.DisconnectMsg(ep.msg, un);
      (ep.(msg := d.ep), if d.result == HwOk then Ok else Err(EOTHER))
  }

  /** A shutdown after a successful connect releases every remote handle the connect acquired. */
  lemma ShutdownReleasesConnection(ep: CmEp, remote: MsgCm.SegmentData, link: MsgCm.HwLink, cmEntry: seq<byte>, un: MsgCm.HwUnlink)
    requires MsgCm.EpWf(ep.msg) && HasMsg(ep) && ep.msg.held == {} && MsgCm.LinkFailsAt(link) == 4
    ensures var l := MsgCm.ConnectMsg(ep.msg, remote, link, cmEntry);
      var d := MsgCm.DisconnectMsg(l.ep, un);
      && (forall h :: h in d.released <==> h in MsgCm.LINK_STEPS)
      && Shutdown(ep.(msg := l.ep), un).0.msg.held == {}
  {
    MsgCm.ConnectThenDisconnect(ep.msg, remote, link, cmEntry, un);
    assert MsgCm.LINK_STEPS[..4] == MsgCm.LINK_STEPS;
  }

  /**
   * dpa_cm_init: the current segment id starts at the lowest message
   * segment id and the pool has NUM_SEGMENTS segments, none created.
   */
  function CmInit(cfg: MsgCm.Config): (p: MsgCm.Pool)
    ensures p.current == cfg.minSegmId
    ensures |p.segments| == MsgCm.NumSegments(cfg)
    ensures forall i | 0 <= i < |p.segments| :: p.segments[i].segmentId == 0
  {
    MsgCm.Pool(cfg.minSegmId, seq(MsgCm.NumSegments(cfg), _ => MsgCm.LocalSegment(0, [])))
  }

  /**
   * The first buffer handed out after start-up is buffer 0 of the first
   * segment, which is created with the lowest message segment id, after
   * which the current id has advanced by one.
   */
  lemma FirstBufferAfterInit(cfg: MsgCm.Config, rest: seq<HwError>)
    requires cfg.minSegmId < cfg.maxSegmId < U32_LIMIT && cfg.minSegmId != 0 && cfg.perSegment > 0
    ensures var s := MsgCm.GetEmpty(cfg, CmInit(cfg), 0, [HwOk] + rest);
      && s.Found? && s.seg == 0 && s.buf == 0 && s.rest == rest
      && s.pool.segments[0].segmentId == cfg.minSegmId
      && s.pool.current == cfg.minSegmId + 1
  {
    var p := CmInit(cfg);
    var p1 := MsgCm.CreateDataSegment(cfg, p, 0, HwOk);
    assert ([HwOk] + rest)[1..] == rest;
    assert MsgCm.EnsureCreated(cfg, p1, 0, rest) == Some((p1, rest));
    assert MsgCm.EnsureCreated(cfg, p, 0, [HwOk] + rest) == Some((p1, rest));
    assert !MsgCm.InUse(p1.segments[0].buffers[0]);
  }
}
