/**
 * Provider discovery (dpa_info.c): checking an application's fi_info
 * hints against what the provider supports, and building the fi_info the
 * provider offers in return.
 *
 * Resolving a node name to a node id is a hardware lookup and is not
 * modelled: GetInfo describes calls that pass neither a node nor a
 * service, whose addresses come from the hints.
 */
module Info {
  import opened Fabric
  import Domain
  import Av

  const DPA_MSG_CAP: bv64 := FI_MSG | FI_RECV | FI_SEND
  const DPA_RMA_CAP: bv64 := FI_RMA | FI_READ | FI_WRITE | FI_REMOTE_READ | FI_REMOTE_WRITE
  const DPA_EP_MSG_CAP: bv64 := DPA_MSG_CAP | DPA_RMA_CAP
  const DPA_EP_RDM_CAP: bv64 := DPA_RMA_CAP

  /** FI_VERSION(1, 3): the major version in the upper 16 bits, the minor in the lower. */
  const DPA_FI_VERSION: nat := 1 * 0x1_0000 + 3
  /** FI_PROTO_DPA: a provider-specific protocol has the top bit of the 32-bit value set. */
  const FI_PROTO_DPA: nat := 0x8000_0000 + 1
  const DPA_PROTO_VERSION: nat := 1
  const DPA_MAX_CTX_CNT: nat := 1
  /** The provider, fabric and domain name. */
  const DPA_NAME: string := "dpa"

  /** Every bit of a is a bit of b: the provider's (b | a) == b. */
  predicate SubsetOf(a: bv64, b: bv64)
  {
    b | a == b
  }

  /** The capabilities the provider offers for an endpoint type; None for types it does not support. */
  function AllowedCaps(t: EpType): (c: Option<bv64>)
    ensures c.Some? ==> c.value != 0 && SubsetOf(c.value, DPA_EP_MSG_CAP)
    ensures c.None? <==> t == EpOther
  {
    match t
    case EpUnspec => Some(DPA_EP_MSG_CAP)
    case EpMsg => Some(DPA_EP_MSG_CAP)
    case EpRdm => Some(DPA_EP_RDM_CAP)
    case EpDgram => Some(DPA_EP_RDM_CAP)
    case EpOther => None
  }

  function HintEpType(hints: FiInfo): EpType
  {
    if hints.epAttr.Some? then hints.epAttr.value.epType else EpUnspec
  }

  /**
   * get_ep_caps: without hints, the MSG endpoint set; otherwise the hinted
   * caps when they are set, or the whole set of the hinted endpoint type.
   * ENODATA for an unknown type or caps outside its set.
   */
  function GetEpCaps(hints: Option<FiInfo>): (r: Result<bv64>)
    ensures r.Failure? ==> r.error == ENODATA
    ensures hints.None? ==> r == Success(DPA_EP_MSG_CAP)
    ensures hints.Some? ==>
      var allowed := AllowedCaps(HintEpType(hints.value));
      (r.Success? <==> allowed.Some? && SubsetOf(hints.value.caps, allowed.value))
    ensures r.Success? ==> r.value != 0 && SubsetOf(r.value, DPA_EP_MSG_CAP)
    ensures r.Success? && hints.Some? ==>
      && SubsetOf(r.value, AllowedCaps(HintEpType(hints.value)).value)
      && (hints.value.caps != 0 ==> r.value == hints.value.caps)
      && (hints.value.caps == 0 ==> r.value == AllowedCaps(HintEpType(hints.value)).value)
      && SubsetOf(hints.value.caps, r.value)
  {
    if hints.None? then Success(DPA_EP_MSG_CAP)
    else
      var allowed := AllowedCaps(HintEpType(hints.value));
      if allowed.None? then Failure(ENODATA)
      else if !SubsetOf(hints.value.caps, allowed.value) then Failure(ENODATA)
      else
        SubsetTrans(hints.value.caps, allowed.value, DPA_EP_MSG_CAP);
        Success(if hints.value.caps != 0 then hints.value.caps else allowed.value)
  }

  lemma SubsetTrans(a: bv64, b: bv64, c: bv64)
    requires SubsetOf(a, b) && SubsetOf(b, c)
    ensures SubsetOf(a, c)
  {
    calc {
      c | a;
      (c | b) | a;
      c | (b | a);
      c | b;
      c;
    }
  }

  /** Endpoint attributes the provider can meet: its protocol, its message size, at most one unshared context each way. */
  predicate EpAttrOk(a: EpAttr, maxMsgSize: nat)
  {
    && (a.protocol == FI_PROTO_DPA || a.protocol == FI_PROTO_UNSPEC)
    && a.protocolVersion <= DPA_PROTO_VERSION
    && a.maxMsgSize <= maxMsgSize
    && a.txCtxCnt <= DPA_MAX_CTX_CNT
    && a.rxCtxCnt <= DPA_MAX_CTX_CNT
  }

  /**
   * dpa_verify_ep_attr. maxMsgSize is DPA_MAX_MSG_SIZE, the aligned
   * buffer size less the status header. FI_SHARED_CONTEXT is SIZE_MAX,
   * which the bound of one already excludes; the max_order sizes are
   * bounded by SIZE_MAX and cannot fail.
   */
  function VerifyEpAttr(a: Option<EpAttr>, maxMsgSize: nat): (r: Status)
    ensures r.Err? ==> r.code == ENODATA
    ensures r == Ok <==> a.None? || EpAttrOk(a.value, maxMsgSize)
  {
    if a.None? then Ok
    else
      var e := a.value;
      if e.protocol != FI_PROTO_DPA && e.protocol != FI_PROTO_UNSPEC then Err(ENODATA)
      else if e.protocolVersion > DPA_PROTO_VERSION then Err(ENODATA)
      else if e.maxMsgSize > maxMsgSize then Err(ENODATA)
      else if e.txCtxCnt > DPA_MAX_CTX_CNT then Err(ENODATA)
      else if e.rxCtxCnt > DPA_MAX_CTX_CNT then Err(ENODATA)
      else Ok
  }

  /** dpa_verify_tx_attr and dpa_verify_rx_attr: caps within the MSG endpoint set. */
  function VerifyCtxAttr(caps: Option<bv64>): (r: Status)
    ensures r.Err? ==> r.code == ENODATA
    ensures r == Ok <==> caps.None? || SubsetOf(caps.value, DPA_EP_MSG_CAP)
  {
    if caps.None? then Ok
    else if caps.value | DPA_EP_MSG_CAP != DPA_EP_MSG_CAP then Err(ENODATA)
    else Ok
  }

  /** Hints the provider accepts, stated as one condition. */
  predicate Acceptable(node: bool, service: bool, flags: bv64, h: FiInfo, localNodeId: nat, maxMsgSize: nat)
  {
    && (flags & FI_SOURCE == 0 && h.srcAddr.Some? ==> h.srcAddr.value.len == Av.ADDR_SIZE && h.srcAddr.value.nodeId == localNodeId)
    && ((!node && !service) || flags & FI_SOURCE != 0 ==> h.destAddr.None? || h.destAddr.value.len == Av.ADDR_SIZE)
    && GetEpCaps(Some(h)).Success?
    && (h.epAttr.None? || EpAttrOk(h.epAttr.value, maxMsgSize))
    && (h.txCaps.None? || SubsetOf(h.txCaps.value, DPA_EP_MSG_CAP))
    && (h.rxCaps.None? || SubsetOf(h.rxCaps.value, DPA_EP_MSG_CAP))
    && h.addrFormat == FI_FORMAT_UNSPEC
    && (h.fabricAttr.Some? && h.fabricAttr.value.provName.Some? ==> h.fabricAttr.value.provName.value == DPA_NAME)
    && (h.fabricAttr.Some? && h.fabricAttr.value.name.Some? ==> h.fabricAttr.value.name.value == DPA_NAME)
    && (h.domainAttr.Some? ==> h.domainAttr.value.mrMode != MrBasic)
  }

  /**
   * dpa_verify_requirements: the version first, then (with hints) the
   * source address unless FI_SOURCE, the destination address when it is
   * not going to be resolved, the caps, the endpoint and context
   * attributes, the address format, the names and the registration mode.
   * Every refusal is ENODATA.
   */
  function VerifyRequirements(version: nat, node: bool, service: bool, flags: bv64,
                              hints: Option<FiInfo>, localNodeId: nat, maxMsgSize: nat): (r: Status)
    ensures r.Err? ==> r.code == ENODATA
    ensures r == Ok <==> version <= DPA_FI_VERSION && (hints.None? || Acceptable(node, service, flags, hints.value, localNodeId, maxMsgSize))
    ensures r == Ok ==> GetEpCaps(hints).Success?
  {
    if version > DPA_FI_VERSION then Err(ENODATA)
    else if hints.None? then Ok
    else
      var h := hints.value;
      if flags & FI_SOURCE == 0 && h.srcAddr.Some? && h.srcAddr.value.len != Av.ADDR_SIZE then Err(ENODATA)
      else if flags & FI_SOURCE == 0 && h.srcAddr.Some? && h.srcAddr.value.nodeId != localNodeId then Err(ENODATA)
      else if ((!node && !service) || flags & FI_SOURCE != 0) && h.destAddr.Some? && h.destAddr.value.len != Av.ADDR_SIZE then Err(ENODATA)
      else
        var caps := GetEpCaps(hints);
        if caps.Failure? then Err(caps.error)
        else if !SubsetOf(h.caps, caps.value) then Err(ENODATA)
        else if VerifyEpAttr(h.epAttr, maxMsgSize).Err? || VerifyCtxAttr(h.txCaps).Err? || VerifyCtxAttr(h.rxCaps).Err? then Err(ENODATA)
        else if h.addrFormat != FI_FORMAT_UNSPEC then Err(ENODATA)
        else if h.fabricAttr.Some? && h.fabricAttr.value.provName.Some? && h.fabricAttr.value.provName.value != DPA_NAME then Err(ENODATA)
        else if h.fabricAttr.Some? && h.fabricAttr.value.name.Some? && h.fabricAttr.value.name.value != DPA_NAME then Err(ENODATA)
        else if h.domainAttr.Some? && h.domainAttr.value.mrMode == MrBasic then Err(ENODATA)
        else Ok
  }

  /** The domain attributes offered: the hinted data progress, threading and AV type as Domain selects them. */
  function OfferDomainAttr(hints: Option<FiInfo>): (d: DomainAttr)
    ensures d.controlProgress == ProgressAuto && d.mrMode == MrScalable
    ensures d.threading != ThreadUnspec && d.threading.Level() <= ThreadCompletion.Level()
  {
    if hints.Some? && hints.value.domainAttr.Some? then
      var a := hints.value.domainAttr.value;
      DomainAttr(Domain.SelectThreading(a.threading), ProgressAuto, Domain.SelectDataProgress(a.dataProgress), a.avType, MrScalable)
    else DomainAttr(ThreadCompletion, ProgressAuto, ProgressManual, AvUnspec, MrScalable)
  }

  /** The endpoint type offered: the hinted one when set, MSG otherwise. */
  function OfferEpType(hints: Option<FiInfo>): (t: EpType)
    ensures t != EpUnspec
    ensures hints.Some? && HintEpType(hints.value) != EpUnspec ==> t == HintEpType(hints.value)
  {
    if hints.Some? && hints.value.epAttr.Some? && hints.value.epAttr.value.epType != EpUnspec
    then hints.value.epAttr.value.epType
    else EpMsg
  }

  /**
   * dpa_getinfo without node or service: verify the hints, then offer
   * the hinted destination address when it has the right length, the
   * hinted source address (or a zeroed one) with the local node id, the
   * caps of GetEpCaps, the endpoint attributes of the DPA protocol, the
   * hinted tx/rx attributes (zeroed ones when absent) and the domain
   * attributes OfferDomainAttr selects.
   */
  function GetInfo(version: nat, flags: bv64, hints: Option<FiInfo>, localNodeId: nat, maxMsgSize: nat): (r: Result<FiInfo>)
    ensures r.Success? <==> VerifyRequirements(version, false, false, flags, hints, localNodeId, maxMsgSize) == Ok
    ensures r.Failure? ==> r.error == ENODATA
    ensures r.Success? ==>
      && GetEpCaps(hints) == Success(r.value.caps)
      && r.value.srcAddr.Some? && r.value.srcAddr.value.len == Av.ADDR_SIZE && r.value.srcAddr.value.nodeId == localNodeId
      && r.value.domainAttr == Some(OfferDomainAttr(hints))
      && r.value.epAttr.Some? && r.value.epAttr.value.epType == OfferEpType(hints)
  {
    var v := VerifyRequirements(version, false, false, flags, hints, localNodeId, maxMsgSize);
    if v.Err? then Failure(v.code)
    else
      var dest := if hints.Some? && hints.value.destAddr.Some? && hints.value.destAddr.value.len == Av.ADDR_SIZE
                  then hints.value.destAddr else None;
      var src := if hints.Some? && hints.value.srcAddr.Some? && hints.value.srcAddr.value.len == Av.ADDR_SIZE
                 then hints.value.srcAddr.value.(nodeId := localNodeId)
                 else AddrBuf(Av.ADDR_SIZE, localNodeId, 0);
      var caps := GetEpCaps(hints);
      Success(FiInfo(
        caps.value, FI_FORMAT_UNSPEC, Some(src), dest, None,
        Some(if hints.Some? && hints.value.txCaps.Some? then hints.value.txCaps.value else 0),
        Some(if hints.Some? && hints.value.rxCaps.Some? then hints.value.rxCaps.value else 0),
        Some(EpAttr(OfferEpType(hints), FI_PROTO_DPA, DPA_PROTO_VERSION, maxMsgSize, DPA_MAX_CTX_CNT, DPA_MAX_CTX_CNT)),
        Some(OfferDomainAttr(hints)),
        Some(FabricAttr(Some(DPA_NAME), Some(DPA_NAME)))))
  }

  /** The caps offered for an endpoint type lie within what that type allows. */
  lemma OfferedCapsFitType(version: nat, flags: bv64, hints: Option<FiInfo>, localNodeId: nat, maxMsgSize: nat)
    requires GetInfo(version, flags, hints, localNodeId, maxMsgSize).Success?
    ensures var i := GetInfo(version, flags, hints, localNodeId, maxMsgSize).value;
      AllowedCaps(i.epAttr.value.epType).Some? && SubsetOf(i.caps, AllowedCaps(i.epAttr.value.epType).value)
  {
    var i := GetInfo(version, flags, hints, localNodeId, maxMsgSize).value;
    if hints.Some? {
      var t := HintEpType(hints.value);
      assert SubsetOf(i.caps, AllowedCaps(t).value);
      if t == EpUnspec {
        assert i.epAttr.value.epType == EpMsg;
      }
    }
  }

  /** What fi_getinfo offers it accepts back as hints, from any application of a version it supports. */
  lemma {:induction false} OfferAccepted(version: nat, flags: bv64, hints: Option<FiInfo>, localNodeId: nat, maxMsgSize: nat,
                                         again: nat, againFlags: bv64)
    requires GetInfo(version, flags, hints, localNodeId, maxMsgSize).Success? && again <= DPA_FI_VERSION
    ensures var i := GetInfo(version, flags, hints, localNodeId, maxMsgSize).value;
      VerifyRequirements(again, false, false, againFlags, Some(i), localNodeId, maxMsgSize) == Ok
  {
    var i := GetInfo(version, flags, hints, localNodeId, maxMsgSize).value;
    OfferedCapsFitType(version, flags, hints, localNodeId, maxMsgSize);
    assert HintEpType(i) == i.epAttr.value.epType;
    assert GetEpCaps(Some(i)).Success?;
  }

  /** Asking again with what was offered gets the same offer: the offer is a fixed point of negotiation. */
  lemma {:induction false} OfferIsFixedPoint(version: nat, flags: bv64, hints: Option<FiInfo>, localNodeId: nat, maxMsgSize: nat,
                                             again: nat, againFlags: bv64)
    requires GetInfo(version, flags, hints, localNodeId, maxMsgSize).Success? && again <= DPA_FI_VERSION
    ensures var i := GetInfo(version, flags, hints, localNodeId, maxMsgSize).value;
      GetInfo(again, againFlags, Some(i), localNodeId, maxMsgSize) == Success(i)
  {
    var i := GetInfo(version, flags, hints, localNodeId, maxMsgSize).value;
    OfferAccepted(version, flags, hints, localNodeId, maxMsgSize, again, againFlags);
    Domain.SelectIdempotent(if hints.Some? && hints.value.domainAttr.Some? then hints.value.domainAttr.value.threading else ThreadCompletion,
                            if hints.Some? && hints.value.domainAttr.Some? then hints.value.domainAttr.value.dataProgress else ProgressManual);
    assert OfferDomainAttr(Some(i)) == i.domainAttr.value;
    assert GetEpCaps(Some(i)) == Success(i.caps);
  }

  /** A domain opened with what fi_getinfo offered runs with the offered threading and data progress. */
  lemma DomainAsOffered(version: nat, flags: bv64, hints: Option<FiInfo>, localNodeId: nat, maxMsgSize: nat, fabric: nat)
    requires GetInfo(version, flags, hints, localNodeId, maxMsgSize).Success?
    ensures var i := GetInfo(version, flags, hints, localNodeId, maxMsgSize).value;
      var d := Domain.Open(fabric, Some(i));
      && d.Success?
      && d.value.threading == i.domainAttr.value.threading
      && d.value.dataProgress == i.domainAttr.value.dataProgress
  {
  }
}
