/**
 * The libfabric and DPA vocabulary the provider speaks: error codes,
 * capability and operation flag bits, enumerations of the attribute
 * structures, hardware-library error codes and wait budgets.
 *
 * Error codes are modelled by name: the provider only ever returns them
 * negated and compares them for equality. Capability and flag bits carry
 * libfabric 1.x bit positions; the model relies only on their being
 * distinct single bits.
 */
module Fabric {

  /** The libfabric error codes the provider returns (negated in C). */
  datatype Errno =
    | EAGAIN | EINVAL | ENODATA | ENOMEM | ENOSPC | ECONNABORTED | EADDRINUSE
    | EOTHER | ENOEQ | ETOOSMALL | EAVAIL | EBADFLAGS | EKEYREJECTED | ENOKEY
    | EREMOTEIO | ENOSYS | ETIMEDOUT

  /** An int return code: 0 or a negated error. */
  datatype Status = Ok | Err(code: Errno)

  /** fi_addr_t's "no address" value, all bits set. */
  const FI_ADDR_NOTAVAIL: nat := 0xFFFF_FFFF_FFFF_FFFF

  /** A value or the error that prevented it. */
  datatype Result<T> = Success(value: T) | Failure(error: Errno)

  /** A pointer that may be NULL, or an entry that may be absent. */
  datatype Option<T> = None | Some(value: T)

  /** Error codes of the DPA hardware library (dpa_error_t). */
  datatype HwError = HwOk | SegmentIdUsed | HwTimeout | HwSystem | HwOther(code: nat)

  /** A wait budget in milliseconds; a negative int timeout means waiting forever. */
  datatype Budget = Finite(ms: nat) | Infinite

  function BudgetOf(timeout: int): (b: Budget)
    ensures b.Infinite? <==> timeout < 0
    ensures b.Finite? ==> b.ms == timeout
  {
    if timeout < 0 then Infinite else Finite(timeout)
  }

  // Capability bits (fi_info.caps) and the endpoint/bind flags that reuse them.
  const FI_MSG: bv64 := 1 << 1
  const FI_RMA: bv64 := 1 << 2
  const FI_TAGGED: bv64 := 1 << 3
  const FI_ATOMIC: bv64 := 1 << 4
  const FI_READ: bv64 := 1 << 8
  const FI_WRITE: bv64 := 1 << 9
  const FI_RECV: bv64 := 1 << 10
  const FI_SEND: bv64 := 1 << 11
  const FI_REMOTE_READ: bv64 := 1 << 12
  const FI_REMOTE_WRITE: bv64 := 1 << 13

  // Operation flags.
  const FI_REMOTE_CQ_DATA: bv64 := 1 << 17
  const FI_MORE: bv64 := 1 << 18
  const FI_PEEK: bv64 := 1 << 19
  const FI_SOURCE: bv64 := 1 << 57

  /** Thread-safety levels, in the numeric order the provider compares them in. */
  datatype Threading = ThreadUnspec | ThreadSafe | ThreadFid | ThreadDomain | ThreadCompletion | ThreadEndpoint
  {
    function Level(): nat
    {
      match this
      case ThreadUnspec => 0
      case ThreadSafe => 1
      case ThreadFid => 2
      case ThreadDomain => 3
      case ThreadCompletion => 4
      case ThreadEndpoint => 5
    }
  }

  datatype Progress = ProgressUnspec | ProgressAuto | ProgressManual

  datatype WaitObj = WaitNone | WaitUnspec | WaitSet | WaitFd | WaitMutexCond

  /** Endpoint types; EpOther stands for the types the provider does not know. */
  datatype EpType = EpUnspec | EpMsg | EpDgram | EpRdm | EpOther

  datatype AvType = AvUnspec | AvMap | AvTable

  datatype MrMode = MrUnspec | MrBasic | MrScalable

  datatype CqFormat = CqFormatUnspec | CqFormatContext | CqFormatMsg | CqFormatData | CqFormatTagged

  /** The class of a fid passed to fi_ep_bind and friends. */
  datatype FidClass = ClassEq | ClassCq | ClassCntr | ClassAv | ClassMr | ClassStxCtx | ClassDomain | ClassFabric | ClassOther

  // ---------------------------------------------------------------------
  // struct fi_info and the attribute structs it points to, as far as the
  // provider reads or fills them. A NULL pointer is None.

  /** An address buffer: its length field and, when it holds a dpa_addr_t, that address. */
  datatype AddrBuf = AddrBuf(len: nat, nodeId: nat, segmentId: nat)

  /** FI_PROTO_UNSPEC. */
  const FI_PROTO_UNSPEC: nat := 0

  /** FI_FORMAT_UNSPEC. */
  const FI_FORMAT_UNSPEC: nat := 0

  /** fi_ep_attr: the fields the provider checks or sets. */
  datatype EpAttr = EpAttr(epType: EpType, protocol: nat, protocolVersion: nat,
                           maxMsgSize: nat, txCtxCnt: nat, rxCtxCnt: nat)

  /** fi_domain_attr: the fields the provider checks or sets. */
  datatype DomainAttr = DomainAttr(threading: Threading, controlProgress: Progress,
                                   dataProgress: Progress, avType: AvType, mrMode: MrMode)

  /** fi_fabric_attr: the provider and fabric names. */
  datatype FabricAttr = FabricAttr(provName: Option<string>, name: Option<string>)

  /**
   * fi_info. txCaps and rxCaps are the caps of fi_tx_attr and fi_rx_attr
   * (None when the struct is absent); handle is the passive endpoint an
   * active one is opened from, given by its control segment id.
   */
  datatype FiInfo = FiInfo(
    caps: bv64, addrFormat: nat,
    srcAddr: Option<AddrBuf>, destAddr: Option<AddrBuf>, handle: Option<nat>,
    txCaps: Option<bv64>, rxCaps: Option<bv64>,
    epAttr: Option<EpAttr>, domainAttr: Option<DomainAttr>, fabricAttr: Option<FabricAttr>)
}
