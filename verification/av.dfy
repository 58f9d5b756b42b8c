/**
 * The address vector (dpa_av.c, dpa_av.h): an append-only table of
 * dpa_addr_t kept in a growable array, handing out fi_addr_t values that
 * are table indices for an FI_AV_TABLE vector and entry addresses
 * otherwise.
 *
 * A pointer fi_addr is modelled by the index of the entry it points at
 * (FiPtr); what a pointer that is not an entry's address would read is
 * not modelled. Address bytes are dpa_addr_t as stored: two unsigned
 * 32-bit ids, little-endian, node id first.
 */
module Av {
  import opened Bytes
  import opened Fabric
  import GrowArray
  import Lists

  /** dpa_addr_t: a node id and a segment id, both unsigned 32-bit. */
  datatype Addr = Addr(nodeId: nat, segmentId: nat)

  predicate AddrOk(a: Addr)
  {
    a.nodeId < U32_LIMIT && a.segmentId < U32_LIMIT
  }

  /** sizeof(dpa_addr_t). */
  const ADDR_SIZE: nat := 8

  /** The bytes of an address as memcpy sees them. */
  function Encode(a: Addr): (b: seq<byte>)
    ensures |b| == ADDR_SIZE
  {
    EncodeLE(a.nodeId, 4) + EncodeLE(a.segmentId, 4)
  }

  function Decode(b: seq<byte>): Addr
    requires |b| == ADDR_SIZE
  {
    Addr(DecodeLE(b[..4]), DecodeLE(b[4..]))
  }

  /** An address copied out in full reads back as itself. */
  lemma DecodeEncodeAddr(a: Addr)
    requires AddrOk(a)
    ensures Decode(Encode(a)) == a
  {
    WordLimitIsPow();
    var b := Encode(a);
    assert b[..4] == EncodeLE(a.nodeId, 4) && b[4..] == EncodeLE(a.segmentId, 4);
    DecodeEncode(a.nodeId, 4);
    DecodeEncode(a.segmentId, 4);
  }

  /** An fi_addr_t: a table index, an entry's address, or FI_ADDR_NOTAVAIL. */
  datatype FiAddr = FiIndex(i: nat) | FiPtr(i: nat) | NotAvail

  /** fi_av_attr: the requested type, the initial count and the flags. */
  datatype AvAttr = AvAttr(avType: AvType, count: nat, flags: bv64)

  /**
   * dpa_fid_av: the type field, the table (NULL unless one was created)
   * and the entries inserted so far; last is their number.
   */
  datatype Av = Av(avType: AvType, table: Option<GrowArray.Array>, entries: seq<Addr>)

  function Last(av: Av): nat
  {
    |av.entries|
  }

  /** The table holds 8-byte addresses and has room for every entry inserted. */
  predicate Wf(av: Av)
  {
    && (av.table.Some? ==> var t := av.table.value;
          t.valueSize == ADDR_SIZE && Last(av) <= t.room && t.count <= t.room)
    && (av.table.None? ==> av.entries == [])
    && forall i | 0 <= i < |av.entries| :: AddrOk(av.entries[i])
  }

  /** What dpa_av_open allocates: a table of attr.count addresses for FI_AV_TABLE, none otherwise. */
  function TableFor(attr: Option<AvAttr>): Option<GrowArray.Array>
  {
    if attr.Some? && attr.value.avType == AvTable then Some(GrowArray.Create(attr.value.count, ADDR_SIZE)) else None
  }

  /**
   * dpa_av_open as written: nonzero flags are rejected with -FI_ENODATA;
   * an FI_AV_TABLE request gets a table of attr.count addresses with last
   * 0. The type field is never assigned, so it keeps its zero value.
   */
  function OpenAsWritten(attr: Option<AvAttr>): (r: Result<Av>)
    ensures r.Failure? <==> attr.Some? && attr.value.flags != 0
    ensures r.Failure? ==> r.error == ENODATA
    ensures r.Success? ==> Wf(r.value) && Last(r.value) == 0 && r.value.avType == AvUnspec
    ensures r.Success? ==> (r.value.table.Some? <==> attr.Some? && attr.value.avType == AvTable)
  {
    if attr.Some? && attr.value.flags != 0 then Failure(ENODATA)
    else Success(Av(AvUnspec, TableFor(attr), []))
  }

  /** dpa_av_open, corrected: the type field records FI_AV_TABLE or the FI_AV_MAP default. */
  function Open(attr: Option<AvAttr>): (r: Result<Av>)
    ensures r.Failure? <==> attr.Some? && attr.value.flags != 0
    ensures r.Failure? ==> r.error == ENODATA
    ensures r.Success? ==> Wf(r.value) && Last(r.value) == 0
    ensures r.Success? ==> (r.value.avType == AvTable <==> attr.Some? && attr.value.avType == AvTable)
    ensures r.Success? && r.value.avType == AvTable ==> r.value.table.Some? && r.value.table.value.room == attr.value.count
  {
    match OpenAsWritten(attr)
    case Failure(e) => Failure(e)
    case Success(av) =>
      Success(av.(avType := if attr.Some? && attr.value.avType == AvTable then AvTable else AvMap))
  }

  /** _get_fi_addr: the index for a TABLE vector, the entry's address otherwise. */
  function GetFiAddr(avType: AvType, i: nat): (f: FiAddr)
    ensures f.FiIndex? <==> avType == AvTable
    ensures f != NotAvail && (f.FiIndex? || f.FiPtr?) && f.i == i
  {
    if avType == AvTable then FiIndex(i) else FiPtr(i)
  }

  /** What dpa_av_insert leaves: the vector, the return code, and the fi_addrs written. */
  datatype Inserted = Inserted(av: Av, ret: Result<nat>, fiAddrs: seq<FiAddr>)

  /**
   * dpa_av_insert: grow the table to last + count (-FI_ENOMEM and no
   * change when that fails), copy the addresses in after the last entry,
   * hand out the fi_addr of each new entry and return count. None when
   * there is no table to grow (a vector opened without FI_AV_TABLE), or
   * when the grown table would not hold the copy.
   */
  function Insert(av: Av, addrs: seq<Addr>, reallocOk: bool): (r: Option<Inserted>)
    requires Wf(av) && forall i | 0 <= i < |addrs| :: AddrOk(addrs[i])
    ensures r.None? <==> av.table.None?
    ensures r.Some? ==> Wf(r.value.av) && r.value.av.avType == av.avType
    ensures r.Some? && r.value.ret.Failure? ==> r.value.ret.error == ENOMEM && r.value.av == av && r.value.fiAddrs == []
    ensures r.Some? && r.value.ret.Success? ==>
      && r.value.ret.value == |addrs|
      && r.value.av.entries == av.entries + addrs
      && |r.value.fiAddrs| == |addrs|
      && forall i | 0 <= i < |addrs| :: r.value.fiAddrs[i] == GetFiAddr(av.avType, Last(av) + i)
  {
    if av.table.None? then None
    else
      var t := av.table.value;
      match GrowArray.RequestSizeAsWritten(t, Last(av) + |addrs|, reallocOk)
      case None => Some(Inserted(av, Failure(ENOMEM), []))
      case Some(t2) =>
        assert t2.room >= Last(av) + |addrs| && t2.count <= t2.room by {
          if Last(av) + |addrs| > t.count { GrowArray.AsWrittenRoomForSmallValues(t, Last(av) + |addrs|); }
        }
        var fiAddrs := seq(|addrs|, i requires 0 <= i < |addrs| => GetFiAddr(av.avType, Last(av) + i));
        Some(Inserted(Av(av.avType, Some(t2), av.entries + addrs), Success(|addrs|), fiAddrs))
  }

  /** dpa_av_remove: accepted and ignored. */
  function Remove(av: Av, fiAddrs: seq<FiAddr>): (r: (Av, Status))
    ensures r.0 == av && r.1 == Ok
  {
    (av, Ok)
  }

  /** What dpa_av_lookup copies out: the leading bytes of the address, and the full size reported. */
  datatype Looked = Looked(bytes: seq<byte>, addrlen: nat)

  function CopyOut(a: Addr, addrlen: nat): (l: Looked)
    ensures l.addrlen == ADDR_SIZE && |l.bytes| == Min(addrlen, ADDR_SIZE)
    ensures l.bytes == Encode(a)[..|l.bytes|]
  {
    Looked(Encode(a)[..Min(addrlen, ADDR_SIZE)], ADDR_SIZE)
  }

  /**
   * dpa_av_lookup as written: -FI_EINVAL without an output buffer or
   * length. A TABLE vector rejects an fi_addr above last (an entry's
   * address always is) and reads the slot otherwise, including slot last,
   * which no insert wrote (None). Any other vector dereferences fi_addr:
   * None unless it is an entry's address.
   */
  function LookupAsWritten(av: Av, f: FiAddr, addrGiven: bool, addrlen: Option<nat>): (r: Option<Result<Looked>>)
    ensures !addrGiven || addrlen.None? ==> r == Some(Failure(EINVAL))
    ensures r.Some? && r.value.Success? ==> addrGiven && addrlen.Some? && exists i | 0 <= i < Last(av) :: r.value.value == CopyOut(av.entries[i], addrlen.value)
  {
    if !addrGiven || addrlen.None? then Some(Failure(EINVAL))
    else if av.avType == AvTable then
      if !f.FiIndex? || f.i > Last(av) then Some(Failure(EINVAL))
      else if f.i == Last(av) then None
      else Some(Success(CopyOut(av.entries[f.i], addrlen.value)))
    else if f.FiPtr? && f.i < Last(av) then Some(Success(CopyOut(av.entries[f.i], addrlen.value)))
    else None
  }

  /** dpa_av_lookup, corrected: a TABLE vector rejects every index from last up. */
  function Lookup(av: Av, f: FiAddr, addrGiven: bool, addrlen: Option<nat>): (r: Option<Result<Looked>>)
    ensures !addrGiven || addrlen.None? ==> r == Some(Failure(EINVAL))
    ensures av.avType == AvTable && addrGiven && addrlen.Some? ==>
      r.Some? && (r.value.Success? <==> f.FiIndex? && f.i < Last(av))
    ensures r.Some? && r.value.Success? ==>
      && addrGiven && addrlen.Some? && (f.FiIndex? || f.FiPtr?) && f.i < Last(av)
      && r.value.value == CopyOut(av.entries[f.i], addrlen.value)
  {
    if addrGiven && addrlen.Some? && av.avType == AvTable && f.FiIndex? && f.i == Last(av) then Some(Failure(EINVAL))
    else LookupAsWritten(av, f, addrGiven, addrlen)
  }

  /**
   * As written, looking up index last in a TABLE vector passes the bounds
   * check and reads a slot no insert has written; the corrected lookup
   * rejects it.
   */
  lemma LookupAcceptsLast(av: Av, addrlen: nat)
    requires av.avType == AvTable
    ensures LookupAsWritten(av, FiIndex(Last(av)), true, Some(addrlen)).None?
    ensures Lookup(av, FiIndex(Last(av)), true, Some(addrlen)) == Some(Failure(EINVAL))
  {
  }

  /**
   * As written, a vector opened as FI_AV_TABLE hands out entry addresses
   * instead of indices, because its type field stays zero; the corrected
   * open makes insert hand out 0, 1, 2, ...
   */
  lemma TableHandsOutPointers(count: nat, addrs: seq<Addr>, reallocOk: bool)
    requires |addrs| > 0 && forall i | 0 <= i < |addrs| :: AddrOk(addrs[i])
    ensures var attr := Some(AvAttr(AvTable, count, 0));
      var w := Insert(OpenAsWritten(attr).value, addrs, reallocOk).value;
      var c := Insert(Open(attr).value, addrs, reallocOk).value;
      && (w.ret.Success? ==> w.fiAddrs[0] == FiPtr(0))
      && (c.ret.Success? ==> c.fiAddrs[0] == FiIndex(0))
  {
  }

  /**
   * Insert and lookup are inverse: after a successful insert, looking up
   * each fi_addr handed out with a full-size buffer yields the bytes of
   * the address inserted, which decode back to it.
   */
  lemma InsertThenLookup(av: Av, addrs: seq<Addr>, reallocOk: bool, k: nat)
    requires Wf(av) && forall i | 0 <= i < |addrs| :: AddrOk(addrs[i])
    requires var r := Insert(av, addrs, reallocOk); r.Some? && r.value.ret.Success?
    requires k < |addrs|
    ensures var r := Insert(av, addrs, reallocOk).value;
      var l := Lookup(r.av, r.fiAddrs[k], true, Some(ADDR_SIZE));
      && l == Some(Success(Looked(Encode(addrs[k]), ADDR_SIZE)))
      && Decode(l.value.value.bytes) == addrs[k]
  {
    var r := Insert(av, addrs, reallocOk).value;
    assert r.av.entries[Last(av) + k] == addrs[k];
    assert Encode(addrs[k])[..ADDR_SIZE] == Encode(addrs[k]);
    DecodeEncodeAddr(addrs[k]);
  }

  /**
   * lookup_fi_addr: FI_ADDR_NOTAVAIL for a NULL vector or address,
   * otherwise the fi_addr of the first entry with the same node and
   * segment, or FI_ADDR_NOTAVAIL when there is none.
   */
  function LookupFiAddr(av: Option<Av>, a: Option<Addr>): (f: FiAddr)
    ensures av.None? || a.None? ==> f == NotAvail
    ensures av.Some? && a.Some? ==> (f == NotAvail <==> a.value !in av.value.entries)
    ensures f != NotAvail ==>
      && (f.FiIndex? || f.FiPtr?) && f.i < Last(av.value) && av.value.entries[f.i] == a.value
      && f == GetFiAddr(av.value.avType, f.i)
      && forall j | 0 <= j < f.i :: av.value.entries[j] != a.value
  {
    if av.None? || a.None? then NotAvail
    else match Lists.FirstMatch(av.value.entries, (e: Addr) => e.nodeId == a.value.nodeId && e.segmentId == a.value.segmentId)
      case None => NotAvail
      case Some(i) => GetFiAddr(av.value.avType, i)
  }

  /**
   * The reverse lookup agrees with lookup: the fi_addr it finds for an
   * address looks up to that address's bytes.
   */
  lemma ReverseLookupAgrees(av: Av, a: Addr)
    requires Wf(av) && a in av.entries
    ensures var f := LookupFiAddr(Some(av), Some(a));
      && f != NotAvail
      && Lookup(av, f, true, Some(ADDR_SIZE)) == Some(Success(Looked(Encode(a), ADDR_SIZE)))
  {
    assert Encode(a)[..ADDR_SIZE] == Encode(a);
  }
}
