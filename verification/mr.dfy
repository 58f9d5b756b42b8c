/**
 * Memory registration (dpa_mr.c): registering a buffer creates a DPA
 * segment whose id is the requested key, and the registration is kept in
 * a provider-wide hash map keyed by that segment id until it is closed.
 *
 * Creating and destroying the segment is the hardware's business: its
 * answer to the creation is a parameter, and the segment id it is asked
 * for is the one it gives back.
 */
module Mr {
  import opened Fabric
  import opened Bytes
  import Hash

  /** The default number of buckets of the registration map. */
  const MR_MAP_SIZE_DEFAULT: nat := 251

  /** dpa_fid_mr: the key (the segment id) and what the caller registered. */
  datatype MrDesc = MrDesc(key: nat, len: nat, access: bv64, flags: bv64)

  /** The registration map, keyed by segment id. */
  type Registry = Hash.HashMap<MrDesc>

  /** dpa_mr_init: an empty map with the configured number of buckets. */
  function Init(mapSize: nat): (r: Registry)
    ensures r.mapSize == mapSize
    ensures mapSize > 0 ==> Hash.Wf(r) && forall key :: Hash.Get(r, key).None?
  {
    Hash.Create(mapSize)
  }

  /**
   * dpa_mr_reg. The checks in order: the fid must be a domain (ENODATA),
   * the domain must not use basic registration (EBADFLAGS), the key must
   * survive the cast to a 32-bit segment id (EKEYREJECTED); then a segment
   * id already in use is ENOKEY and any other hardware failure EOTHER. On
   * success the registration is put in the map under its key.
   */
  function Reg(reg: Registry, fclass: FidClass, mrMode: MrMode, requestedKey: nat,
               len: nat, access: bv64, flags: bv64, hw: HwError): (r: (Registry, Result<MrDesc>))
    requires Hash.Wf(reg)
    ensures Hash.Wf(r.0)
    ensures r.1.Failure? ==> r.0 == reg
    ensures r.1.Success? <==> fclass == ClassDomain && mrMode != MrBasic && requestedKey < U32_LIMIT && hw == HwOk
    ensures fclass != ClassDomain ==> r.1 == Failure(ENODATA)
    ensures fclass == ClassDomain && mrMode == MrBasic ==> r.1 == Failure(EBADFLAGS)
    ensures fclass == ClassDomain && mrMode != MrBasic && requestedKey >= U32_LIMIT ==> r.1 == Failure(EKEYREJECTED)
    ensures fclass == ClassDomain && mrMode != MrBasic && requestedKey < U32_LIMIT && hw != HwOk
      ==> r.1 == Failure(if hw == SegmentIdUsed then ENOKEY else EOTHER)
    ensures r.1.Success? ==> r.1.value == MrDesc(requestedKey, len, access, flags)
  {
    if fclass != ClassDomain then (reg, Failure(ENODATA))
    else if mrMode == MrBasic then (reg, Failure(EBADFLAGS))
    else if requestedKey % U32_LIMIT != requestedKey then (reg, Failure(EKEYREJECTED))
    else if hw == SegmentIdUsed then (reg, Failure(ENOKEY))
    else if hw != HwOk then (reg, Failure(EOTHER))
    else
      var mr := MrDesc(requestedKey, len, access, flags);
      (Hash.Put(reg, Hash.Entry(mr.key, mr)), Success(mr))
  }

  /** dpa_mr_close: drop the registration from the map; always succeeds. */
  function Close(reg: Registry, mr: MrDesc): (r: (Registry, Status))
    requires Hash.Wf(reg)
    ensures Hash.Wf(r.0) && r.1 == Ok
    ensures forall key | key != mr.key :: Hash.Get(r.0, key) == Hash.Get(reg, key)
  {
    forall key | key != mr.key
      ensures Hash.Get(Hash.Remove(reg, mr.key), key) == Hash.Get(reg, key)
    {
      Hash.GetRemoveOther(reg, mr.key, key);
    }
    (Hash.Remove(reg, mr.key), Ok)
  }

  /** A registration under a fresh key can be found in the map under that key, and no other key changes. */
  lemma RegRecords(reg: Registry, requestedKey: nat, len: nat, access: bv64, flags: bv64, mrMode: MrMode, key: nat)
    requires Hash.Wf(reg) && mrMode != MrBasic && Hash.Get(reg, requestedKey).None?
    ensures var r := Reg(reg, ClassDomain, mrMode, requestedKey, len, access, flags, HwOk);
      r.1.Success? ==> Hash.Get(r.0, key) == if key == requestedKey then Some(r.1.value) else Hash.Get(reg, key)
  {
    var r := Reg(reg, ClassDomain, mrMode, requestedKey, len, access, flags, HwOk);
    if r.1.Success? {
      Hash.GetPut(reg, Hash.Entry(requestedKey, r.1.value), key);
    }
  }

  /** Closing what was just registered under a fresh key gives back the map as it was. */
  lemma RegThenClose(reg: Registry, fclass: FidClass, mrMode: MrMode, requestedKey: nat,
                     len: nat, access: bv64, flags: bv64, hw: HwError)
    requires Hash.Wf(reg) && Hash.Get(reg, requestedKey).None?
    ensures var r := Reg(reg, fclass, mrMode, requestedKey, len, access, flags, hw);
      r.1.Success? ==> Close(r.0, r.1.value).0 == reg
  {
    var r := Reg(reg, fclass, mrMode, requestedKey, len, access, flags, hw);
    if r.1.Success? {
      Hash.RemovePut(reg, Hash.Entry(requestedKey, r.1.value));
    }
  }
}
