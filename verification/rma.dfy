/**
 * One-sided RMA (dpa_rma.c, remote_mr_cache in dpa_ep.h).
 *
 * An endpoint keeps a single cached mapping of a remote segment. A read
 * or write names its target by node and segment id; a cache hit reuses
 * the mapping, a miss tears it down and maps the new segment. The copy is
 * truncated at the end of the segment, a completion and a counter update
 * follow, and immediate data is delivered by triggering a remote
 * interrupt whose id is the data value.
 *
 * dpa_addr_t declares nodeId and segmentId, while the RMA code reads and
 * writes a field called connectId; the model takes connectId to be the
 * segment id the declaration provides. The hardware library is an oracle:
 * each DPA call that can fail takes its outcome from a parameter, and the
 * bytes of a remote segment arrive with the mapping.
 */
module Rma {
  import opened Bytes
  import opened Fabric
  import Cq
  import Cntr
  import Lists

  /** A remote segment: the node it lives on and its segment id (the key of an RMA). */
  datatype Target = Target(node: nat, segment: nat)

  /** The remote interrupt a cache holds: its id and the node it was connected to. */
  datatype RemoteIrq = RemoteIrq(id: nat, node: nat)

  /**
   * remote_mr_cache. The four flags say which hardware handles are held
   * (non-NULL); base is the mapped memory, None when the base pointer is
   * NULL; len is the segment size the library reported.
   */
  datatype Cache = Cache(
    target: Target,
    sd: bool, segment: bool, mapped: bool, sequence: bool,
    base: Option<seq<byte>>, len: nat,
    irq: Option<RemoteIrq>)

  /** The handles cache_disconnect can release. */
  datatype Handle = Sequence | Map | Segment | Descriptor

  function Holds(c: Cache, h: Handle): bool
  {
    match h
    case Sequence => c.sequence
    case Map => c.mapped
    case Segment => c.segment
    case Descriptor => c.sd
  }

  /** Nothing held, target and length zeroed. */
  predicate Empty(c: Cache)
  {
    !c.sd && !c.segment && !c.mapped && !c.sequence && c.base.None? && c.len == 0 && c.target == Target(0, 0)
  }

  /** Everything held, and the mapped memory is the whole segment of target t. */
  predicate MappedTo(c: Cache, t: Target)
  {
    c.sd && c.segment && c.mapped && c.sequence && c.base.Some? && |c.base.value| == c.len && c.target == t
  }

  /** A cache between calls: empty, or holding one complete mapping. */
  predicate Settled(c: Cache)
  {
    Empty(c) || MappedTo(c, c.target)
  }

  /** The cache everything starts from: zero-initialised. */
  const INITIAL := Cache(Target(0, 0), false, false, false, false, None, 0, None)

  /** Handles in the order cache_disconnect releases them: reverse acquisition order. */
  function Rank(h: Handle): nat
  {
    match h
    case Sequence => 0
    case Map => 1
    case Segment => 2
    case Descriptor => 3
  }

  function Present(c: Cache, h: Handle): seq<Handle>
  {
    if Holds(c, h) then [h] else []
  }

  /** Handles in strictly increasing release rank. */
  predicate Ascending(r: seq<Handle>)
  {
    forall i, j | 0 <= i < j < |r| :: Rank(r[i]) < Rank(r[j])
  }

  /** Every handle in r ranks below k. */
  predicate Under(r: seq<Handle>, k: nat)
  {
    forall i | 0 <= i < |r| :: Rank(r[i]) < k
  }

  /** Appending at most one handle that outranks all before it keeps the order. */
  lemma AppendAscending(a: seq<Handle>, b: seq<Handle>, h: Handle)
    requires Ascending(a) && Under(a, Rank(h)) && (b == [] || b == [h])
    ensures Ascending(a + b) && Under(a + b, Rank(h) + 1)
  {
  }

  /** The handles held, listed in release order, are in ascending rank. */
  lemma PresentAscending(c: Cache)
    ensures Ascending(Present(c, Sequence) + Present(c, Map) + Present(c, Segment) + Present(c, Descriptor))
  {
    var p0, p1, p2, p3 := Present(c, Sequence), Present(c, Map), Present(c, Segment), Present(c, Descriptor);
    AppendAscending([], p0, Sequence);
    assert [] + p0 == p0;
    AppendAscending(p0, p1, Map);
    AppendAscending(p0 + p1, p2, Segment);
    AppendAscending(p0 + p1 + p2, p3, Descriptor);
  }

  /**
   * cache_disconnect as written: releases the sequence, map, segment and
   * descriptor, each only when held, and zeroes target, base and len. The
   * remote interrupt is left in place.
   */
  function Teardown(c: Cache): (res: (Cache, seq<Handle>))
    ensures Empty(res.0) && res.0.irq == c.irq
    ensures forall h: Handle :: h in res.1 <==> Holds(c, h)
    ensures Ascending(res.1)
  {
    var released := Present(c, Sequence) + Present(c, Map) + Present(c, Segment) + Present(c, Descriptor);
    PresentAscending(c);
    (INITIAL.(irq := c.irq), released)
  }

  /** cache_disconnect, corrected: as written, and the remote interrupt is disconnected too. */
  function Release(c: Cache): (r: Cache)
    ensures Empty(r) && r.irq.None?
    ensures r == Teardown(c).0.(irq := None)
  {
    INITIAL
  }

  /** Outcomes of the four fallible calls cache_connect makes, and the segment's bytes. */
  datatype HwConnect = HwConnect(open: HwError, connect: HwError, mapping: HwError, sequence: HwError, contents: seq<byte>)

  predicate AllOk(hw: HwConnect)
  {
    hw.open == HwOk && hw.connect == HwOk && hw.mapping == HwOk && hw.sequence == HwOk
  }

  /** The first failing call's error, HwOk when none fails. */
  function FirstError(hw: HwConnect): (e: HwError)
    ensures e == HwOk <==> AllOk(hw)
  {
    if hw.open != HwOk then hw.open
    else if hw.connect != HwOk then hw.connect
    else if hw.mapping != HwOk then hw.mapping
    else hw.sequence
  }

  /** The target and a live mapping match: cache_connect has nothing to do. */
  predicate Hit(c: Cache, t: Target)
  {
    t == c.target && c.base.Some?
  }

  /**
   * The miss path of cache_connect, with the teardown it uses: open a
   * descriptor, connect the segment and read its size, map it, create a
   * sequence. A failing call ends the chain and the cache is torn down
   * with whatever it holds by then. corrected selects the teardown that
   * also drops the remote interrupt.
   */
  function Establish(c: Cache, t: Target, hw: HwConnect, corrected: bool): (res: (Cache, HwError))
    ensures res.1 == FirstError(hw)
    ensures res.0.irq == if corrected then None else c.irq
    ensures res.1 == HwOk ==> MappedTo(res.0, t) && res.0.base == Some(hw.contents)
    ensures res.1 != HwOk ==> Empty(res.0)
  {
    var c0 := if corrected then Release(c) else if c.segment then Teardown(c).0 else c;
    var s1 := c0.(sd := true);
    var s2 := s1.(segment := true, len := |hw.contents|);
    var s3 := s2.(mapped := true, base := Some(hw.contents));
    var s4 := s3.(sequence := true, target := t);
    if hw.open != HwOk then (Fail(c0, corrected), hw.open)
    else if hw.connect != HwOk then (Fail(s1, corrected), hw.connect)
    else if hw.mapping != HwOk then (Fail(s2, corrected), hw.mapping)
    else if hw.sequence != HwOk then (Fail(s3, corrected), hw.sequence)
    else (s4, HwOk)
  }

  /** The teardown a failed connect ends with, as written or corrected. */
  function Fail(s: Cache, corrected: bool): (r: Cache)
    ensures Empty(r) && r.irq == if corrected then None else s.irq
  {
    if corrected then Release(s) else Teardown(s).0
  }

  /**
   * cache_connect as written: a hit returns at once; otherwise the miss
   * path with the teardown that keeps the remote interrupt.
   */
  function ConnectAsWritten(c: Cache, t: Target, hw: HwConnect): (res: (Cache, HwError))
    ensures Hit(c, t) ==> res == (c, HwOk)
    ensures !Hit(c, t) ==> res.1 == FirstError(hw)
    ensures !Hit(c, t) && res.1 == HwOk ==> MappedTo(res.0, t) && res.0.base == Some(hw.contents)
    ensures !Hit(c, t) && res.1 != HwOk ==> Empty(res.0)
    ensures res.0.irq == c.irq
  {
    if Hit(c, t) then (c, HwOk) else Establish(c, t, hw, false)
  }

  /** cache_connect, corrected: a miss also disconnects the remote interrupt. */
  function Connect(c: Cache, t: Target, hw: HwConnect): (res: (Cache, HwError))
    ensures Hit(c, t) ==> res == (c, HwOk)
    ensures !Hit(c, t) ==> res.1 == FirstError(hw) && res.0.irq.None?
    ensures !Hit(c, t) && res.1 == HwOk ==> MappedTo(res.0, t) && res.0.base == Some(hw.contents)
    ensures !Hit(c, t) && res.1 != HwOk ==> Empty(res.0)
  {
    if Hit(c, t) then (c, HwOk) else Establish(c, t, hw, true)
  }

  /** The two connects leave the same handles, target and memory; only the interrupt differs. */
  lemma ConnectsAgree(c: Cache, t: Target, hw: HwConnect)
    ensures ConnectAsWritten(c, t, hw).1 == Connect(c, t, hw).1
    ensures ConnectAsWritten(c, t, hw).0.(irq := None) == Connect(c, t, hw).0.(irq := None)
  {
  }

  /** A settled cache stays settled, whatever the hardware does: at most one mapping is ever held. */
  lemma ConnectSettles(c: Cache, t: Target, hw: HwConnect)
    requires Settled(c)
    ensures Settled(Connect(c, t, hw).0) && Settled(ConnectAsWritten(c, t, hw).0)
  {
  }

  /** Connecting to the target just connected is a hit: nothing is torn down or remapped. */
  lemma ConnectTwice(c: Cache, t: Target, hw: HwConnect, hw2: HwConnect)
    requires Connect(c, t, hw).1 == HwOk
    ensures Connect(Connect(c, t, hw).0, t, hw2) == (Connect(c, t, hw).0, HwOk)
  {
  }

  /** Result of connecting or reusing a remote interrupt. */
  datatype IrqConnect = IrqConnect(cache: Cache, error: HwError)

  /**
   * cache_connect_interrupt: a held interrupt with the same id is reused;
   * one with another id is disconnected first. The new interrupt is
   * connected on the cached target's node; hwErr is the library's answer.
   */
  function ConnectInterrupt(c: Cache, id: nat, hwErr: HwError): (r: IrqConnect)
    ensures c.irq.Some? && c.irq.value.id == id ==> r == IrqConnect(c, HwOk)
    ensures !(c.irq.Some? && c.irq.value.id == id) ==>
      r.error == hwErr
      && r.cache == c.(irq := if hwErr == HwOk then Some(RemoteIrq(id, c.target.node)) else None)
  {
    if c.irq.Some? && c.irq.value.id == id then IrqConnect(c, HwOk)
    else
      var c1 := c.(irq := None);
      if hwErr == HwOk then IrqConnect(c1.(irq := Some(RemoteIrq(id, c.target.node))), HwOk)
      else IrqConnect(c1, hwErr)
  }

  /** Result of signal_interrupt: the cache and the interrupt triggered, if any. */
  datatype Signalled = Signalled(cache: Cache, fired: Option<RemoteIrq>)

  /**
   * signal_interrupt: immediate data that does not fit a 32-bit interrupt
   * id is dropped; otherwise the interrupt with that id is connected or
   * reused and triggered (a failed trigger is only logged).
   */
  function SignalInterrupt(c: Cache, data: nat, hwErr: HwError): (r: Signalled)
    ensures data >= U32_LIMIT ==> r == Signalled(c, None)
    ensures r.fired.Some? ==> r.fired.value.id == data && r.cache.irq == r.fired
    ensures data < U32_LIMIT && c.irq.Some? && c.irq.value.id == data ==> r == Signalled(c, c.irq)
    ensures data < U32_LIMIT && !(c.irq.Some? && c.irq.value.id == data) ==>
      (r.fired.Some? <==> hwErr == HwOk)
  {
    if data >= U32_LIMIT then Signalled(c, None)
    else
      var ic := ConnectInterrupt(c, data, hwErr);
      if ic.error != HwOk then Signalled(ic.cache, None)
      else Signalled(ic.cache, ic.cache.irq)
  }

  /** The held interrupt, if any, is on the node of the cached target. */
  predicate IrqOnTarget(c: Cache)
  {
    c.irq.Some? ==> c.irq.value.node == c.target.node
  }

  /**
   * With the corrected teardown, the interrupt always sits on the mapped
   * node, so immediate data after a connect reaches the node just written.
   */
  lemma SignalReachesTarget(c: Cache, t: Target, hw: HwConnect, data: nat, hwErr: HwError)
    requires IrqOnTarget(c)
    requires Connect(c, t, hw).1 == HwOk
    ensures IrqOnTarget(Connect(c, t, hw).0)
    ensures var s := SignalInterrupt(Connect(c, t, hw).0, data, hwErr);
      IrqOnTarget(s.cache) && (s.fired.Some? ==> s.fired.value.node == t.node)
  {
  }

  /**
   * As written, an interrupt connected for one node survives a switch to
   * another node's segment, and immediate data with the same id is
   * triggered on the old node.
   */
  lemma StaleInterrupt(c: Cache, t: Target, hw: HwConnect, hwErr: HwError, id: nat, prev: nat)
    requires c.irq == Some(RemoteIrq(id, prev)) && id < U32_LIMIT
    requires !Hit(c, t) && AllOk(hw) && t.node != prev
    ensures var c1 := ConnectAsWritten(c, t, hw).0;
      MappedTo(c1, t) && SignalInterrupt(c1, id, hwErr).fired == Some(RemoteIrq(id, prev))
    ensures var c2 := Connect(c, t, hw).0;
      hwErr == HwOk ==> SignalInterrupt(c2, id, hwErr).fired == Some(RemoteIrq(id, t.node))
  {
  }

  /** Result of acquire_target: the cache afterwards and the target or an error. */
  datatype Acquired = Acquired(cache: Cache, ret: Result<Target>)

  /**
   * acquire_target as written. A connected endpoint uses its peer's node;
   * otherwise the node comes from the address vector, whose lookup error
   * is ignored, leaving the node whatever the uninitialised variable held
   * (indeterminate). The key becomes the segment id and must fit 32
   * bits; a failed cache_connect gives EREMOTEIO.
   */
  function AcquireTargetAsWritten(connected: bool, peerNode: nat, lookup: Result<nat>, indeterminate: nat,
                                  key: nat, c: Cache, hw: HwConnect): (a: Acquired)
    ensures key >= U32_LIMIT ==> a == Acquired(c, Failure(EINVAL))
    ensures a.ret.Failure? ==> a.ret.error in {EINVAL, EREMOTEIO}
  {
    var node := if connected then peerNode else if lookup.Success? then lookup.value else indeterminate;
    if key >= U32_LIMIT then Acquired(c, Failure(EINVAL))
    else
      var (c1, e) := ConnectAsWritten(c, Target(node, key), hw);
      if e != HwOk then Acquired(c1, Failure(EREMOTEIO)) else Acquired(c1, Success(Target(node, key)))
  }

  /**
   * acquire_target, corrected: an address-vector lookup error is
   * returned, and connecting uses the corrected cache.
   */
  function AcquireTarget(connected: bool, peerNode: nat, lookup: Result<nat>, key: nat, c: Cache, hw: HwConnect): (a: Acquired)
    ensures !connected && lookup.Failure? ==> a == Acquired(c, Failure(lookup.error))
    ensures (connected || lookup.Success?) && key >= U32_LIMIT ==> a == Acquired(c, Failure(EINVAL))
    ensures a.ret.Success? ==>
      a.ret.value == Target(if connected then peerNode else lookup.value, key) && key < U32_LIMIT
    ensures Settled(c) ==> Settled(a.cache)
    ensures Settled(c) && a.ret.Success? ==> MappedTo(a.cache, a.ret.value)
    ensures (connected || lookup.Success?) && key < U32_LIMIT ==>
      var t := Target(if connected then peerNode else lookup.value, key);
      a.cache == Connect(c, t, hw).0 && (a.ret.Success? <==> Connect(c, t, hw).1 == HwOk)
      && (a.ret.Failure? ==> a.ret.error == EREMOTEIO)
  {
    if !connected && lookup.Failure? then Acquired(c, Failure(lookup.error))
    else
      var node := if connected then peerNode else lookup.value;
      if key >= U32_LIMIT then Acquired(c, Failure(EINVAL))
      else
        var (c1, e) := Connect(c, Target(node, key), hw);
        if e != HwOk then Acquired(c1, Failure(EREMOTEIO)) else Acquired(c1, Success(Target(node, key)))
  }

  /**
   * On an unconnected endpoint whose address does not resolve, the
   * as-written acquire_target goes ahead and maps a segment on whatever
   * node the indeterminate value names.
   */
  lemma AcquireIgnoresLookup(lookup: Result<nat>, indeterminate: nat, key: nat, c: Cache, hw: HwConnect)
    requires lookup.Failure? && key < U32_LIMIT && AllOk(hw)
    ensures AcquireTargetAsWritten(false, 0, lookup, indeterminate, key, c, hw).ret == Success(Target(indeterminate, key))
    ensures AcquireTarget(false, 0, lookup, key, c, hw).ret == Failure(lookup.error)
  {
  }

  // Scatter-gather lists

  function Sum(s: seq<nat>): nat
  {
    if s == [] then 0 else s[0] + Sum(s[1..])
  }

  /** The lengths of an iovec array. */
  function Lens(bufs: seq<seq<byte>>): (r: seq<nat>)
    ensures |r| == |bufs|
  {
    seq(|bufs|, i requires 0 <= i < |bufs| => |bufs[i]|)
  }

  /** The lengths after the first buffer, and their total. */
  lemma LensTail(bufs: seq<seq<byte>>)
    requires bufs != []
    ensures Lens(bufs)[1..] == Lens(bufs[1..])
    ensures Sum(Lens(bufs)) == |bufs[0]| + Sum(Lens(bufs[1..]))
  {
    assert Lens(bufs)[1..] == Lens(bufs[1..]);
  }

  /** The bytes of an iovec array, buffer after buffer. */
  function Flatten(bufs: seq<seq<byte>>): (r: seq<byte>)
    ensures |r| == Sum(Lens(bufs))
  {
    if bufs == [] then []
    else
      assert Lens(bufs)[1..] == Lens(bufs[1..]);
      bufs[0] + Flatten(bufs[1..])
  }

  /** A single buffer: its one length, and its bytes are the whole list's. */
  lemma Single(bufs: seq<seq<byte>>)
    requires |bufs| == 1
    ensures Lens(bufs) == [|bufs[0]|] && Sum(Lens(bufs)) == |bufs[0]| && Flatten(bufs) == bufs[0]
  {
    assert Flatten(bufs) == bufs[0] + Flatten(bufs[1..]);
  }

  lemma {:induction false} SumSnoc(s: seq<nat>, x: nat)
    ensures Sum(s + [x]) == Sum(s) + x
  {
    if s != [] {
      assert (s + [x])[1..] == s[1..] + [x];
      SumSnoc(s[1..], x);
    }
  }

  lemma {:induction false} SumPrefix(s: seq<nat>, i: nat)
    requires i <= |s|
    ensures Sum(s[..i]) <= Sum(s)
  {
    if i > 0 {
      assert s[..i][1..] == s[1..][..i - 1];
      SumPrefix(s[1..], i - 1);
    }
  }

  /**
   * The copy loop of dpa_readmsg and dpa_writemsg: walk the iovecs while
   * bytes remain available, taking from each the smaller of what remains
   * and its length. The total is the smaller of what is available and
   * what the iovecs hold.
   */
  method CopyLoop(avail: nat, lens: seq<nat>) returns (copied: nat)
    ensures copied == Min(avail, Sum(lens))
  {
    copied := 0;
    var i := 0;
    while i < |lens| && avail > copied
      invariant 0 <= i <= |lens|
      invariant copied == Min(avail, Sum(lens[..i]))
    {
      var copy := Min(avail - copied, lens[i]);
      assert lens[..i + 1] == lens[..i] + [lens[i]];
      SumSnoc(lens[..i], lens[i]);
      copied := copied + copy;
      i := i + 1;
    }
    if i < |lens| {
      SumPrefix(lens, i);
    } else {
      assert lens[..i] == lens;
    }
  }

  /**
   * The bytes available after the remote offset, as written: the pointer
   * difference top - base is compared with the unsigned copied count and
   * so is taken modulo 2^64. An offset past the segment wraps to a huge
   * count.
   */
  function AvailAsWritten(len: nat, offset: nat): (r: nat)
    requires len < WORD_LIMIT && offset < WORD_LIMIT
    ensures offset <= len ==> r == len - offset
    ensures offset > len && offset - len < WORD_LIMIT ==> r == WORD_LIMIT - (offset - len)
  {
    (len - offset) % WORD_LIMIT
  }

  /** The bytes available after the remote offset, corrected: none past the segment's end. */
  function Avail(len: nat, offset: nat): (r: nat)
    ensures r + offset <= len || (r == 0 && offset > len)
    ensures offset <= len < WORD_LIMIT ==> r == AvailAsWritten(len, offset)
  {
    if offset <= len then len - offset else 0
  }

  /**
   * The as-written copy on a segment of len bytes: None when the copy
   * runs past the end of the mapping (a fault or a stray write on the
   * remote node), otherwise the number of bytes copied.
   */
  function CopyAsWritten(len: nat, offset: nat, lens: seq<nat>): (r: Option<nat>)
    requires len < WORD_LIMIT && offset < WORD_LIMIT
    ensures r.Some? ==> offset + r.value <= len
  {
    var copied := Min(AvailAsWritten(len, offset), Sum(lens));
    if offset + copied > len then None else Some(copied)
  }

  /** An offset past the end of the segment, with any byte to move, copies out of bounds as written. */
  lemma CopyPastEnd(len: nat, offset: nat, lens: seq<nat>)
    requires len < offset < WORD_LIMIT && Sum(lens) > 0
    ensures CopyAsWritten(len, offset, lens).None?
    ensures Min(Avail(len, offset), Sum(lens)) == 0
  {
  }

  /** For offsets inside the segment the as-written copy is in bounds and equals the corrected one. */
  lemma CopyInBounds(len: nat, offset: nat, lens: seq<nat>)
    requires offset <= len < WORD_LIMIT
    ensures CopyAsWritten(len, offset, lens) == Some(Min(Avail(len, offset), Sum(lens)))
  {
  }

  /**
   * Read's scatter: the bytes fill the buffers in order, each receiving
   * as many as it holds or as remain; the rest of each buffer is kept.
   */
  function Scatter(data: seq<byte>, bufs: seq<seq<byte>>): (r: seq<seq<byte>>)
    ensures Lens(r) == Lens(bufs)
  {
    if bufs == [] then []
    else
      var k := Min(|data|, |bufs[0]|);
      var rest := Scatter(data[k..], bufs[1..]);
      assert Lens([data[..k] + bufs[0][k..]] + rest)[1..] == Lens(rest);
      assert Lens(bufs)[1..] == Lens(bufs[1..]);
      [data[..k] + bufs[0][k..]] + rest
  }

  /** The first scattered buffer comes first in the gathered bytes. */
  lemma ScatterHead(data: seq<byte>, bufs: seq<seq<byte>>)
    requires bufs != []
    ensures var k := Min(|data|, |bufs[0]|);
      Flatten(Scatter(data, bufs)) == (data[..k] + bufs[0][k..]) + Flatten(Scatter(data[k..], bufs[1..]))
  {
    var k := Min(|data|, |bufs[0]|);
    assert Scatter(data, bufs)[1..] == Scatter(data[k..], bufs[1..]);
  }

  /** A prefix of the data followed by bytes that start with the rest of it starts with all of it. */
  lemma PrefixThenRest(data: seq<byte>, k: nat, rest: seq<byte>)
    requires k <= |data| && |data| - k <= |rest|
    requires rest[..|data| - k] == data[k..]
    ensures (data[..k] + rest)[..|data|] == data
  {
    Lists.PrefixConcat(data[..k], rest, |data|);
    assert data == data[..k] + data[k..];
  }

  /** Gathering the scattered buffers back gives the data read, first, when the buffers hold it all. */
  lemma {:induction false} ScatterGather(data: seq<byte>, bufs: seq<seq<byte>>)
    requires |data| <= Sum(Lens(bufs))
    ensures |Flatten(Scatter(data, bufs))| == Sum(Lens(bufs))
    ensures Flatten(Scatter(data, bufs))[..|data|] == data
  {
    if bufs != [] {
      var k := Min(|data|, |bufs[0]|);
      var rest := Flatten(Scatter(data[k..], bufs[1..]));
      ScatterHead(data, bufs);
      if |data| <= |bufs[0]| {
        assert (data[..k] + bufs[0][k..]) + rest == data + (bufs[0][k..] + rest);
      } else {
        LensTail(bufs);
        ScatterGather(data[k..], bufs[1..]);
        assert bufs[0][k..] == [];
        assert (data[..k] + bufs[0][k..]) + rest == data[..k] + rest;
        PrefixThenRest(data, k, rest);
      }
    }
  }

  /** n bytes at offset lie inside a memory of size len (nothing to copy is always inside). */
  predicate Inside(offset: nat, n: nat, len: nat)
  {
    n == 0 || offset + n <= len
  }

  /** The n bytes of the mapped memory at offset. */
  function Load(mem: seq<byte>, offset: nat, n: nat): (r: seq<byte>)
    requires Inside(offset, n, |mem|)
    ensures |r| == n
    ensures n > 0 ==> r == mem[offset..offset + n]
  {
    if n == 0 then [] else mem[offset..offset + n]
  }

  /** The mapped memory with n bytes of src written at offset. */
  function Store(mem: seq<byte>, offset: nat, src: seq<byte>, n: nat): (r: seq<byte>)
    requires Inside(offset, n, |mem|) && n <= |src|
    ensures |r| == |mem| && Load(r, offset, n) == src[..n]
    ensures n > 0 ==> r[..offset] == mem[..offset] && r[offset + n..] == mem[offset + n..]
    ensures n == 0 ==> r == mem
  {
    if n == 0 then mem else mem[..offset] + src[..n] + mem[offset + n..]
  }

  // Endpoint operations

  /** One struct fi_rma_iov: the remote offset and the key naming the segment. */
  datatype RmaIov = RmaIov(addr: nat, key: nat)

  /**
   * struct fi_msg_rma: the local iovecs, the peer address, the remote
   * iovecs (None for a NULL pointer), the context and the immediate data.
   */
  datatype MsgRma = MsgRma(iov: seq<seq<byte>>, addr: nat, rmaIov: Option<seq<RmaIov>>, context: nat, data: nat)

  /** The parts of dpa_fid_ep the RMA path uses. */
  datatype RmaEp = RmaEp(
    connected: bool, peerNode: nat, cache: Cache,
    readCq: Option<Cq.Cq>, writeCq: Option<Cq.Cq>,
    readCntr: Option<Cntr.Cntr>, writeCntr: Option<Cntr.Cntr>)

  /** The hardware's answers during one call: the cache connect and the interrupt connect. */
  datatype Hw = Hw(connect: HwConnect, irq: HwError)

  /**
   * What a read or write returns: the endpoint afterwards, the return
   * code, the local iovecs afterwards, the interrupt triggered and whether
   * the sequence was flushed.
   */
  datatype Outcome = Outcome(ep: RmaEp, ret: Status, iov: seq<seq<byte>>, fired: Option<RemoteIrq>, flushed: bool)

  /** A message a read or write accepts: present, with exactly one remote iovec. */
  predicate WellFormed(msg: Option<MsgRma>)
  {
    msg.Some? && msg.value.rmaIov.Some? && |msg.value.rmaIov.value| == 1
  }

  /** The source address a completion reports: 0 on a connected endpoint, msg->addr otherwise. */
  function SrcOf(ep: RmaEp, msg: MsgRma): nat
  {
    if ep.connected then 0 else msg.addr
  }

  function PostSrc(cq: Option<Cq.Cq>, e: Cq.CqEntry, src: nat): (r: Option<Cq.Cq>)
    ensures r.None? <==> cq.None?
  {
    if cq.None? then None else Some(Cq.Add(cq.value, e, src).0)
  }

  function Inc(c: Option<Cntr.Cntr>): (r: Option<Cntr.Cntr>)
    ensures r.None? <==> c.None?
  {
    if c.None? then None else Some(Cntr.Count(c.value, true))
  }

  /** The read completion: always success, the buffer only when there is a single iovec. */
  function ReadCompletion(msg: MsgRma, copied: nat, bufs: seq<seq<byte>>): (e: Cq.CqEntry)
    requires |bufs| == |msg.iov|
    ensures e.err == Ok && e.olen == 0 && e.len == copied && e.flags == FI_RMA | FI_READ
    ensures e.buf == (if |bufs| == 1 then bufs[0] else [])
  {
    Cq.CqEntry(msg.context, FI_RMA | FI_READ, copied, if |msg.iov| == 1 then bufs[0] else [], msg.data, Ok, 0)
  }

  /** The write completion: ETOOSMALL exactly when fewer bytes than the iovecs hold were written. */
  function WriteCompletion(msg: MsgRma, copied: nat): (e: Cq.CqEntry)
    requires copied <= Sum(Lens(msg.iov))
    ensures e.err == Ok <==> copied == Sum(Lens(msg.iov))
    ensures e.err != Ok ==> e.err == Err(ETOOSMALL)
    ensures e.len + e.olen == Sum(Lens(msg.iov)) && e.len == copied
    ensures e.flags == FI_RMA | FI_WRITE && e.buf == []
  {
    var total := Sum(Lens(msg.iov));
    Cq.CqEntry(msg.context, FI_RMA | FI_WRITE, copied, [], msg.data, if total == copied then Ok else Err(ETOOSMALL), total - copied)
  }

  /** The signal step both operations end with when FI_REMOTE_CQ_DATA is set. */
  function MaybeSignal(c: Cache, flags: bv64, data: nat, hwErr: HwError): (s: Signalled)
    ensures flags & FI_REMOTE_CQ_DATA == 0 ==> s == Signalled(c, None)
    ensures s.cache == c.(irq := s.cache.irq)
  {
    if flags & FI_REMOTE_CQ_DATA != 0 then SignalInterrupt(c, data, hwErr) else Signalled(c, None)
  }

  /**
   * dpa_readmsg (with the corrected target acquisition and bounds): reject
   * a missing message or a remote iovec count other than one, acquire the
   * target, copy min(len - offset, sum of iovec lengths) bytes from the
   * mapping into the iovecs, post a success completion and count it, and
   * trigger the immediate-data interrupt when asked.
   */
  function ReadMsg(ep: RmaEp, msg: Option<MsgRma>, flags: bv64, lookup: Result<nat>, hw: Hw): (o: Outcome)
    requires Settled(ep.cache)
    ensures Settled(o.ep.cache)
    ensures !WellFormed(msg) ==> o.ret == Err(EINVAL) && o.ep == ep && o.fired.None?
    ensures WellFormed(msg) ==> |o.iov| == |msg.value.iov| && Lens(o.iov) == Lens(msg.value.iov)
    ensures o.ret.Ok? ==> WellFormed(msg) && o.ep.cache.base.Some?
    ensures !o.flushed
  {
    if !WellFormed(msg) then Outcome(ep, Err(EINVAL), if msg.Some? then msg.value.iov else [], None, false)
    else
      var m := msg.value;
      var r := m.rmaIov.value[0];
      var a := AcquireTarget(ep.connected, ep.peerNode, lookup, r.key, ep.cache, hw.connect);
      if a.ret.Failure? then Outcome(ep.(cache := a.cache), Err(a.ret.error), m.iov, None, false)
      else
        var c := a.cache;
        var copied := Min(Avail(c.len, r.addr), Sum(Lens(m.iov)));
        var bufs := Scatter(Load(c.base.value, r.addr, copied), m.iov);
        var e := ReadCompletion(m, copied, bufs);
        var s := MaybeSignal(c, flags, m.data, hw.irq);
        Outcome(ep.(cache := s.cache, readCq := PostSrc(ep.readCq, e, SrcOf(ep, m)), readCntr := Inc(ep.readCntr)),
                Ok, bufs, s.fired, false)
  }

  /**
   * The rest of a write once its target is mapped: store what fits at the
   * offset, post the completion and count it, signal when asked.
   */
  function WriteMapped(ep: RmaEp, m: MsgRma, r: RmaIov, c: Cache, flags: bv64, hw: Hw): (o: Outcome)
    requires MappedTo(c, c.target)
    ensures var n := Min(Avail(c.len, r.addr), Sum(Lens(m.iov)));
      && MappedTo(o.ep.cache, c.target) && o.ep.cache.len == c.len
      && Inside(r.addr, n, |c.base.value|) && n <= |Flatten(m.iov)|
      && Load(o.ep.cache.base.value, r.addr, n) == Flatten(m.iov)[..n]
      && (n == 0 ==> o.ep.cache.base == c.base)
      && (n > 0 ==> o.ep.cache.base.value[..r.addr] == c.base.value[..r.addr]
                    && o.ep.cache.base.value[r.addr + n..] == c.base.value[r.addr + n..])
      && o.ep.writeCq == PostSrc(ep.writeCq, WriteCompletion(m, n), SrcOf(ep, m))
      && o.ep.writeCntr == Inc(ep.writeCntr)
    ensures o.ret == Ok && o.iov == m.iov
    ensures o.flushed <==> flags & FI_REMOTE_CQ_DATA == 0 && flags & FI_MORE == 0
    ensures o.ep.connected == ep.connected && o.ep.peerNode == ep.peerNode
  {
    var copied := Min(Avail(c.len, r.addr), Sum(Lens(m.iov)));
    var c1 := c.(base := Some(Store(c.base.value, r.addr, Flatten(m.iov), copied)));
    var e := WriteCompletion(m, copied);
    var s := MaybeSignal(c1, flags, m.data, hw.irq);
    Outcome(ep.(cache := s.cache, writeCq := PostSrc(ep.writeCq, e, SrcOf(ep, m)), writeCntr := Inc(ep.writeCntr)),
            Ok, m.iov, s.fired, flags & FI_REMOTE_CQ_DATA == 0 && flags & FI_MORE == 0)
  }

  /**
   * dpa_writemsg (with the corrected target acquisition and bounds): as
   * for a read, but the iovecs' bytes are copied into the mapping, the
   * completion reports ETOOSMALL with the shortfall in olen when they did
   * not all fit, and without immediate data a write not marked FI_MORE
   * flushes the sequence.
   */
  function WriteMsg(ep: RmaEp, msg: Option<MsgRma>, flags: bv64, lookup: Result<nat>, hw: Hw): (o: Outcome)
    requires Settled(ep.cache)
    ensures Settled(o.ep.cache)
    ensures !WellFormed(msg) ==> o.ret == Err(EINVAL) && o.ep == ep && o.fired.None? && !o.flushed
    ensures o.ret.Ok? ==> WellFormed(msg) && o.ep.cache.base.Some?
    ensures o.flushed <==> o.ret.Ok? && flags & FI_REMOTE_CQ_DATA == 0 && flags & FI_MORE == 0
    ensures WellFormed(msg) ==> o.iov == msg.value.iov
  {
    if !WellFormed(msg) then Outcome(ep, Err(EINVAL), if msg.Some? then msg.value.iov else [], None, false)
    else
      var m := msg.value;
      var r := m.rmaIov.value[0];
      var a := AcquireTarget(ep.connected, ep.peerNode, lookup, r.key, ep.cache, hw.connect);
      if a.ret.Failure? then Outcome(ep.(cache := a.cache), Err(a.ret.error), m.iov, None, false)
      else WriteMapped(ep, m, r, a.cache, flags, hw)
  }

  /** The one remote iovec of a well-formed message. */
  function Remote(msg: Option<MsgRma>): RmaIov
    requires WellFormed(msg)
  {
    msg.value.rmaIov.value[0]
  }

  /**
   * A successful read copies exactly min(len - offset, sum of iovec
   * lengths) bytes, never past the segment, and the iovecs read back in
   * order are the remote bytes at the offset; its completion is a success
   * that counts on the read counter.
   */
  lemma ReadCopies(ep: RmaEp, msg: Option<MsgRma>, flags: bv64, lookup: Result<nat>, hw: Hw)
    requires Settled(ep.cache)
    requires ReadMsg(ep, msg, flags, lookup, hw).ret.Ok?
    ensures var o := ReadMsg(ep, msg, flags, lookup, hw);
      var c := AcquireTarget(ep.connected, ep.peerNode, lookup, Remote(msg).key, ep.cache, hw.connect).cache;
      var off := Remote(msg).addr;
      var n := Min(Avail(c.len, off), Sum(Lens(msg.value.iov)));
      && c.base.Some? && Inside(off, n, |c.base.value|)
      && Flatten(o.iov)[..n] == Load(c.base.value, off, n)
      && (ep.readCq.Some? ==> o.ep.readCq == Some(Cq.Add(ep.readCq.value, ReadCompletion(msg.value, n, o.iov), SrcOf(ep, msg.value)).0))
      && (ep.readCntr.Some? ==> o.ep.readCntr == Some(Cntr.Count(ep.readCntr.value, true)))
  {
    var m := msg.value;
    var c := AcquireTarget(ep.connected, ep.peerNode, lookup, Remote(msg).key, ep.cache, hw.connect).cache;
    var off := Remote(msg).addr;
    var n := Min(Avail(c.len, off), Sum(Lens(m.iov)));
    ScatterGather(Load(c.base.value, off, n), m.iov);
  }

  /**
   * A successful write stores min(len - offset, sum of iovec lengths)
   * bytes of the iovecs at the offset and leaves the rest of the segment
   * alone; the completion reports ETOOSMALL and the shortfall exactly when
   * some bytes did not fit.
   */
  lemma WriteStores(ep: RmaEp, msg: Option<MsgRma>, flags: bv64, lookup: Result<nat>, hw: Hw)
    requires Settled(ep.cache)
    requires WriteMsg(ep, msg, flags, lookup, hw).ret.Ok?
    ensures var o := WriteMsg(ep, msg, flags, lookup, hw);
      var c := AcquireTarget(ep.connected, ep.peerNode, lookup, Remote(msg).key, ep.cache, hw.connect).cache;
      var off := Remote(msg).addr;
      var n := Min(Avail(c.len, off), Sum(Lens(msg.value.iov)));
      && c.base.Some? && o.ep.cache.base.Some?
      && var mem := o.ep.cache.base.value;
      && Inside(off, n, |c.base.value|) && |c.base.value| == |mem| && n <= |Flatten(msg.value.iov)|
      && Load(mem, off, n) == Flatten(msg.value.iov)[..n]
      && (n == 0 ==> mem == c.base.value)
      && (n > 0 ==> mem[..off] == c.base.value[..off] && mem[off + n..] == c.base.value[off + n..])
      && (ep.writeCq.Some? ==> o.ep.writeCq == Some(Cq.Add(ep.writeCq.value, WriteCompletion(msg.value, n), SrcOf(ep, msg.value)).0))
      && (ep.writeCntr.Some? ==> o.ep.writeCntr == Some(Cntr.Count(ep.writeCntr.value, true)))
  {
  }

  /** fi_write: one buffer, no immediate data, no flags. */
  function Write(ep: RmaEp, buf: seq<byte>, dest: nat, offset: nat, key: nat, context: nat, lookup: Result<nat>, hw: Hw): Outcome
    requires Settled(ep.cache)
  {
    WriteMsg(ep, Some(MsgRma([buf], dest, Some([RmaIov(offset, key)]), context, 0)), 0, lookup, hw)
  }

  /** fi_writedata: one buffer, with immediate data and FI_REMOTE_CQ_DATA. */
  function WriteData(ep: RmaEp, buf: seq<byte>, data: nat, dest: nat, offset: nat, key: nat, context: nat, lookup: Result<nat>, hw: Hw): Outcome
    requires Settled(ep.cache)
  {
    WriteMsg(ep, Some(MsgRma([buf], dest, Some([RmaIov(offset, key)]), context, data)), FI_REMOTE_CQ_DATA, lookup, hw)
  }

  /** fi_read: one buffer, no flags. */
  function Read(ep: RmaEp, buf: seq<byte>, src: nat, offset: nat, key: nat, context: nat, lookup: Result<nat>, hw: Hw): Outcome
    requires Settled(ep.cache)
  {
    ReadMsg(ep, Some(MsgRma([buf], src, Some([RmaIov(offset, key)]), context, 0)), 0, lookup, hw)
  }

  /**
   * A plain write flushes and triggers nothing; a write with immediate
   * data triggers the interrupt named by the data, when it fits 32 bits
   * and the interrupt connects, and does not flush.
   */
  lemma WriteFlushOrSignal(ep: RmaEp, buf: seq<byte>, data: nat, dest: nat, offset: nat, key: nat, context: nat,
                           lookup: Result<nat>, hw: Hw)
    requires Settled(ep.cache)
    ensures var o := Write(ep, buf, dest, offset, key, context, lookup, hw);
      o.fired.None? && (o.flushed <==> o.ret.Ok?)
    ensures var o := WriteData(ep, buf, data, dest, offset, key, context, lookup, hw);
      !o.flushed && (o.fired.Some? ==> o.ret.Ok? && o.fired.value.id == data && data < U32_LIMIT)
  {
    assert FI_REMOTE_CQ_DATA & FI_REMOTE_CQ_DATA != 0;
    assert (0 as bv64) & FI_REMOTE_CQ_DATA == 0 && (0 as bv64) & FI_MORE == 0;
  }

  /** A successful write leaves the target it wrote mapped, whatever the signal step does. */
  lemma WriteMaps(ep: RmaEp, msg: Option<MsgRma>, flags: bv64, lookup: Result<nat>, hw: Hw)
    requires Settled(ep.cache)
    requires WriteMsg(ep, msg, flags, lookup, hw).ret.Ok?
    ensures (ep.connected || lookup.Success?) && Remote(msg).key < U32_LIMIT
    ensures var o := WriteMsg(ep, msg, flags, lookup, hw);
      var c := AcquireTarget(ep.connected, ep.peerNode, lookup, Remote(msg).key, ep.cache, hw.connect).cache;
      && MappedTo(o.ep.cache, Target(if ep.connected then ep.peerNode else lookup.value, Remote(msg).key))
      && o.ep.cache.len == c.len && o.ep.connected == ep.connected && o.ep.peerNode == ep.peerNode
    ensures var o := WriteMsg(ep, msg, flags, lookup, hw);
      var n := Min(Avail(o.ep.cache.len, Remote(msg).addr), Sum(Lens(msg.value.iov)));
      && Inside(Remote(msg).addr, n, |o.ep.cache.base.value|) && n <= |Flatten(msg.value.iov)|
      && Load(o.ep.cache.base.value, Remote(msg).addr, n) == Flatten(msg.value.iov)[..n]
  {
  }

  /** A read of a target already mapped succeeds without the hardware and reads the mapped bytes. */
  lemma ReadHit(ep: RmaEp, msg: Option<MsgRma>, flags: bv64, lookup: Result<nat>, hw: Hw)
    requires Settled(ep.cache) && WellFormed(msg)
    requires (ep.connected || lookup.Success?) && Remote(msg).key < U32_LIMIT
    requires MappedTo(ep.cache, Target(if ep.connected then ep.peerNode else lookup.value, Remote(msg).key))
    ensures var o := ReadMsg(ep, msg, flags, lookup, hw);
      var off := Remote(msg).addr;
      var n := Min(Avail(ep.cache.len, off), Sum(Lens(msg.value.iov)));
      && o.ret.Ok? && Inside(off, n, |ep.cache.base.value|)
      && Flatten(o.iov)[..n] == Load(ep.cache.base.value, off, n)
  {
    var t := Target(if ep.connected then ep.peerNode else lookup.value, Remote(msg).key);
    assert Hit(ep.cache, t);
    assert AcquireTarget(ep.connected, ep.peerNode, lookup, Remote(msg).key, ep.cache, hw.connect).cache == ep.cache;
    ReadCopies(ep, msg, flags, lookup, hw);
  }

  /**
   * Writing a buffer and reading the same range back through the same
   * endpoint returns what was written, as far as it fit: the second call
   * hits the cache, so no hardware answer matters to it.
   */
  lemma WriteThenRead(ep: RmaEp, buf: seq<byte>, dest: nat, offset: nat, key: nat, lookup: Result<nat>, hw: Hw, hw2: Hw, into: seq<byte>)
    requires Settled(ep.cache)
    requires Write(ep, buf, dest, offset, key, 0, lookup, hw).ret.Ok?
    requires |into| == |buf|
    ensures var w := Write(ep, buf, dest, offset, key, 0, lookup, hw);
      var r := Read(w.ep, into, dest, offset, key, 0, lookup, hw2);
      var n := Min(Avail(w.ep.cache.len, offset), |buf|);
      r.ret.Ok? && |r.iov| == 1 && r.iov[0][..n] == buf[..n]
  {
    var msg := Some(MsgRma([buf], dest, Some([RmaIov(offset, key)]), 0, 0));
    var rmsg := Some(MsgRma([into], dest, Some([RmaIov(offset, key)]), 0, 0));
    var w := Write(ep, buf, dest, offset, key, 0, lookup, hw);
    Single([buf]);
    Single([into]);
    WriteMaps(ep, msg, 0, lookup, hw);
    ReadHit(w.ep, rmsg, 0, lookup, hw2);
    var r := Read(w.ep, into, dest, offset, key, 0, lookup, hw2);
    Single(r.iov);
  }
}
