/**
 * Three runs of the ring as written (Ring.TrySend, Ring.TryRecv) that end
 * in a state the protocol does not intend. Each lemma drives a concrete
 * ring step by step; the corrected ring in module Ring is the one the rest
 * of the model uses, and Ring.SendAppendsFrame / Ring.RecvPopsFrame are
 * the properties these runs violate.
 */
module RingHazards {
  import opened Bytes
  import opened Circular
  import opened Ring

  /** The data capacity of a buffer of the default size (64 KiB, minus its status header). */
  const DEFAULT_CAP: nat := 65536 - 8

  /**
   * With the default buffer size, one 65516-byte message leaves the cursor
   * 4 bytes below the top of the area. The next send, of any size the
   * space test accepts, must store its 8-byte header across the top:
   * write_msg stores it at the cursor as one piece, past the area.
   */
  lemma HeaderStraddles()
    ensures NewOffset(0, 65516, DEFAULT_CAP) == DEFAULT_CAP - 4
    ensures !HeaderFits(DEFAULT_CAP, DEFAULT_CAP - 4)
    ensures forall mem: seq<byte> | |mem| == DEFAULT_CAP ::
      var r := Ring(DEFAULT_CAP, mem, DEFAULT_CAP - 4, DEFAULT_CAP - 4, DEFAULT_CAP - 4);
      Shaped(r) && HasRoom(r, 1)
  {
    ModZero(65516 + HDR, 2 * DEFAULT_CAP);
    ModZero(DEFAULT_CAP - 4, DEFAULT_CAP);
    ModZero(2 * DEFAULT_CAP - 4, WORD_LIMIT);
    ModZero(DEFAULT_CAP, WORD_LIMIT);
    ModZero(1 + HDR, WORD_LIMIT);
  }

  /**
   * A size word of 2^64 - 1 at the read cursor, taken with a 0-byte
   * buffer: the size_t sum in new_offset wraps before the modulo, so the
   * read cursor moves to 7, not to the unwrapped sum modulo twice the
   * capacity (4103).
   */
  lemma HugeHeaderWrapsCursor()
    ensures var r := Ring(DEFAULT_CAP, Word(WORD_LIMIT - 1) + Zeros(DEFAULT_CAP - HDR), 0, 0, 0);
      && Shaped(r) && HeaderFits(r.cap, r.read) && HeaderAt(r) == WORD_LIMIT - 1 && ReadInBounds(r, 0)
      && ReadMsg(r, 0).ring.read == 7
      && (r.read + HeaderAt(r) + HDR) % (2 * r.cap) == 4103
  {
    var r := Ring(DEFAULT_CAP, Word(WORD_LIMIT - 1) + Zeros(DEFAULT_CAP - HDR), 0, 0, 0);
    ModZero(0, DEFAULT_CAP);
    assert r.mem[0..HDR] == Word(WORD_LIMIT - 1);
  }

  /** Only bytes below at + |src| change, so the eight bytes at lo stay as they were. */
  lemma PutKeeps(mem: seq<byte>, at: nat, src: seq<byte>, lo: nat)
    requires at + |src| <= |mem| && lo + HDR <= |mem| && (at + |src| <= lo || lo + HDR <= at)
    ensures Put(mem, at, src)[lo..lo + HDR] == mem[lo..lo + HDR]
  {
  }

  /** The copied bytes can be read back where they were put. */
  lemma PutReads(mem: seq<byte>, at: nat, src: seq<byte>)
    requires at + |src| <= |mem|
    ensures Put(mem, at, src)[at..at + |src|] == src
  {
  }

  /** Two stores, one after the other. */
  lemma ApplyPair(mem: seq<byte>, a: Store, b: Store)
    requires a.at + |a.bytes| <= |mem| && b.at + |b.bytes| <= |mem|
    ensures Fits(|mem|, [a, b])
    ensures Apply(mem, [a, b]) == Put(Put(mem, a.at, a.bytes), b.at, b.bytes)
  {
    var ss := [a, b];
    var m1 := Put(mem, a.at, a.bytes);
    assert Apply(mem, ss) == Apply(m1, [b]) by {
      assert ss[0] == a;
      assert ss[1..] == [b];
    }
    assert Apply(m1, [b]) == Put(m1, b.at, b.bytes) by {
      assert [b][1..] == [];
    }
  }

  /** write_msg's stores when the payload does not reach the top. */
  lemma WriteStoresBelowTop(cap: nat, write: nat, p: seq<byte>)
    requires HDR < cap < U32_LIMIT && write % cap + HDR + |p| <= cap
    ensures HeaderFits(cap, write)
    ensures WriteStores(cap, write, p) == [Store(write % cap + HDR, p), Store(write % cap, Word(|p|))]
  {
    assert p[..|p|] == p;
  }

  /** A send as written whose payload does not reach the top: payload after the header, then the header. */
  lemma SendBelowTop(r: Ring, p: seq<byte>)
    requires Shaped(r) && HasRoom(r, |p|) && r.write % r.cap + HDR + |p| <= r.cap
    ensures HeaderFits(r.cap, r.write)
    ensures TrySend(r, p) == SendResult(r.(mem := Put(Put(r.mem, r.write % r.cap + HDR, p), r.write % r.cap, Word(|p|)),
                                            write := NewOffset(r.write, |p|, r.cap)), Sent)
  {
    var pos := r.write % r.cap;
    assert p[..|p|] == p;
    var ss := WriteStores(r.cap, r.write, p);
    assert ss == [Store(pos + HDR, p), Store(pos, Word(|p|))];
    ApplyPair(r.mem, Store(pos + HDR, p), Store(pos, Word(|p|)));
    var m := Put(Put(r.mem, pos + HDR, p), pos, Word(|p|));
    assert TrySend(r, p) == SendResult(r.(mem := m, write := NewOffset(r.write, |p|, r.cap)), Sent);
  }

  /** A receive as written whose copy does not reach the top: the header and copied bytes are cleared. */
  lemma RecvBelowTop(r: Ring, recvLen: nat)
    requires Shaped(r) && HeaderFits(r.cap, r.read) && HeaderAt(r) != 0
    requires r.read % r.cap + HDR + Min(recvLen, HeaderAt(r)) <= r.cap
    ensures ReadInBounds(r, recvLen)
    ensures var pos := r.read % r.cap; var n := Min(recvLen, HeaderAt(r));
      var read := NewOffset(r.read, HeaderAt(r), r.cap);
      TryRecv(r, recvLen) == RecvResult(r.(mem := Put(r.mem, pos, Zeros(HDR + n)), read := read, published := read),
                                        Received(r.mem[pos + HDR .. pos + HDR + n], HeaderAt(r)))
  {
    var pos := r.read % r.cap;
    var n := Min(recvLen, HeaderAt(r));
    assert r.mem[..0] == [];
  }

  /** A 24-byte ring whose cursors are given and whose first header reads as zero. */
  predicate ZeroHeaderAt0(r: Ring, write: nat)
  {
    r.cap == 24 && |r.mem| == 24 && r.write == write && r.read == 0 && r.published == 0
    && r.mem[0..HDR] == Word(0)
  }

  lemma EmptyFirstSend()
    ensures var s := TrySend(Ring(24, Zeros(24), 0, 0, 0), []);
      s.status == Sent && ZeroHeaderAt0(s.ring, HDR)
  {
    var r0 := Ring(24, Zeros(24), 0, 0, 0);
    ModZero(0, 24);
    ModZero(24, WORD_LIMIT);
    ModZero(HDR, WORD_LIMIT);
    ModZero(HDR, 48);
    assert HasRoom(r0, 0);
    SendBelowTop(r0, []);
    PutReads(Put(Zeros(24), HDR, []), 0, Word(0));
  }

  /** The cursor arithmetic of the second send: 9 bytes fit in the 16 free, and the cursor moves to 17. */
  lemma SecondSendCursors()
    ensures HeaderFits(24, HDR) && Wrap(1 + HDR) <= RemoteSpace(0, HDR, 24)
    ensures NewOffset(HDR, 1, 24) == 2 * HDR + 1
  {
    ModZero(HDR, 24);
    ModZero(24, WORD_LIMIT);
    ModZero(24 - HDR, WORD_LIMIT);
    ModZero(HDR + 1, WORD_LIMIT);
    ModZero(2 * HDR + 1, 48);
  }

  lemma EmptySecondSend(r: Ring)
    requires ZeroHeaderAt0(r, HDR)
    ensures Shaped(r) && HasRoom(r, 1) && HeaderFits(24, HDR)
    ensures var s := TrySend(r, [5]); s.status == Sent && ZeroHeaderAt0(s.ring, 2 * HDR + 1)
  {
    SecondSendCursors();
    ModZero(HDR, 24);
    SendBelowTop(r, [5]);
    var m := Put(Put(r.mem, 2 * HDR, [5]), HDR, Word(1));
    PutKeeps(r.mem, 2 * HDR, [5], 0);
    PutKeeps(Put(r.mem, 2 * HDR, [5]), HDR, Word(1), 0);
    assert TrySend(r, [5]) == SendResult(r.(mem := m, write := 2 * HDR + 1), Sent);
  }

  lemma ZeroHeaderStalls(r: Ring, write: nat)
    requires ZeroHeaderAt0(r, write) && write < 48
    ensures Shaped(r) && HeaderFits(24, 0) && HeaderAt(r) == 0
  {
    ModZero(0, 24);
  }

  /**
   * An empty payload passes try_send's space test and writes a zero
   * header: the cursor moves on, but the receiver reads "nothing here" at
   * its cursor and never gets past it, even after a real message follows.
   */
  lemma EmptySendStalls()
    ensures var s1 := TrySend(Ring(24, Zeros(24), 0, 0, 0), []);
      && s1.status == Sent && s1.ring.write == HDR
      && var s2 := TrySend(s1.ring, [5]);
      && s2.status == Sent && s2.ring.write == 2 * HDR + 1
      && TryRecv(s2.ring, 1).outcome == RecvAgain
  {
    EmptyFirstSend();
    var s1 := TrySend(Ring(24, Zeros(24), 0, 0, 0), []);
    EmptySecondSend(s1.ring);
    var s2 := TrySend(s1.ring, [5]);
    ZeroHeaderStalls(s2.ring, 2 * HDR + 1);
  }

  /** Eight bytes of a 16-byte payload of ones, as they stay behind after a truncated receive. */
  function Ones(n: nat): (b: seq<byte>)
    ensures |b| == n && forall i | 0 <= i < n :: b[i] == 1
  {
    seq(n, _ => 1)
  }

  /** A 24-byte ring whose cursors are given and whose bytes 9 .. 17 are ones. */
  predicate StaleAt9(r: Ring, write: nat, read: nat)
  {
    r.cap == 24 && |r.mem| == 24 && r.write == write && r.read == read && r.published == read
    && r.mem[9..17] == Ones(8)
  }

  lemma PhantomFirstSend()
    ensures var s1 := TrySend(Ring(24, Zeros(24), 0, 0, 0), Ones(16));
      s1.status == Sent && StaleAt9(s1.ring, 24, 0) && s1.ring.mem[0..HDR] == Word(16)
  {
    var r0 := Ring(24, Zeros(24), 0, 0, 0);
    ModZero(0, 24);
    ModZero(24, WORD_LIMIT);
    ModZero(24, 48);
    assert HasRoom(r0, 16);
    SendBelowTop(r0, Ones(16));
    var m0 := Put(Zeros(24), HDR, Ones(16));
    assert m0[9..17] == Ones(8);
    PutKeeps(m0, 0, Word(16), 9);
    PutReads(m0, 0, Word(16));
  }

  lemma PhantomFirstRecv(r: Ring)
    requires StaleAt9(r, 24, 0) && r.mem[0..HDR] == Word(16)
    ensures Shaped(r) && HeaderFits(24, 0) && HeaderAt(r) == 16 && ReadInBounds(r, 0)
    ensures var v := TryRecv(r, 0); v.outcome == Received([], 16) && StaleAt9(v.ring, 24, 24)
  {
    ModZero(0, 24);
    ModZero(24, 48);
    RecvBelowTop(r, 0);
    assert r.mem[HDR..HDR] == [];
    PutKeeps(r.mem, 0, Zeros(HDR), 9);
  }

  lemma PhantomSecondSend(r: Ring)
    requires StaleAt9(r, 24, 24)
    ensures Shaped(r) && HasRoom(r, 1)
    ensures var s := TrySend(r, [7]);
      s.status == Sent && StaleAt9(s.ring, 33, 24) && s.ring.mem[0..HDR] == Word(1) && s.ring.mem[HDR..HDR + 1] == [7]
  {
    ModOnce(24, 24);
    ModZero(48, WORD_LIMIT);
    ModZero(24, WORD_LIMIT);
    ModZero(HDR + 1, WORD_LIMIT);
    ModZero(33, 48);
    SendBelowTop(r, [7]);
    var m := Put(r.mem, HDR, [7]);
    PutKeeps(r.mem, HDR, [7], 9);
    PutKeeps(m, 0, Word(1), 9);
    PutReads(m, 0, Word(1));
  }

  lemma PhantomSecondRecv(r: Ring)
    requires StaleAt9(r, 33, 24) && r.mem[0..HDR] == Word(1) && r.mem[HDR..HDR + 1] == [7]
    ensures Shaped(r) && HeaderFits(24, 24) && HeaderAt(r) == 1 && ReadInBounds(r, 1)
    ensures var v := TryRecv(r, 1); v.outcome == Received([7], 1) && StaleAt9(v.ring, 33, 33)
  {
    ModOnce(24, 24);
    ModZero(33, 48);
    RecvBelowTop(r, 1);
    PutKeeps(r.mem, 0, Zeros(HDR + 1), 9);
  }

  lemma PhantomHeader(r: Ring)
    requires StaleAt9(r, 33, 33)
    ensures Shaped(r) && HeaderFits(24, 33) && HeaderAt(r) != 0
  {
    ModOnce(33, 24);
    DecodeZeroIff(Ones(8));
    assert Ones(8)[0] == 1;
  }

  /**
   * A receive into a buffer shorter than the frame clears the header and
   * the copied bytes only: after a 16-byte message is received into an
   * empty buffer, the cursors are equal but payload bytes stay behind.
   */
  lemma TruncationLeavesStale()
    ensures var s1 := TrySend(Ring(24, Zeros(24), 0, 0, 0), Ones(16));
      && s1.status == Sent
      && var v1 := TryRecv(s1.ring, 0);
      && v1.outcome == Received([], 16)
      && v1.ring.write == v1.ring.read
      && StaleAt9(v1.ring, 24, 24)
  {
    PhantomFirstSend();
    var s1 := TrySend(Ring(24, Zeros(24), 0, 0, 0), Ones(16));
    PhantomFirstRecv(s1.ring);
  }

  /**
   * Once the cursors come back round to the stale bytes, the receiver
   * reads them as the header of a frame nobody sent, although both
   * cursors are equal.
   */
  lemma StaleBytesReadAsFrame(r: Ring)
    requires StaleAt9(r, 24, 24)
    ensures var s2 := TrySend(r, [7]);
      && s2.status == Sent
      && var v2 := TryRecv(s2.ring, 1);
      && v2.outcome == Received([7], 1)
      && v2.ring.write == v2.ring.read
      && HeaderFits(24, v2.ring.read)
      && TryRecv(v2.ring, 0).outcome.Received?
  {
    PhantomSecondSend(r);
    var s2 := TrySend(r, [7]);
    PhantomSecondRecv(s2.ring);
    var v2 := TryRecv(s2.ring, 1);
    PhantomHeader(v2.ring);
  }
}
